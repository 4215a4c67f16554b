/** The scorecard stream: canonical check names and the record normaliser
    that reshapes one raw scorecard result into the emitted record. */
module Streams {
  import opened Values

  // ---------------------------------------------------------------------
  // Check-name canonicalisation: `s.lower().replace("-", "_")`
  // ---------------------------------------------------------------------

  predicate IsUpper(c: char) {
    'A' <= c <= 'Z'
  }

  /** `str.lower()` on one character, for the ASCII letters. */
  function LowerChar(c: char): (l: char)
    ensures !IsUpper(l)
    ensures !IsUpper(c) ==> l == c
  {
    if IsUpper(c) then (c as int + 32) as char else c
  }

  /** `str.lower()`: character by character. */
  function LowerAscii(s: string): (r: string)
    ensures |r| == |s|
    ensures forall i :: 0 <= i < |s| ==> r[i] == LowerChar(s[i])
  {
    if s == [] then [] else [LowerChar(s[0])] + LowerAscii(s[1..])
  }

  /** `str.replace(from, to)` for one-character `from` and `to`. */
  function ReplaceChar(s: string, from: char, to: char): (r: string)
    ensures |r| == |s|
    ensures forall i :: 0 <= i < |s| && s[i] == from ==> r[i] == to
    ensures forall i :: 0 <= i < |s| && s[i] != from ==> r[i] == s[i]
  {
    if s == [] then [] else [if s[0] == from then to else s[0]] + ReplaceChar(s[1..], from, to)
  }

  /** A canonical check key: no hyphen and no upper-case letter. */
  predicate Canonical(s: string) {
    forall i :: 0 <= i < |s| ==> s[i] != '-' && !IsUpper(s[i])
  }

  /** `ScorecardStream.normalize`: the key under which a check is emitted. */
  function Normalize(s: string): (r: string)
    ensures |r| == |s|
    ensures forall i :: 0 <= i < |s| ==>
      r[i] == (if LowerChar(s[i]) == '-' then '_' else LowerChar(s[i]))
    ensures Canonical(r)
  {
    ReplaceChar(LowerAscii(s), '-', '_')
  }

  /** Normalisation changes a name exactly when the name is not already
      canonical. */
  lemma NormalizeFixesExactlyCanonical(s: string)
    ensures Normalize(s) == s <==> Canonical(s)
  {
    if Canonical(s) {
      var r := Normalize(s);
      forall i | 0 <= i < |s| ensures r[i] == s[i] {
        assert LowerAscii(s)[i] == s[i];
      }
    }
  }

  /** Normalising a canonical key again leaves it as it is. */
  lemma NormalizeIdempotent(s: string)
    ensures Normalize(Normalize(s)) == Normalize(s)
  {
    NormalizeFixesExactlyCanonical(Normalize(s));
  }

  lemma {:induction false} LowerConcat(a: string, b: string)
    ensures LowerAscii(a + b) == LowerAscii(a) + LowerAscii(b)
  {
    var l, la, lb := LowerAscii(a + b), LowerAscii(a), LowerAscii(b);
    assert |l| == |la + lb|;
    forall i | 0 <= i < |a + b| ensures l[i] == (la + lb)[i] {
      if i < |a| {
        assert (a + b)[i] == a[i];
        assert (la + lb)[i] == la[i];
      } else {
        assert (a + b)[i] == b[i - |a|];
        assert (la + lb)[i] == lb[i - |a|];
      }
    }
  }

  lemma {:induction false} ReplaceConcat(a: string, b: string, from: char, to: char)
    ensures ReplaceChar(a + b, from, to) == ReplaceChar(a, from, to) + ReplaceChar(b, from, to)
  {
    var l, la, lb := ReplaceChar(a + b, from, to), ReplaceChar(a, from, to), ReplaceChar(b, from, to);
    assert |l| == |la + lb|;
    forall i | 0 <= i < |a + b| ensures l[i] == (la + lb)[i] {
      if i < |a| {
        assert (a + b)[i] == a[i];
        assert (la + lb)[i] == la[i];
      } else {
        assert (a + b)[i] == b[i - |a|];
        assert (la + lb)[i] == lb[i - |a|];
      }
    }
  }

  /** Normalisation works character by character, so it distributes over
      concatenation. */
  lemma NormalizeConcat(a: string, b: string)
    ensures Normalize(a + b) == Normalize(a) + Normalize(b)
  {
    LowerConcat(a, b);
    ReplaceConcat(LowerAscii(a), LowerAscii(b), '-', '_');
  }

  // Literal facts kept apart so that each proof stays small.
  lemma NormalizeBinaryPrefix()
    ensures Normalize("Binary-") == "binary_"
  {
    var l := LowerAscii("Binary-");
    assert l[0] == 'b';
    assert l[1] == 'i';
    assert l[2] == 'n';
    assert l[3] == 'a';
    assert l[4] == 'r';
    assert l[5] == 'y';
    assert l[6] == '-';
  }

  lemma NormalizeArtifacts()
    ensures Normalize("Artifacts") == "artifacts"
  {
    var l := LowerAscii("Artifacts");
    assert l[0] == 'a';
    assert l[1] == 'r';
    assert l[2] == 't';
    assert l[3] == 'i';
    assert l[4] == 'f';
    assert l[5] == 'a';
    assert l[6] == 'c';
    assert l[7] == 't';
    assert l[8] == 's';
  }

  // Proof helper, not a property of the tap: the literal split used below.
  lemma SplitBinaryArtifacts()
    ensures "Binary-" + "Artifacts" == "Binary-Artifacts"
    ensures "binary_" + "artifacts" == "binary_artifacts"
  {
  }

  /** The scanner's check name `Binary-Artifacts` becomes the declared key
      `binary_artifacts`. */
  lemma NormalizeBinaryArtifacts()
    ensures Normalize("Binary-Artifacts") == "binary_artifacts"
  {
    SplitBinaryArtifacts();
    NormalizeConcat("Binary-", "Artifacts");
    NormalizeBinaryPrefix();
    NormalizeArtifacts();
  }

  /** The scanner's check name `SAST` becomes the declared key `sast`. */
  lemma NormalizeSast()
    ensures Normalize("SAST") == "sast"
  {
    var l := LowerAscii("SAST");
    assert l[0] == 's';
    assert l[1] == 'a';
    assert l[2] == 's';
    assert l[3] == 't';
  }

  // ---------------------------------------------------------------------
  // One check: drop `documentation` and `name`, rescale `score`
  // ---------------------------------------------------------------------

  /** The fields that no emitted check body carries. */
  const Dropped: set<string> := {"documentation", "name"}

  /** A check entry that post_process turns into a body without raising. */
  predicate WellFormedCheck(check: Json) {
    && check.JObj?
    && "score" in check.fields
    && Rescale(check.fields["score"]).Returned?
    && "name" in check.fields
    && check.fields["name"].JStr?
  }

  /** One pass of the loop body over `row["checks"]`: the key
      `normalize(check["name"])` and the body `d`. An entry that is not a
      dictionary cannot be indexed by its own keys (an empty string or an
      empty list yields an empty `d`, which has no `score`); the score is
      rescaled before the name is read. */
  function CheckEntry(check: Json): (r: Outcome<(string, Json)>)
    ensures r.Returned? <==> WellFormedCheck(check)
    ensures r.Returned? ==> r.value.0 == Normalize(check.fields["name"].s)
    ensures r.Returned? ==>
      && r.value.1.JObj?
      && r.value.1.fields.Keys == check.fields.Keys - Dropped
      && (forall k :: k in r.value.1.fields && k != "score" ==> r.value.1.fields[k] == check.fields[k])
      && r.value.1.fields["score"].JInt?
      && Rescale(check.fields["score"]) == Returned(r.value.1.fields["score"].i)
  {
    match check
    case JObj(fields) =>
      var d := fields - Dropped;
      if "score" !in d then Raised(KeyError("score"))
      else
        (match Rescale(d["score"])
         case Raised(e) => Raised(e)
         case Returned(n) =>
           var body := d["score" := JInt(n)];
           if "name" !in fields then Raised(KeyError("name"))
           else if !fields["name"].JStr? then Raised(AttributeError)
           else Returned((Normalize(fields["name"].s), JObj(body))))
    case JStr(s) => if s == "" then Raised(KeyError("score")) else Raised(TypeError)
    case JArr(xs) => if xs == [] then Raised(KeyError("score")) else Raised(TypeError)
    case _ => Raised(TypeError)
  }

  /** The entries of `for check in row["checks"]`: a list yields its
      elements; an empty string or dictionary yields nothing; any other
      string or dictionary yields strings, which fail as check entries;
      other values are not iterable. */
  function Items(checks: Json): (r: Outcome<seq<Json>>)
    ensures checks.JArr? ==> r == Returned(checks.items)
    ensures r.Returned? ==> checks.JArr? || r == Returned([])
  {
    match checks
    case JArr(xs) => Returned(xs)
    case JStr(s) => if s == "" then Returned([]) else Raised(TypeError)
    case JObj(m) => if m == map[] then Returned([]) else Raised(TypeError)
    case _ => Raised(TypeError)
  }

  /** The shape of an emitted check body: a dictionary without
      `documentation` and `name` whose `score` is an integer. */
  predicate EmittedBody(body: Json) {
    && body.JObj?
    && body.fields.Keys !! Dropped
    && "score" in body.fields
    && body.fields["score"].JInt?
  }

  /** Every key of an emitted `checks` map is canonical and carries an
      emitted body. */
  predicate EmittedChecks(m: map<string, Json>) {
    forall k :: k in m ==> Canonical(k) && EmittedBody(m[k])
  }

  /** `new_checks` after the loop has visited `items` in order, or the
      exception of the first entry that fails. */
  function Checks(items: seq<Json>): (r: Outcome<map<string, Json>>)
    ensures r.Returned? ==> EmittedChecks(r.value)
    decreases |items|
  {
    if items == [] then Returned(map[])
    else
      match Checks(items[..|items| - 1])
      case Raised(e) => Raised(e)
      case Returned(m) =>
        match CheckEntry(items[|items| - 1])
        case Raised(e) => Raised(e)
        case Returned(entry) => Returned(m[entry.0 := entry.1])
  }

  /** The loop completes exactly when every entry is well formed. */
  lemma {:induction false} ChecksSucceedIffWellFormed(items: seq<Json>)
    ensures Checks(items).Returned? <==> forall i :: 0 <= i < |items| ==> WellFormedCheck(items[i])
  {
    if items != [] {
      var init := items[..|items| - 1];
      ChecksSucceedIffWellFormed(init);
      assert forall i :: 0 <= i < |init| ==> init[i] == items[i];
    }
  }

  /** A failing loop raises the exception of its first failing entry. */
  lemma {:induction false} ChecksRaiseFirstFailure(items: seq<Json>)
    requires Checks(items).Raised?
    ensures exists i :: 0 <= i < |items| && CheckEntry(items[i]) == Raised(Checks(items).error)
                        && forall j :: 0 <= j < i ==> WellFormedCheck(items[j])
  {
    var init := items[..|items| - 1];
    assert forall i :: 0 <= i < |init| ==> init[i] == items[i];
    if Checks(init).Raised? {
      ChecksRaiseFirstFailure(init);
      var i :| 0 <= i < |init| && CheckEntry(init[i]) == Raised(Checks(init).error)
                && forall j :: 0 <= j < i ==> WellFormedCheck(init[j]);
      assert CheckEntry(items[i]) == Raised(Checks(items).error);
    } else {
      ChecksSucceedIffWellFormed(init);
      var i := |items| - 1;
      assert CheckEntry(items[i]) == Raised(Checks(items).error);
    }
  }

  /** Once a prefix of the entries fails, the whole loop fails the same way. */
  lemma {:induction false} ChecksPrefixFailure(items: seq<Json>, n: nat)
    requires n <= |items|
    requires Checks(items[..n]).Raised?
    ensures Checks(items) == Checks(items[..n])
    decreases |items| - n
  {
    if n < |items| {
      var longer := items[..n + 1];
      assert longer[..n] == items[..n];
      assert Checks(longer) == Checks(items[..n]);
      ChecksPrefixFailure(items, n + 1);
    } else {
      assert items[..n] == items;
    }
  }

  /** Every entry's normalised name is a key of the emitted `checks` map. */
  lemma {:induction false} ChecksKeys(items: seq<Json>)
    requires Checks(items).Returned?
    ensures forall i :: 0 <= i < |items| ==>
      CheckEntry(items[i]).Returned? && CheckEntry(items[i]).value.0 in Checks(items).value
  {
    if items != [] {
      var n := |items| - 1;
      var init := items[..n];
      assert forall i :: 0 <= i < |init| ==> init[i] == items[i];
      ChecksKeys(init);
    }
  }

  /** One step of the loop: a completed loop is the completed loop over
      all but the last entry, updated with the last entry. */
  lemma ChecksLastStep(items: seq<Json>)
    requires items != [] && Checks(items).Returned?
    ensures Checks(items[..|items| - 1]).Returned? && CheckEntry(items[|items| - 1]).Returned?
    ensures var entry := CheckEntry(items[|items| - 1]).value;
      Checks(items).value == Checks(items[..|items| - 1]).value[entry.0 := entry.1]
  {
    var init, last := items[..|items| - 1], items[|items| - 1];
    assert Checks(init).Returned? && CheckEntry(last).Returned?;
    var m, entry := Checks(init).value, CheckEntry(last).value;
    assert Checks(items) == Returned(m[entry.0 := entry.1]);
  }

  /** Entry `i` of `items` yields key `k` with body `body`, and no later
      entry yields `k` again. */
  predicate LastEntryFor(items: seq<Json>, i: int, k: string, body: Json) {
    && 0 <= i < |items|
    && CheckEntry(items[i]) == Returned((k, body))
    && forall j :: i < j < |items| ==> CheckEntry(items[j]).Returned? && CheckEntry(items[j]).value.0 != k
  }

  /** Every key of the emitted `checks` map comes from an entry, and its
      body is that of the LAST entry with that key: a later check with the
      same normalised name overwrites an earlier one. */
  lemma {:induction false} ChecksLastWins(items: seq<Json>, k: string)
    requires Checks(items).Returned?
    requires k in Checks(items).value
    ensures exists i :: LastEntryFor(items, i, k, Checks(items).value[k])
  {
    var n := |items| - 1;
    var init := items[..n];
    ChecksLastStep(items);
    var m := Checks(init).value;
    var entry := CheckEntry(items[n]).value;
    if k == entry.0 {
      assert LastEntryFor(items, n, k, Checks(items).value[k]);
    } else {
      ChecksLastWins(init, k);
      var i :| LastEntryFor(init, i, k, m[k]);
      LastEntryExtends(items, i, k, m[k]);
    }
  }

  /** An entry that is last for `k` stays last when an entry with another
      key is appended. */
  lemma LastEntryExtends(items: seq<Json>, i: int, k: string, body: Json)
    requires items != [] && LastEntryFor(items[..|items| - 1], i, k, body)
    requires CheckEntry(items[|items| - 1]).Returned? && CheckEntry(items[|items| - 1]).value.0 != k
    ensures LastEntryFor(items, i, k, body)
  {
    var n := |items| - 1;
    var init := items[..n];
    forall j | i < j < |items|
      ensures CheckEntry(items[j]).Returned? && CheckEntry(items[j]).value.0 != k
    {
      if j < n { assert items[j] == init[j]; }
    }
    assert items[i] == init[i];
  }

  // ---------------------------------------------------------------------
  // The record: `ScorecardStream.post_process`
  // ---------------------------------------------------------------------

  /** What post_process leaves behind: its outcome (`Returned(true)` when it
      returns the row, `Returned(false)` when it returns `None`) and the
      row's dictionary, which it has changed in place even when it returns
      `None` or raises part-way. */
  datatype Run = Run(outcome: Outcome<bool>, row: map<string, Json>)

  /** The top-level fields that post_process writes or removes. */
  const Touched: set<string> := {"repo", "repo_name", "repo_commit", "score", "checks"}

  /** A row whose `repo` can be lifted and whose `score` can be rescaled:
      post_process gets as far as inspecting `checks`. */
  predicate Liftable(row: map<string, Json>) {
    && "repo" in row
    && row["repo"].JObj?
    && "name" in row["repo"].fields
    && "commit" in row["repo"].fields
    && "score" in row
    && Rescale(row["score"]).Returned?
  }

  /** A row that post_process turns into a record. */
  predicate WellFormedRow(row: map<string, Json>) {
    && Liftable(row)
    && "checks" in row
    && !row["checks"].JNull?
    && Items(row["checks"]).Returned?
    && forall i :: 0 <= i < |Items(row["checks"]).value| ==> WellFormedCheck(Items(row["checks"]).value[i])
  }

  /** The row and outcome after post_process, step by step as the method
      below performs them. */
  function PostProcessed(row: map<string, Json>): (run: Run)
    ensures "repo" !in run.row
    ensures forall k :: k !in Touched ==> (k in run.row <==> k in row) && (k in row ==> run.row[k] == row[k])
  {
    if "repo" !in row then Run(Raised(KeyError("repo")), row)
    else
      var repo := row["repo"];
      var popped := row - {"repo"};
      if !repo.JObj? then Run(Raised(TypeError), popped)
      else if "name" !in repo.fields then Run(Raised(KeyError("name")), popped)
      else
        var named := popped["repo_name" := repo.fields["name"]];
        if "commit" !in repo.fields then Run(Raised(KeyError("commit")), named)
        else
          var lifted := named["repo_commit" := repo.fields["commit"]];
          if "score" !in lifted then Run(Raised(KeyError("score")), lifted)
          else
            match Rescale(lifted["score"])
            case Raised(e) => Run(Raised(e), lifted)
            case Returned(n) =>
              var scored := lifted["score" := JInt(n)];
              if "checks" !in scored then Run(Raised(KeyError("checks")), scored)
              else if scored["checks"].JNull? then Run(Returned(false), scored)
              else
                match Items(scored["checks"])
                case Raised(e) => Run(Raised(e), scored)
                case Returned(items) =>
                  match Checks(items)
                  case Raised(e) => Run(Raised(e), scored)
                  case Returned(m) => Run(Returned(true), scored["checks" := JObj(m)])
  }

  /** A row without `repo` raises at once and is left untouched. */
  lemma MissingRepoRaises(row: map<string, Json>)
    requires "repo" !in row
    ensures PostProcessed(row) == Run(Raised(KeyError("repo")), row)
  {
  }

  /** The repository's name and commit are lifted to the top level and the
      nested `repo` is gone, whether or not the rest succeeds. */
  lemma RepoLifted(row: map<string, Json>)
    requires "repo" in row && row["repo"].JObj?
    requires "name" in row["repo"].fields && "commit" in row["repo"].fields
    ensures PostProcessed(row).row["repo_name"] == row["repo"].fields["name"]
    ensures PostProcessed(row).row["repo_commit"] == row["repo"].fields["commit"]
    ensures "repo" !in PostProcessed(row).row
  {
  }

  /** The overall score is rescaled to the 0-100 scale. */
  lemma ScoreRescaled(row: map<string, Json>)
    requires Liftable(row)
    ensures PostProcessed(row).row["score"] == JInt(Rescale(row["score"]).value)
    ensures row["score"].JFloat? && 0.0 <= row["score"].x <= 10.0 ==>
      0 <= PostProcessed(row).row["score"].i <= 100
  {
  }

  /** post_process returns `None` exactly for a liftable row whose `checks`
      is `None`; the lifted and rescaled row is then left behind with
      `checks` still `None`. */
  lemma NullChecksYieldNoRecord(row: map<string, Json>)
    ensures PostProcessed(row).outcome == Returned(false) <==>
      Liftable(row) && "checks" in row && row["checks"].JNull?
    ensures PostProcessed(row).outcome == Returned(false) ==> PostProcessed(row).row["checks"] == JNull
  {
  }

  /** post_process returns a record exactly for a well-formed row. */
  lemma RecordIffWellFormed(row: map<string, Json>)
    ensures PostProcessed(row).outcome == Returned(true) <==> WellFormedRow(row)
  {
    if Liftable(row) && "checks" in row && !row["checks"].JNull? && Items(row["checks"]).Returned? {
      ChecksSucceedIffWellFormed(Items(row["checks"]).value);
    }
  }

  /** The emitted record: the same top-level keys except that `repo` gives
      way to `repo_name` and `repo_commit`, and `checks` becomes the map
      built from the entries, one key per normalised name. */
  lemma RecordShape(row: map<string, Json>)
    requires WellFormedRow(row)
    ensures PostProcessed(row).outcome == Returned(true)
    ensures PostProcessed(row).row.Keys == row.Keys - {"repo"} + {"repo_name", "repo_commit"}
    ensures Checks(Items(row["checks"]).value).Returned?
    ensures PostProcessed(row).row["checks"] == JObj(Checks(Items(row["checks"]).value).value)
  {
    RecordIffWellFormed(row);
    ChecksSucceedIffWellFormed(Items(row["checks"]).value);
  }

  /** When post_process does not return a record, `checks` is left as it
      was: `new_checks` is stored only at the end. */
  lemma ChecksKeptUnlessRecord(row: map<string, Json>)
    requires PostProcessed(row).outcome != Returned(true)
    ensures "checks" in PostProcessed(row).row <==> "checks" in row
    ensures "checks" in row ==> PostProcessed(row).row["checks"] == row["checks"]
  {
  }

  /** The dictionary post_process mutates in place. */
  class Row {
    var fields: map<string, Json>

    constructor (fields: map<string, Json>)
      ensures this.fields == fields
    {
      this.fields := fields;
    }
  }

  /** The value post_process hands back for an outcome: the same row
      object, `None`, or the exception. */
  function Answer(outcome: Outcome<bool>, row: Row): Outcome<Option<Row>> {
    match outcome
    case Returned(emit) => Returned(if emit then Some(row) else None)
    case Raised(e) => Raised(e)
  }

  /** `ScorecardStream.post_process`: reshape `row` in place. */
  method PostProcess(row: Row) returns (res: Outcome<Option<Row>>)
    modifies row
    ensures row.fields == PostProcessed(old(row.fields)).row
    ensures res == Answer(PostProcessed(old(row.fields)).outcome, row)
  {
    if "repo" !in row.fields {
      return Raised(KeyError("repo"));
    }
    var repo := row.fields["repo"];
    row.fields := row.fields - {"repo"};
    if !repo.JObj? {
      return Raised(TypeError);
    }
    if "name" !in repo.fields {
      return Raised(KeyError("name"));
    }
    row.fields := row.fields["repo_name" := repo.fields["name"]];
    if "commit" !in repo.fields {
      return Raised(KeyError("commit"));
    }
    row.fields := row.fields["repo_commit" := repo.fields["commit"]];
    if "score" !in row.fields {
      return Raised(KeyError("score"));
    }
    var score := Rescale(row.fields["score"]);
    if score.Raised? {
      return Raised(score.error);
    }
    row.fields := row.fields["score" := JInt(score.value)];
    var newChecks: map<string, Json> := map[];

    if "checks" !in row.fields {
      return Raised(KeyError("checks"));
    }
    if row.fields["checks"].JNull? {
      return Returned(None);
    }
    var items := Items(row.fields["checks"]);
    if items.Raised? {
      return Raised(items.error);
    }
    var i := 0;
    while i < |items.value|
      invariant 0 <= i <= |items.value|
      invariant Checks(items.value[..i]) == Returned(newChecks)
    {
      assert items.value[..i + 1][..i] == items.value[..i];
      var entry := CheckEntry(items.value[i]);
      if entry.Raised? {
        ChecksPrefixFailure(items.value, i + 1);
        return Raised(entry.error);
      }
      newChecks := newChecks[entry.value.0 := entry.value.1];
      i := i + 1;
    }
    assert items.value[..i] == items.value;
    row.fields := row.fields["checks" := JObj(newChecks)];
    return Returned(Some(row));
  }
}
