/** The stream base class: the per-repository request contexts derived from
    the configured URLs, and the scanner command line. */
module Client {
  import opened Values

  /** The options the stream reads from its configuration. A configuration
      without the key `local_scorecard_cli_path` has `None` here; a null or
      false value for that key is written as the empty path. */
  datatype Config = Config(
    projectUrls: seq<string>,
    authToken: string,
    localScorecardCliPath: Option<string>)

  /** The context handed to the framework for one repository: the
      `repo_url` entry, the lookup key of the aggregator request. */
  datatype Context = Context(repoUrl: string)

  // ---------------------------------------------------------------------
  // `str.rsplit(sep, maxsplit)` and `str.join`
  // ---------------------------------------------------------------------

  /** The position of the last `c` in `s`. */
  function LastIndex(s: string, c: char): (r: nat)
    requires c in s
    ensures r < |s| && s[r] == c
    ensures c !in s[r + 1..]
  {
    if s[|s| - 1] == c then |s| - 1
    else
      assert c in s[..|s| - 1] by {
        var k :| 0 <= k < |s| && s[k] == c;
        assert s[..|s| - 1][k] == c;
      }
      var r := LastIndex(s[..|s| - 1], c);
      assert s[r + 1..] == s[..|s| - 1][r + 1..] + [s[|s| - 1]];
      r
  }

  /** The last `c` of `a + [c] + b` is the one in the middle when `b` has
      none. */
  lemma LastIndexAt(a: string, c: char, b: string)
    requires c !in b
    ensures c in a + [c] + b
    ensures LastIndex(a + [c] + b, c) == |a|
  {
    var s := a + [c] + b;
    assert s[|a|] == c;
  }

  /** `sep.join(parts)`. */
  function Join(sep: string, parts: seq<string>): (r: string)
    ensures |parts| == 1 ==> r == parts[0]
  {
    if |parts| == 0 then ""
    else if |parts| == 1 then parts[0]
    else Join(sep, parts[..|parts| - 1]) + sep + parts[|parts| - 1]
  }

  /** `s.rsplit(sep, maxsplit)`: at most `maxsplit` splits, taken from the
      right. Joining the parts gives `s` back; every part but the first is
      free of `sep`, and so is the first when fewer than `maxsplit` splits
      were made. */
  function RSplit(s: string, sep: char, maxsplit: nat): (parts: seq<string>)
    ensures 1 <= |parts| <= maxsplit + 1
    ensures forall i :: 1 <= i < |parts| ==> sep !in parts[i]
    ensures |parts| <= maxsplit ==> sep !in parts[0]
    ensures Join([sep], parts) == s
    decreases maxsplit
  {
    if maxsplit == 0 || sep !in s then [s]
    else
      var i := LastIndex(s, sep);
      var init := RSplit(s[..i], sep, maxsplit - 1);
      var parts := init + [s[i + 1..]];
      assert parts[..|parts| - 1] == init;
      assert s == s[..i] + [sep] + s[i + 1..];
      parts
  }

  /** The aggregator lookup key of a project URL:
      `"%2F".join(url.rsplit("/", 2)[1:])`. Without a `/` it is empty; with
      one `/` it is what follows the last `/`; with more it is the last two
      segments joined by `%2F`. */
  function RequestKey(url: string): (r: string)
    ensures '/' !in url ==> r == ""
    ensures '/' in url ==>
      var i := LastIndex(url, '/');
      if '/' in url[..i] then
        r == url[LastIndex(url[..i], '/') + 1..i] + "%2F" + url[i + 1..]
      else
        r == url[i + 1..]
  {
    Join("%2F", RSplit(url, '/', 2)[1..])
  }

  /** A URL without `/` gives the empty key. */
  lemma RequestKeyWithoutSlash(url: string)
    requires '/' !in url
    ensures RequestKey(url) == ""
  {
  }

  /** A URL with one `/` gives the segment after it. */
  lemma RequestKeyOneSlash(a: string, b: string)
    requires '/' !in a && '/' !in b
    ensures RequestKey(a + "/" + b) == b
  {
    LastIndexAt(a, '/', b);
    var s := a + "/" + b;
    assert s[..|a|] == a && s[|a| + 1..] == b;
  }

  /** A URL with at least two `/` gives its last two segments joined by the
      encoded separator `%2F`, whatever precedes them. */
  lemma RequestKeyOwnerName(prefix: string, owner: string, name: string)
    requires '/' !in owner && '/' !in name
    ensures RequestKey(prefix + "/" + owner + "/" + name) == owner + "%2F" + name
  {
    var front := prefix + "/" + owner;
    var url := front + "/" + name;
    LastIndexAt(front, '/', name);
    assert url[..|front|] == front && url[|front| + 1..] == name;
    LastIndexAt(prefix, '/', owner);
    assert url[|prefix| + 1..|front|] == owner;
  }

  // Proof helper, not a property of the tap: the example URLs written as
  // concatenations, so that the lemmas below can use `RequestKeyOwnerName`.
  lemma ExampleUrlSegments()
    ensures "https://github.com/meltano/sdk" == "https://github.com" + "/" + "meltano" + "/" + "sdk"
    ensures "https://github.com/meltano/sdk/" == "https://github.com/meltano" + "/" + "sdk" + "/" + ""
    ensures "meltano" + "%2F" + "sdk" == "meltano%2Fsdk"
    ensures "sdk" + "%2F" + "" == "sdk%2F"
  {
  }

  /** The documented example. */
  lemma RequestKeyExample()
    ensures RequestKey("https://github.com/meltano/sdk") == "meltano%2Fsdk"
  {
    ExampleUrlSegments();
    RequestKeyOwnerName("https://github.com", "meltano", "sdk");
  }

  /** A trailing `/` leaves an empty last segment. */
  lemma RequestKeyTrailingSlash()
    ensures RequestKey("https://github.com/meltano/sdk/") == "sdk%2F"
  {
    ExampleUrlSegments();
    RequestKeyOwnerName("https://github.com/meltano", "sdk", "");
  }

  // ---------------------------------------------------------------------
  // `openSSFScorecardStream.get_records`
  // ---------------------------------------------------------------------

  /** The configured URLs that produce a request, in the configured order:
      every entry except the empty strings. */
  function NonEmpty(urls: seq<string>): (r: seq<string>)
    ensures "" !in r
    ensures |r| <= |urls|
  {
    if urls == [] then []
    else
      var last := urls[|urls| - 1];
      NonEmpty(urls[..|urls| - 1]) + (if last == "" then [] else [last])
  }

  /** The filter keeps exactly the non-empty entries. */
  lemma {:induction false} NonEmptyKeeps(urls: seq<string>, u: string)
    ensures u in NonEmpty(urls) <==> u in urls && u != ""
  {
    if urls != [] {
      var init := urls[..|urls| - 1];
      NonEmptyKeeps(init, u);
      assert urls == init + [urls[|urls| - 1]];
    }
  }

  /** The filter keeps the configured order: it distributes over
      concatenation. */
  lemma {:induction false} NonEmptyAppend(a: seq<string>, b: seq<string>)
    ensures NonEmpty(a + b) == NonEmpty(a) + NonEmpty(b)
    decreases |b|
  {
    if b == [] {
      assert a + b == a;
    } else {
      var init, last := b[..|b| - 1], b[|b| - 1];
      var kept := if last == "" then [] else [last];
      assert (a + b)[..|a + b| - 1] == a + init;
      assert (a + b)[|a + b| - 1] == last;
      assert NonEmpty(a + b) == NonEmpty(a + init) + kept;
      assert NonEmpty(b) == NonEmpty(init) + kept;
      NonEmptyAppend(a, init);
    }
  }

  /** The contexts for `urls`, built in the order the URLs are visited:
      they correspond one to one, in order, to the non-empty URLs, and each
      carries its URL's lookup key. */
  function ContextsFor(urls: seq<string>): (r: seq<Context>)
    ensures |r| == |NonEmpty(urls)|
    ensures forall i :: 0 <= i < |r| ==> r[i] == Context(RequestKey(NonEmpty(urls)[i]))
  {
    if urls == [] then []
    else
      var init, last := urls[..|urls| - 1], urls[|urls| - 1];
      var ci := ContextsFor(init);
      var r := ci + (if last == "" then [] else [Context(RequestKey(last))]);
      assert forall i :: 0 <= i < |ci| ==> r[i] == ci[i] && NonEmpty(urls)[i] == NonEmpty(init)[i];
      r
  }

  /** `get_records` walks the configured URLs in order, skips the empty
      ones, and hands the framework one context per remaining URL. */
  method RequestContexts(config: Config) returns (contexts: seq<Context>)
    ensures contexts == ContextsFor(config.projectUrls)
    ensures |contexts| == |NonEmpty(config.projectUrls)|
    ensures forall i :: 0 <= i < |contexts| ==>
      contexts[i] == Context(RequestKey(NonEmpty(config.projectUrls)[i]))
  {
    var urls := config.projectUrls;
    contexts := [];
    var i := 0;
    while i < |urls|
      invariant 0 <= i <= |urls|
      invariant contexts == ContextsFor(urls[..i])
    {
      var repoUrl := urls[i];
      assert urls[..i + 1][..i] == urls[..i];
      if repoUrl == "" {
        i := i + 1;
        continue;
      }
      contexts := contexts + [Context(RequestKey(repoUrl))];
      i := i + 1;
    }
    assert urls[..i] == urls;
  }

  // ---------------------------------------------------------------------
  // `openSSFScorecardStream.get_scorecard_command`
  // ---------------------------------------------------------------------

  const ScannerImage: string := "gcr.io/openssf/scorecard:stable"

  /** The scanner's argument vector for `repoUrl`: the configured local
      executable when its path is non-empty, a `docker run` of the published
      image otherwise. Only the container variant carries the token. */
  function ScorecardCommand(config: Config, repoUrl: string): (r: Outcome<seq<string>>)
    ensures r.Raised? <==> config.localScorecardCliPath.None?
    ensures r.Raised? ==> r.error == KeyError("local_scorecard_cli_path")
    ensures r.Returned? ==>
      && |r.value| >= 4
      && r.value[|r.value| - 3..] == ["--show-details", "--format=json", "--repo=" + repoUrl]
    ensures r.Returned? && config.localScorecardCliPath.value != "" ==>
      |r.value| == 4 && r.value[0] == config.localScorecardCliPath.value
    ensures r.Returned? && config.localScorecardCliPath.value == "" ==>
      && |r.value| == 8
      && r.value[..3] == ["docker", "run", "-e"]
      && r.value[3] == "GITHUB_AUTH_TOKEN=" + config.authToken
      && r.value[4] == ScannerImage
  {
    match config.localScorecardCliPath
    case None => Raised(KeyError("local_scorecard_cli_path"))
    case Some(path) =>
      if path != "" then
        Returned([path, "--show-details", "--format=json", "--repo=" + repoUrl])
      else
        Returned([
          "docker",
          "run",
          "-e",
          "GITHUB_AUTH_TOKEN=" + config.authToken,
          ScannerImage,
          "--show-details",
          "--format=json",
          "--repo=" + repoUrl
        ])
  }

  /** The local executable's command line does not depend on the token. */
  lemma LocalCommandIgnoresToken(config: Config, repoUrl: string, token: string)
    requires config.localScorecardCliPath.Some? && config.localScorecardCliPath.value != ""
    ensures ScorecardCommand(config.(authToken := token), repoUrl) == ScorecardCommand(config, repoUrl)
  {
  }

  /** The repository URL affects only the last argument. */
  lemma CommandUrlOnlyInLast(config: Config, url1: string, url2: string)
    requires config.localScorecardCliPath.Some?
    ensures var c1, c2 := ScorecardCommand(config, url1).value, ScorecardCommand(config, url2).value;
      |c1| == |c2| && c1[..|c1| - 1] == c2[..|c2| - 1]
  {
  }
}
