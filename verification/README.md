# tap-openssf-scorecard: the record normaliser and the request set-up, in Dafny

This project models the two pieces of logic in the OpenSSF Scorecard Singer tap.

The first is the scorecard record normaliser, `ScorecardStream.post_process` with
`ScorecardStream.normalize`. It takes one raw scorecard result and reshapes it in place:
- it lifts `repo.name` and `repo.commit` to the top-level `repo_name` and `repo_commit` and removes `repo`;
- it rescales the overall score from 0-10 (one decimal) to 0-100 with `int(score * 10)`;
- it gives up (returns `None`) when `checks` is `None`;
- otherwise it rebuilds the list of checks into a dictionary keyed by the canonical check name;
- each check body loses `documentation` and `name`, and its score is rescaled the same way.

The second is the per-repository set-up in the stream base class:
- `get_records` walks the configured `project_urls` in order, skips empty strings, and derives
  each aggregator lookup key with `"%2F".join(url.rsplit("/", 2)[1:])`;
- `get_scorecard_command` builds the scanner's argument vector, either for a local executable
  or for a `docker run` of the published image.

Layout:
- `values.dfy` (module `Values`) holds the JSON values, Python exceptions as values
  (`Outcome`), truncation toward zero and the score conversion.
- `streams.dfy` (module `Streams`) holds check-name canonicalisation, one check entry, the loop
  over the checks, the record normaliser as a specification function (`PostProcessed`), and the
  in-place method `PostProcess` on a `Row` object proved against it.
- `client.dfy` (module `Client`) holds `rsplit`/`join`, the lookup key, the method
  `RequestContexts` (the loop of `get_records`) and `ScorecardCommand`.

Modelling choices:
- Python exceptions are results, not preconditions. A row without `repo` raises `KeyError('repo')`.
  So do a missing `name`, `commit`, `score` or `checks`; a `repo` that is not a dictionary raises
  `TypeError`; a non-string check name raises `AttributeError`.
- `post_process` mutates the caller's dictionary. The model keeps that: the changes made before an
  exception, or before the `None` return for null checks, stay in the row.
- Configuration values are parameters (`Client.Config`). A configuration without
  `local_scorecard_cli_path` makes `get_scorecard_command` raise `KeyError`. That is what the code
  does with the configuration in `tests/test_core.py`, which does not set that key.
- The configuration schema in `tap_openssf_scorecard/tap.py` declares `use_local_scorecard_cli`,
  but the command builder reads `local_scorecard_cli_path`. The model follows the code.

## Model

| member | source | states |
|---|---|---|
| `Values.Trunc` | tap_openssf_scorecard/streams.py:73 | Python `int()` on a float rounds toward zero: the result is the unique integer within distance 1 of the input on the zero side |
| `Values.Rescale` | tap_openssf_scorecard/streams.py:72-73 | `int(v * 10)` succeeds exactly on numbers and booleans; a score in [0, 10] becomes an integer in [0, 100] and lies within 1 of ten times the input; a string gives `ValueError`; None, lists and dictionaries give `TypeError` |
| `Values.RescaleOneDecimal` | tap_openssf_scorecard/streams.py:10-11 | a one-decimal score k/10 becomes exactly the integer k, so the 10x conversion loses nothing |
| `Streams.LowerChar` | tap_openssf_scorecard/streams.py:66 | lower-casing one character leaves no upper-case letter and keeps every other character |
| `Streams.LowerAscii` | tap_openssf_scorecard/streams.py:66 | `lower()` keeps the length and lower-cases every position |
| `Streams.ReplaceChar` | tap_openssf_scorecard/streams.py:66 | `replace("-", "_")` keeps the length, rewrites every `-` and keeps every other character |
| `Streams.Normalize` | tap_openssf_scorecard/streams.py:65-66 | a normalised name has the input's length, no `-` and no upper-case letter; each position is the lower-cased input character, with `-` turned into `_` |
| `Streams.NormalizeFixesExactlyCanonical` | tap_openssf_scorecard/streams.py:65-66 | normalisation leaves a name unchanged if and only if it is already canonical |
| `Streams.NormalizeIdempotent` | tap_openssf_scorecard/streams.py:65-66 | normalising twice is the same as normalising once |
| `Streams.LowerConcat` | tap_openssf_scorecard/streams.py:66 | lower-casing distributes over concatenation |
| `Streams.ReplaceConcat` | tap_openssf_scorecard/streams.py:66 | character replacement distributes over concatenation |
| `Streams.NormalizeConcat` | tap_openssf_scorecard/streams.py:65-66 | normalisation works character by character: it distributes over concatenation |
| `Streams.NormalizeBinaryArtifacts` | tap_openssf_scorecard/streams.py:42 | the check name `Binary-Artifacts` becomes the declared key `binary_artifacts` |
| `Streams.NormalizeSast` | tap_openssf_scorecard/streams.py:55 | the check name `SAST` becomes the declared key `sast` |
| `Streams.CheckEntry` | tap_openssf_scorecard/streams.py:82-84 | one check entry succeeds exactly when it is a dictionary with a rescalable `score` and a string `name`; its key is the normalised name; its body has the entry's keys minus `documentation` and `name`, every kept value unchanged except `score`, which is rescaled |
| `Streams.Items` | tap_openssf_scorecard/streams.py:81 | iterating `checks` yields a list's elements; a successful iteration of anything else yields nothing |
| `Streams.Checks` | tap_openssf_scorecard/streams.py:81-85 | the loop over the checks, when it completes, yields a map whose every key is canonical and whose every body is a dictionary without `documentation` and `name` holding an integer `score` |
| `Streams.ChecksSucceedIffWellFormed` | tap_openssf_scorecard/streams.py:81-85 | the loop over the checks completes if and only if every entry is well formed |
| `Streams.ChecksRaiseFirstFailure` | tap_openssf_scorecard/streams.py:81-85 | a failing loop raises the exception of the first failing entry, and every earlier entry is well formed |
| `Streams.ChecksPrefixFailure` | tap_openssf_scorecard/streams.py:81-85 | once a prefix of the entries fails, the whole loop fails with the same exception |
| `Streams.ChecksKeys` | tap_openssf_scorecard/streams.py:84 | every entry's normalised name is a key of the rebuilt checks map |
| `Streams.ChecksLastWins` | tap_openssf_scorecard/streams.py:84 | every key of the rebuilt map comes from an entry, and its body is that of the last entry with that normalised name |
| `Streams.PostProcessed` | tap_openssf_scorecard/streams.py:68-86 | after post_process, `repo` is never in the row; every top-level field other than `repo`, `repo_name`, `repo_commit`, `score` and `checks` is present and unchanged exactly as before |
| `Streams.MissingRepoRaises` | tap_openssf_scorecard/streams.py:69 | a row without `repo` raises `KeyError('repo')` and is left as it was |
| `Streams.RepoLifted` | tap_openssf_scorecard/streams.py:69-71 | `repo_name` and `repo_commit` are the nested repository's `name` and `commit`, and `repo` is removed, even if a later step fails |
| `Streams.ScoreRescaled` | tap_openssf_scorecard/streams.py:72-73 | the overall score becomes the rescaled integer; a score in [0, 10] gives a value in [0, 100] |
| `Streams.NullChecksYieldNoRecord` | tap_openssf_scorecard/streams.py:77-79 | post_process returns `None` if and only if the row is liftable and `checks` is `None`; `checks` then stays `None` |
| `Streams.RecordIffWellFormed` | tap_openssf_scorecard/streams.py:68-86 | post_process returns the record if and only if the row is well formed |
| `Streams.RecordShape` | tap_openssf_scorecard/streams.py:68-86 | a record has the row's keys with `repo` replaced by `repo_name` and `repo_commit`, and its `checks` is the map built from the entries |
| `Streams.ChecksKeptUnlessRecord` | tap_openssf_scorecard/streams.py:74-85 | when no record is returned, `checks` is left as it was |
| `Streams.PostProcess` | tap_openssf_scorecard/streams.py:68-86 | the in-place method leaves the row's fields and returns the value or exception that `PostProcessed` specifies; a record is the same row object |
| `Client.LastIndex` | tap_openssf_scorecard/client.py:32 | the separator found is at the returned position and never occurs after it |
| `Client.LastIndexAt` | tap_openssf_scorecard/client.py:32 | in `a + [c] + b` with no `c` in `b`, the last `c` is at position `|a|` |
| `Client.Join` | tap_openssf_scorecard/client.py:32 | joining a single part yields that part |
| `Client.RSplit` | tap_openssf_scorecard/client.py:32 | `rsplit(sep, n)` gives 1 to n+1 parts; joining them with the separator gives the input back; no part after the first contains the separator, and neither does the first when fewer than n splits were made |
| `Client.RequestKey` | tap_openssf_scorecard/client.py:32 | the lookup key is empty for a URL without `/`; the text after the last `/` for a URL with one `/`; otherwise the text between the last two `/`, then `%2F`, then the text after the last `/`. The three lemmas below restate these cases over concatenated segments, which together cover every URL |
| `Client.RequestKeyWithoutSlash` | tap_openssf_scorecard/client.py:32 | a URL without `/` gives the empty key |
| `Client.RequestKeyOneSlash` | tap_openssf_scorecard/client.py:32 | a URL with exactly one `/` gives the segment after it |
| `Client.RequestKeyOwnerName` | tap_openssf_scorecard/client.py:32 | a URL ending in `/owner/name` gives `owner%2Fname`, whatever comes before |
| `Client.RequestKeyExample` | tap_openssf_scorecard/client.py:32 | `https://github.com/meltano/sdk` gives `meltano%2Fsdk` |
| `Client.RequestKeyTrailingSlash` | tap_openssf_scorecard/client.py:32 | a trailing `/` gives an empty last segment: `.../meltano/sdk/` gives `sdk%2F` |
| `Client.NonEmpty` | tap_openssf_scorecard/client.py:27-30 | the URLs that produce a request contain no empty string and are no more than those configured |
| `Client.NonEmptyKeeps` | tap_openssf_scorecard/client.py:29-30 | a URL produces a request if and only if it is configured and non-empty |
| `Client.NonEmptyAppend` | tap_openssf_scorecard/client.py:27-30 | skipping empty URLs distributes over concatenation, so the configured order is kept |
| `Client.ContextsFor` | tap_openssf_scorecard/client.py:27-33 | the contexts built by visiting the URLs in order correspond one to one, in order, to the non-empty URLs, and each carries its URL's lookup key |
| `Client.RequestContexts` | tap_openssf_scorecard/client.py:27-33 | the loop of get_records hands the framework exactly one context per non-empty URL, in configured order, each carrying that URL's lookup key |
| `Client.ScorecardCommand` | tap_openssf_scorecard/client.py:35-64 | a configuration without the path key raises `KeyError`; a non-empty path gives 4 arguments starting with the path; otherwise 8 arguments starting `docker run -e GITHUB_AUTH_TOKEN=<token> gcr.io/openssf/scorecard:stable`; both end with `--show-details --format=json --repo=<url>` |
| `Client.LocalCommandIgnoresToken` | tap_openssf_scorecard/client.py:46-52 | the local executable's command does not depend on the auth token |
| `Client.CommandUrlOnlyInLast` | tap_openssf_scorecard/client.py:46-63 | the repository URL affects only the last argument |

## Left out

- Logging (`tap_openssf_scorecard/client.py:28`, `tap_openssf_scorecard/streams.py:78`) has no effect on the data and is not modelled.
- `super().get_records(context)` (`tap_openssf_scorecard/client.py:33`) does the HTTP request, pagination and record emission in the Singer SDK. `RequestContexts` returns the contexts it would be given instead of the records.
- Running the scanner command, as a subprocess or a container, is not modelled. Neither is any network access. Nothing in the code modelled here calls `get_scorecard_command`.
- The JSON-schema declarations (`tap_openssf_scorecard/streams.py:9-63`) and the tap's configuration schema and entry point (`tap_openssf_scorecard/tap.py`) are declarative framework wiring. They are not modelled.
- The unused `context` argument of `get_records` is not modelled.
- The `assert row is not None` at `tap_openssf_scorecard/streams.py:76` cannot fail, because `row` has already been used. It is not modelled.
- Floating-point scores are exact reals. IEEE-754 rounding of `score * 10` is not modelled; a product that rounds to just below an integer would truncate one lower in Python.
- Values.Rescale: a score given as a string raises `ValueError` in the model. Python repeats the string ten times, and `int` accepts the result when it happens to be a numeral (a score `"5"` gives 5555555555).
- Streams.CheckEntry: a non-empty list as a check entry raises `TypeError` in the model. Python raises `TypeError`, `IndexError` or `KeyError('score')` depending on its elements; every case is an exception and the row is left in the same state.
- Streams.Items: a non-empty dictionary as `checks` raises `TypeError` in the model. Python raises `KeyError('score')` instead when its first key is the empty string.
- Streams.LowerAscii: only the ASCII letters are lower-cased. Python's `str.lower()` also maps other Unicode letters, some to more than one character.
- Dictionaries are maps, so the insertion order of keys in the row and in the rebuilt checks is not modelled.
- Client.Config: a null or false `local_scorecard_cli_path` is written as the empty path. Both are falsy and select the container variant.
