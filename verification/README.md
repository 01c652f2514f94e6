# flaker: the parser-comparison core, modelled in Dafny

flaker runs two builds of the Nix parser (`nix-instantiate --parse` with
`--log-format internal-json`) over every `.nix` file of a corpus and reports
how they disagree. This project models the pure part of that comparison, from
src/diffing.rs:

- the message normaliser (`simplify_msg`);
- the structured-stderr reader (`split_stderr`, `dedup_log`);
- the per-severity symmetric difference (`Diff::<CompLog>::from`);
- the per-file comparison (the comparison block of `diff_file`, and `diff_stderr`);
- the merge rules (`ParserDiff::merge`, `Diff::merge`, `merge_complog!`);
- the fold-and-project into the corpus result (`DiffResult::from`, `propagate_msg`).

It also models these smaller pure parts:

- the verbosity keyword parser (src/reporting.rs);
- the source-set keyword parser and the paging loop of the GitHub code search (src/indexing.rs);
- the `--sources` list selection (src/main.rs);
- the `ErrorGroup` accumulator (src/errors.rs).

Outside help becomes parameters. JSON decoding is a partial function
`json: Bytes -> Option<LogEntry>`. UTF-8 decoding is a partial function
`utf8: Bytes -> Option<string>`. A captured process run is a plain
`ProcessOutput` record: an `ExitStatus` that either `Exited(code)` or was
`Signalled(raw)`, plus the stdout and stderr bytes. Search responses are an
abstract `Response` datatype. Rust's `HashMap`/`HashSet` are Dafny maps and
sets. A panic (`todo!()`, `unwrap()`) is a `Failure` value marked by
`IsPanic()`. An error raised with `?` is a `Failure` without that mark.

Modules, one file each:

- `Common` (common.dfy): `Option`, `Result`, bytes, and `Split`/`Join`, which split like `str::split`. Their round-trip lemmas live here too.
- `Normalizer` (normalizer.dfy): the regex `--extra-deprecated-features (?<feature_name>[\w-]+)\b`. `Matches` gives it a declarative meaning. `FindMatch`/`Simplify` compute it.
- `LogParser` (logparser.dfy): line classification, the level buckets, `dedup_log` and `split_stderr`.
- `Diffing` (diffing.dfy): `Diff::from`, the merge, `diff_stderr`, `diff_file`, and how the per-file outcomes are collected.
- `DiffResults` (diffresult.dfy): `propagate_msg`, written both as a reference map and as the two loops the source runs; the fold; and the corpus-level properties.
- `Indexing`, `Cli`, `Reporting`, `Errors`: the secondary cores.

### Behaviour of the code worth knowing

- `pass_eq` is present exactly when *not both* parsers succeeded, so it is
  also present when both failed (src/diffing.rs:263, 273).
- A panic while reading a stderr is a `todo!()` or an `unwrap()` (the
  `get(5..).unwrap()` at src/diffing.rs:64) inside the comparison future,
  which `diff_parsers` polls itself. It aborts the whole run, not just the file. Only `?`
  errors drop a single file (src/diffing.rs:370). `Diffing.Collect` models
  exactly this.
- Merging log facets is `HashMap::extend`, so for a message present in both,
  the incoming file's positions *replace* the earlier ones. Merging is
  therefore not commutative. The corpus result keeps, per message and side,
  only the positions of the last file that reports it, and that depends on
  the order in which files finish. `DiffResults.FromDiffsSides` states the
  rule and `DiffResults.LaterFileOverwrites` exhibits the order dependence.
- `then_some` evaluates its argument eagerly. Both stdouts therefore go
  through `String::from_utf8(..)?` even when they are equal, so an
  undecodable stdout always drops the file (src/diffing.rs:281-284).

## Model

| member | source | states |
|---|---|---|
| Normalizer.MatchEndIsGreedy | src/diffing.rs:27-29 | the computed end of a match at position i exists exactly when the pattern matches there, it is a match, and no match starting at i ends later (greedy `[\w-]+` followed by `\b`) |
| Normalizer.SimplifyMeaning | src/diffing.rs:31-37 | a message with no match comes back unchanged; otherwise the result is `"Deprecated Feature: "` followed by the name captured by the leftmost match |
| Normalizer.CapturedName | src/diffing.rs:27-29 | the captured feature name is non-empty, consists of `[\w-]` characters and ends in a word character (a trailing `-` is not captured) |
| Normalizer.FirstMarkerNamesFeature | src/diffing.rs:27-37 | a message whose first marker is followed by a name and then a non-name character normalises to exactly `"Deprecated Feature: " + name` |
| Normalizer.SimplifyIdempotent | src/diffing.rs:31-37 | normalising twice gives the same message as normalising once |
| LogParser.ScanLinesMeaning | src/diffing.rs:59-80 | reading the lines fails exactly when some line is fatal, and then with the first fatal line's failure; otherwise the records read are exactly the records some line decodes to |
| LogParser.ScanLinesAppend | src/diffing.rs:60-80 | reading a concatenation of lines reads the first part, then the second, stopping at the first failure |
| LogParser.SkippedLineIsDropped | src/diffing.rs:72-78 | a line without a 4-byte prefix, or one whose JSON does not decode, is dropped without affecting the lines around it |
| LogParser.TaggedLine | src/diffing.rs:62-74 | `@nix <payload>`, with the payload empty or starting on a character boundary, yields the decoded record when its action is `msg`, is skipped when the payload does not decode, and fails naming any other action |
| LogParser.TaggedLineMidCharacter | src/diffing.rs:61-64 | `@nix` followed at once by a multi-byte character fails on the missing payload, since byte 5 lies inside that character |
| LogParser.UntaggedLine | src/diffing.rs:61-78 | a line with a 4-byte prefix other than `@nix` fails, a prefix that ends inside a character is ignored, and a bare `@nix` fails on its missing payload |
| LogParser.Select | src/diffing.rs:81-89 | a severity's bucket holds exactly the records whose level maps to it (0 errors, 1 warnings, everything else traces) |
| LogParser.Dedup | src/diffing.rs:39-52 | the keys are exactly the records' normalised `raw_msg`-or-`msg` keys, a position is listed for a key exactly when some record with that key has it as `file` (or as the path, failing that), and no key has an empty position set |
| LogParser.DedupOrderIrrelevant | src/diffing.rs:39-52 | two record lists with the same members give the same log, so the order inside a bucket does not matter |
| LogParser.SplitStderrMeaning | src/diffing.rs:54-95 | splitting fails exactly when some line is fatal; otherwise each severity's log is well formed and reports m at p exactly when some line holds a record of that severity with key m and position p |
| LogParser.EmptyStderr | src/diffing.rs:54-95 | an empty stderr gives three empty logs |
| LogParser.SingleErrorRecord | src/diffing.rs:54-95 | one level-0 record line from `pkg.nix` gives an error log with that message at `pkg.nix` and empty warning and trace logs |
| Diffing.DiffLogs | src/diffing.rs:130-163 | p is in side A at m exactly when p is in A[m] and m is absent from B or p is not in B[m] (and symmetrically for side B); each side is contained in its input and keeps non-empty position sets |
| Diffing.DiffLogsSelf | src/diffing.rs:130-163 | comparing a log with itself leaves both sides empty |
| Diffing.DiffLogsEmptyIff | src/diffing.rs:130-163 | for logs without empty position sets, both sides are empty exactly when the logs are equal |
| Diffing.MergeLogs | src/diffing.rs:165-168 | each side's keys are the union of both inputs' keys, and a message present in the incoming diff takes the incoming positions |
| Diffing.Merge | src/diffing.rs:170-207 | pass and exit are first-wins; stdout becomes the `"Multiple given"` pair when both are present and otherwise keeps the present one; a log facet adopts the other when one is absent and merges key-wise with the incoming side winning when both are present |
| Diffing.MergeIdentity | src/diffing.rs:180-207 | the default all-`None` record is a left and right identity of the merge |
| Diffing.MergeAssociative | src/diffing.rs:180-207 | the merge is associative, so how the fold is grouped does not matter |
| Diffing.DiffStderrMeaning | src/diffing.rs:210-233 | equal stderrs give no log diffs; otherwise a failure of the first, then the second, reader is passed on; and a severity's diff is present exactly when `Diff::from` of its two logs is non-empty, and then equals it |
| Diffing.DiffFileMeaning | src/diffing.rs:262-292 | no diff exactly for equal outputs; an error exactly when a stderr or stdout does not decode or a stderr cannot be read; pass present iff not both succeeded, exit iff statuses differ, stdout iff stdouts differ, each with both sides' values; the log facets are `diff_stderr`'s |
| Diffing.ExitDiffWithoutCodes | src/diffing.rs:262-280 | two different signal terminations give an exit diff of two absent codes and a pass diff of two failures |
| Diffing.IgnoredStderrNoise | src/diffing.rs:262-291 | outputs that differ only by an ignored empty stderr line give a diff record with every facet absent, not "no diff" |
| Diffing.Collect | src/diffing.rs:363-372 | the run aborts exactly when some comparison panicked; otherwise exactly the present diffs are kept and errors and equal files are dropped |
| Diffing.CollectAppend | src/diffing.rs:363-372 | collecting a concatenation aborts when either part aborts, and otherwise keeps the first part's diffs followed by the second part's, so the kept diffs stay in completion order |
| Diffing.CollectSingle | src/diffing.rs:363-372 | one outcome keeps its diff when present, keeps nothing for equal files or a dropped error, and aborts on a panic |
| Diffing.DiffStderrWellFormed | src/diffing.rs:210-233 | every log diff of a successful stderr comparison has no empty position set on either side |
| DiffResults.PropagateMsg | src/diffing.rs:315-329 | an absent facet gives an empty map; otherwise the keys are those of either side, and each side carries that side's positions, or none |
| DiffResults.FromDiffsFromNoDiff | src/diffing.rs:303-313 | reducing from the first diff equals folding from the empty record, so no input and the default result agree |
| DiffResults.FoldMergeAppend | src/diffing.rs:307-313 | folding a concatenation folds the first part and then continues with the second |
| DiffResults.FoldFirstWins | src/diffing.rs:182-193 | the folded pass and exit facets are absent exactly when every file's are, and otherwise come from the first file that has one |
| DiffResults.FoldStdout | src/diffing.rs:195-202 | the folded stdout is absent when no file has one, that file's when exactly one has, and the `"Multiple given"` sentinel when two or more have |
| DiffResults.FromDiffsKeys | src/diffing.rs:303-336 | no diffs give the empty result; otherwise a message appears in a severity exactly when some file's diff reports it on some side |
| DiffResults.FromDiffsSides | src/diffing.rs:303-336 | each side of a message holds the positions of the last file reporting it on that side, and is empty when no file does |
| DiffResults.NoEmptyEntries | src/diffing.rs:303-336 | when every per-file log is free of empty position sets, no message of the result is empty on both sides |
| DiffResults.DiffFileLogsWellFormed | src/diffing.rs:262-291 | every diff the per-file comparison produces has no empty position set in any log facet |
| DiffResults.CollectedWellFormed | src/diffing.rs:363-372 | every diff kept from a run over a corpus has no empty position set in any log facet |
| DiffResults.CorpusNoEmptyEntries | src/diffing.rs:303-372 | in the result over the diffs a run keeps, no message is empty on both sides |
| DiffResults.LaterFileOverwrites | src/diffing.rs:165-168 | the same message from two files keeps only the later file's position, so swapping the files changes the result |
| Indexing.ParseSourceSet | src/indexing.rs:86-96 | exactly `nixpkgs`, `nur` and `github` parse, each to its set; every other string, compared case-sensitively, is an error |
| Indexing.TruncDiv | src/indexing.rs:259 | integer division truncates toward zero |
| Indexing.RewriteUrlMeaning | src/indexing.rs:267-271 | `https://api.github.com/repos/<rest>` becomes `https://github.com/<rest>`, and a URL without the API prefix is unchanged |
| Indexing.Step | src/indexing.rs:212-277 | a round gives up exactly on a 60-second rate limit on page 1; the page moves on only after a non-empty result page; the loop stops after an empty page, the 422 "beyond 1000 results" error or an unclassified error; the events are the rewritten URLs in order, or the error; the page count is set once |
| Indexing.SearchMeaning | src/indexing.rs:212-278 | a search used a prefix of the responses and advanced once per non-empty result page among them; it gave up with the invalid-token error exactly when its last response is a 60-second rate limit on page 1, having sent the events of every earlier response; otherwise it sent exactly the used responses' events in order, stopped exactly at the first stopping response, and used every response when it did not stop |
| Indexing.GivesUpOnlyOnFirstPage | src/indexing.rs:225-233 | from the first page, a search gives up only before any result page moved it on, and it returns the invalid-token error exactly when it gives up |
| Indexing.HttpErrorThenInvalidToken | src/indexing.rs:224-248 | an HTTP error other than the 422 limit, then a 60-second rate limit on page 1, sends the failure event and then gives up with the invalid-token error |
| Indexing.ExpectedPagesFromFirstResult | src/indexing.rs:258-260 | the expected page count is the first result page's total count divided by 100, and later pages do not change it |
| Indexing.InvalidTokenAtStart | src/indexing.rs:225-233 | a 60-second rate limit on the first page ends the search with the invalid-token error after one request and before sending anything |
| Indexing.RateLimitRetries | src/indexing.rs:225-236 | any other rate limit retries the same page and sends nothing |
| Cli.SelectSources | src/main.rs:75-83 | a `*` anywhere selects every set; otherwise the selection succeeds exactly when every comma-separated token is a keyword, holds exactly the sets named, and the error quotes the whole argument |
| Cli.SelectListed | src/main.rs:78-81 | a comma-joined list of keywords selects exactly the listed sets, with duplicates collapsed |
| Cli.EmptyListRejected | src/main.rs:78-82 | an empty argument is rejected |
| Cli.TrailingCommaRejected | src/main.rs:78-82 | a trailing comma leaves an empty token, and the argument is rejected |
| Cli.SpacedListRejected | src/main.rs:78-82 | a space after a comma stays in the token, and the argument is rejected |
| Cli.StarSelectsAll | src/main.rs:75-76 | a `*` selects everything, even next to an invalid keyword |
| Reporting.ParseVerbosity | src/reporting.rs:16-29 | `summary`/`0` give Summary, `detailed`/`1` give Detailed, `auto`/empty give Auto, and every other string is an error |
| Reporting.ParseKeyword | src/reporting.rs:19-25 | each verbosity's keyword parses back to it |
| Errors.Add | src/errors.rs:28-30 | appends exactly one error at the end, keeping the message and the earlier errors, so the group has content |
| Errors.AddErrorTo | src/errors.rs:36-41 | the target group gains this group as one more error exactly when this group has content, and is otherwise unchanged |
| Errors.ToResult | src/errors.rs:43-56 | the result is the group itself as an error exactly when it has errors, and `Ok(())` otherwise |
| Errors.FromMessage | src/errors.rs:58-71 | a group built from a message has that message, no errors, and converts to `Ok(())` |
| Errors.AddResultErrorTo | src/errors.rs:73-87 | `Ok(t)` passes through with the group unchanged; `Err(e)` appends `e` and returns the group as the error |
| Errors.CollectIntoMeaning | src/errors.rs:77-87 | passing a list of results through the group appends exactly their failures in order, so the group ends up an error exactly when it had content or some result failed |

## Left out

- Spawning the two parsers (src/diffing.rs:242-258): process creation, `kill_on_drop` and `futures::join!` are process I/O. The model starts from the two captured outputs, and a failed spawn (`result_a?`) is not modelled.
- `diff_parsers`' directory walk (src/diffing.rs:344-361), including the symlink policy and the `expect` on non-UTF-8 file names. This is filesystem I/O.
- `buffer_unordered(10)`: the files finish in an arbitrary order. The model takes the outcomes as an arbitrary sequence, and the order-dependent rules are stated for every order.
- serde_json decoding and UTF-8 validation: these are the `json` and `utf8` parameters. The model does not describe them.
- Normalizer.IsWordChar: `\w` is taken as ASCII letters, digits and `_`. The regex crate's Unicode `\w` is wider.
- Regex engine internals: only the behaviour of the one fixed pattern is modelled.
- `HashMap` iteration order: maps and sets have none. The loops of `PropagateMsg` visit keys in an arbitrary order, which does not affect the result.
- `tracing` logging everywhere: it has no effect on results.
- `report` (src/reporting.rs:31-41): it only logs paths.
- The resolution of `Auto` verbosity: the source does not implement it.
- `ErrorGroup`'s `Display` formatting (src/errors.rs:12-25): width-padded text that delegates to foreign `fmt`.
- The blanket `AddError` impl (src/errors.rs:89-102): it is `Errors.Add` returning the group.
- src/errors.rs is not declared as a module in src/main.rs, so nothing calls it. It is modelled as written.
- Network and persistence in src/indexing.rs: the octorust client, `sleep`, npins, `build_index`, the `fetch_*` functions and the channel. A failed `sender.send(..)?` is not modelled; the model takes every send as succeeding.
- Indexing.Step: the rate-limit wait is not modelled beyond retrying the same page.
- Indexing.Search: takes a finite list of responses. It does not model a server that never stops answering.
- Indexing.TruncDiv: `total_count / 100` on a negative count is modelled as truncation, but the count is never negative in practice.
- `main` (src/main.rs:84) calls `build_index` with two arguments although it takes three. Only the selection of sources is modelled.
- clap argument parsing: only the `--sources` string's interpretation is modelled.
- The `i32` exit code is an unbounded integer. It is only compared for equality and against 0, so no wrap-around can arise. The `i16` level is the bounded `LogParser.Int16`.
- `dedup_log` unwraps `file.to_str()` (src/diffing.rs:42), which panics on a path that is not valid UTF-8. The model takes the input path as valid UTF-8, so that panic is not modelled.
