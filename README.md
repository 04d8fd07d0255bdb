# DataSurgeon core, modelled in Dafny

DataSurgeon (`ds`) reads text line by line. It reports what its regular
expressions find in each line (e-mail addresses, URLs, hashes, keys, ...),
either on standard output or in an output file, optionally as CSV. Users
can extend the set of patterns with plugins: JSON records fetched from a
GitHub repository and kept in a local `plugins.json` store.

This project models the core of that program and proves properties of it:

- `Strings` — the Rust string operations the core relies on:
  - ASCII `to_lowercase`, `trim_end_matches`, `replace`, `split`;
  - left-aligned padding, decimal rendering and `, `-joining.
- `Utils` — `normalize_url`, the key that plugin removal compares
  locations by.
- `Plugins` — the plugin store:
  - the `RegexPlugin` record;
  - `find_plugin_file`;
  - `add_plugin_from_url`, with its download address and its stamping of
    provenance;
  - `remove_plugins_from_url`, as a downward loop over the store;
  - the table printed by `list_plugins`.
- `Registry` — `build_regex_query`, in its three stages:
  - the merge: built-in patterns come first, and compiling plugin patterns
    fill in content types not yet present;
  - the key filter: only content types whose switch is set and whose
    pattern text is non-empty are kept;
  - taking the kept patterns out of the merged map.
- `Provenance` — what `add_plugin_from_url` records as a bundle's
  provenance, and why removing with the repository address then misses
  the bundle.
- `Classify` — `is_worthy` and a specification of what `handle` reports for
  one line. It is a fold over the patterns and their matches, with:
  - the early return when `--thorough` is off;
  - the whole-line report unless `--clean`;
  - a per-line set of reported captures, shared by every content type.
- `Output` — the text of a report (`handle_message`, 8 CSV and 8 plain
  layouts), the CSV header (`create_headers`) and the `.csv` test on the
  output file name.
- `Surgeon` — the `DataSurgeon` object as a class:
  - its switches, its line counter and its two sinks (standard output and
    the output file);
  - `handle`, `handle_message` and `create_headers`;
  - the option-reading part of `build_arguments`.

  Each method is proved against the functions of `Classify` and `Output`.

Regular expressions are opaque throughout:
- a compiled pattern is its source text plus a function from a line to the
  texts of its whole matches;
- `Regex::new` succeeding is a predicate `compiles`;
- `Regex::is_match` is a function `isMatch`.

Network, file system and process exit are parameters or outcomes:
- a download is `fetch`;
- the existence of a path is `pathExists`;
- a successful write is `writeSucceeds`;
- `std::process::exit` is `Exited`.

## Model

| member | source | states |
|---|---|---|
| Utils.NormalizeUrl | src/utils/mod.rs:69-71 | a normalised URL never ends in `/` and is never longer than the URL it came from |
| Utils.NormalizeUrlNoUpper | src/utils/mod.rs:69-71 | a normalised URL holds no upper-case letter |
| Utils.NormalizeUrlFixedPoint | src/utils/mod.rs:69-71 | a lower-case text without trailing `/` and without `https://` or `http://` is its own normal form |
| Utils.NormalizeUrlIgnoresPreTrim | src/utils/mod.rs:69-71 | trimming trailing `/` first (as removal does) does not change the normal form |
| Utils.LowerTrimCommute | src/utils/mod.rs:70 | lowercasing and trimming `/` commute |
| Utils.NormalizeUrlDocExample | src/utils/mod.rs:64-67 | `HTTP://www.Example.com/` normalises to `www.example.com`, as documented |
| Utils.NormalizeUrlDropsHttps | src/utils/mod.rs:69-71 | `https://` + an already-normal host and path + `/` normalises to that host and path |
| Utils.NormalizeUrlHostInitial | src/utils/mod.rs:69-71 | behind `https://`, a host whose initial is lower case and not `h` keeps that initial as the first character of the normal form, whatever the path holds; one trailing `/` makes no difference |
| Utils.NormalizeUrlGithubExample | src/utils/mod.rs:69-71 | `https://github.com/x/y/` normalises to `github.com/x/y` |
| Utils.NormalizeUrlNotIdempotent | src/utils/mod.rs:69-71 | deletion is a single pass: `hthttps://tps://x` normalises to `https://x`, which normalises again to `x` |
| Plugins.FindPluginFile | src/plugins/mod.rs:112-120 | a path is returned exactly when the per-user path or the local `plugins.json` exists; the per-user path takes precedence; the returned path exists |
| Plugins.FetchUrl | src/plugins/mod.rs:196-198 | the download address is the input without trailing `/`, with `github.com` rewritten to `raw.githubusercontent.com`, followed by `/main/plugins.json` |
| Plugins.StampUrl | src/plugins/mod.rs:196-203 | the provenance is the rewritten input with the `/main/plugins.json` suffix stripped, so it never ends in that suffix |
| Plugins.Stamped | src/plugins/mod.rs:200-205 | every downloaded record gets the provenance and keeps its other four fields |
| Plugins.AddPluginFromUrl | src/plugins/mod.rs:194-253 | a failed download exits; a one-record bundle whose name is taken returns false without writing; otherwise the stamped bundle is appended to the store and written to the file `find_plugin_file` picks, or the process exits when it finds none or the write fails |
| Plugins.Keep | src/plugins/mod.rs:276-285 | removal never lengthens the store and leaves no record whose normalised provenance is the target |
| Plugins.RemovePluginsFromUrl | src/plugins/mod.rs:270-312 | with no record from the location: false and nothing written; otherwise the store minus exactly those records (`Keep`) is written to the file `find_plugin_file` picks and true returned, or the process exits |
| Plugins.RemoveStep | src/plugins/mod.rs:277-285 | one step of the downward walk: deleting index `i` or keeping it extends the result by what `Keep` says for that record |
| Plugins.KeepMembers | src/plugins/mod.rs:277-285 | a record survives removal iff it was in the store and its normalised provenance differs from the target |
| Plugins.MembersStep | src/plugins/mod.rs:277-285 | membership after removal, one record at a time: the first record survives iff its provenance differs, the rest as before |
| Plugins.KeepUnchanged | src/plugins/mod.rs:276-285 | removal leaves the store as it was iff no record came from the target (the `removed` flag) |
| Plugins.HasSourceCons | src/plugins/mod.rs:277-285 | a store has a record from the target iff its first record or its rest does |
| Plugins.SecondRemoveFindsNothing | src/plugins/mod.rs:270-312 | after a removal no record from the target remains, so a second removal changes nothing and returns false |
| Plugins.KeepConcat | src/plugins/mod.rs:277-285 | removal distributes over concatenation of stores |
| Plugins.KeepFront | src/plugins/mod.rs:277-285 | removal from a store and from the store followed by more records treat the first record alike |
| Plugins.KeepDropsStamped | src/plugins/mod.rs:201-204 | removing by the normal form of a bundle's provenance drops every record of the bundle |
| Plugins.KeepSparesStamped | src/plugins/mod.rs:201-204 | removing by a key the bundle's provenance does not normalise to keeps the whole bundle |
| Plugins.RemoveByStampUndoesAdd | src/plugins/mod.rs:199-229 | after an addition, removing by the recorded provenance leaves the same store as removing by it before the addition: every added record goes |
| Plugins.MaxLength | src/plugins/mod.rs:326-337 | the width is at least every length and equals the length of some entry (`max_by_key(len)`) |
| Plugins.ListPlugins | src/plugins/mod.rs:315-343 | an empty store prints only the notice naming the store path; otherwise the path line, a blank line, the header and one row per record in store order, each row aligned: fields at the start of their columns, ` \| ` at the same place, every row as wide as the two column widths and the separator |
| Plugins.HeaderWidth | src/plugins/mod.rs:339 | the header pads the titles `Source URL` and `Argument Long Name` to the widths but never below their own lengths, so it is as wide as the rows, with ` \| ` above theirs, exactly when the widths are at least 10 and 18 |
| Plugins.RowsAligned | src/plugins/mod.rs:326-342 | every record's row is aligned under the widths of the whole store |
| Plugins.WidthsAttained | src/plugins/mod.rs:326-337 | each column width is the length of some record's field |
| Plugins.FieldsFit | src/plugins/mod.rs:326-337 | every record's fields fit their column widths |
| Plugins.RowShape | src/plugins/mod.rs:339-341 | a row of fitting fields is exactly as wide as the two columns and the separator |
| Plugins.AddKeepsCollidingRecords | src/plugins/mod.rs:217-229 | as written: a bundle of two or more records whose first name is taken leaves that name twice in the store |
| Plugins.MergeSkippingKeepsNamesUnique | src/plugins/mod.rs:217-229 | corrected merge: the store stays a prefix, names stay unique, and every fetched name is present afterwards |
| Provenance.RemoveByAddUrlMisses | src/plugins/mod.rs:196-203 | as written: for any owner/repository path (any case, not naming `github.com`), removing with the address a bundle was added with removes none of its records |
| Provenance.RemoveByAddUrlMissesWinreg | src/main.rs:59 | the same for the repository the help text names, `https://github.com/Drew-Alleman/ds-winreg-plugin/` |
| Provenance.StampDiffersFromAddress | src/plugins/mod.rs:196-203 | the recorded provenance and the address the user gave have different normal forms |
| Provenance.RawStamp | src/plugins/mod.rs:196-203 | the provenance of `https://github.com/<path>/` is `https://raw.githubusercontent.com/<path>` |
| Provenance.NormalFormsDiffer | src/plugins/mod.rs:196-203 | the two normal forms start with the hosts' initials, `r` and `g` |
| Provenance.RemoveByAddUrlUndoesIntendedAdd | src/plugins/mod.rs:201-203 | corrected provenance: removing with the address a bundle was added with undoes the addition |
| Registry.AddPlugin | src/main.rs:308-314 | a compiling plugin adds its content type and nothing else; a pattern already present keeps its value; a newly added type gets the plugin's pattern |
| Registry.BuildRegexQuery | src/main.rs:289-331 | the result is the merge of built-ins and plugins, restricted to content types whose switch is set and whose pattern text is non-empty |
| Registry.MergeInto | src/main.rs:308-314 | the plugin loop yields the merge of built-ins and plugins in store order |
| Registry.KeysToKeep | src/main.rs:315-323 | the kept keys are exactly the content types whose switch is set and whose pattern text is non-empty |
| Registry.TakeKeys | src/main.rs:325-330 | the result holds exactly the kept keys, each with its pattern from the merged map |
| Registry.MergeKeepsPresent | src/main.rs:308-314 | no plugin replaces a pattern already present: built-ins and earlier plugins win |
| Registry.MergeKeys | src/main.rs:308-314 | a content type is in the merge iff it is built in or some plugin with a compiling regex declares it |
| Registry.FirstPluginWins | src/main.rs:308-314 | for a content type that is not built in, the first plugin that declares it with a compiling regex supplies the pattern |
| Registry.SelectedRestricts | src/main.rs:315-331 | a content type is in the working set iff it is merged, its switch is set and its pattern text is non-empty; its pattern is the merged one |
| Registry.AllFlagsKeepAll | src/main.rs:315-331 | with every switch set and no empty pattern text the working set is the whole merge |
| Registry.NoFlagsNoPatterns | src/main.rs:315-323 | with no content-type switch set, the working set is empty |
| Classify.IsWorthy | src/main.rs:390-404 | a text is worthy iff the drop expression is unset or does not match it, and the filter expression is unset or matches it |
| Classify.MatchStepExtends | src/main.rs:418-443 | one match after the return changes nothing; otherwise it keeps earlier reports and seen captures and adds at most the line and that capture, both under the pattern's content type |
| Classify.ScanMatchesExtends | src/main.rs:417-443 | the inner loop only appends, only when the pattern matched, under its content type, and a new capture is one of its matches |
| Classify.ScanEntriesSound | src/main.rs:416-445 | the outer loop only appends, and every new report comes from a pattern that matched the line |
| Classify.LineEmissionsSound | src/main.rs:413-451 | every report for a line is under the content type of a pattern that matched the line, and a reported capture is one of that pattern's matches |
| Classify.MatchStepGood | src/main.rs:418-443 | one match of the inner loop keeps the scan invariant |
| Classify.LineEmissionsGood | src/main.rs:413-451 | the invariant holds for the reports of a whole line |
| Classify.AtMostOneUnlessThorough | src/main.rs:419-440 | without `--thorough` a line produces at most one report |
| Classify.CapturesWorthyAndDistinct | src/main.rs:426-441 | every reported capture is worthy, and no capture text is reported twice for a line, across all content types |
| Classify.WholeLineOnlyIfNotCleanAndWorthy | src/main.rs:419-424 | the whole line is reported only without `--clean` and when the line is worthy |
| Classify.CountWholeConcat | src/main.rs:419-420 | whole-line reports add up over concatenation |
| Classify.WholeLinePerMatch | src/main.rs:417-424 | with `--thorough`, without `--clean`, on a worthy line: the whole line is reported once per match of every pattern |
| Classify.FirstReportEndsScan | src/main.rs:419-423 | without `--thorough`, on a worthy line and without `--clean`: the first match makes the only report and ends the scan |
| Classify.NonThoroughReportsLineOnce | src/main.rs:419-423 | in that case the line is reported once, under the first content type with a match, or not at all |
| Classify.FirstWorthyIn | src/main.rs:426-441 | the first worthy match of a pattern: none iff no match is worthy, otherwise a worthy match with no worthy match before it |
| Classify.FirstWorthyNone | src/main.rs:416-441 | nothing is found iff no pattern has a worthy match |
| Classify.FirstWorthyFound | src/main.rs:416-441 | what is found is the first worthy match of a pattern with no worthy match before it, under that pattern's content type |
| Classify.NonThoroughReportsFirstCapture | src/main.rs:431-441 | without `--thorough` and with the whole-line report off (`--clean`, or the line unworthy): the only report is the first worthy match in scan order, under its content type, and none when no match is worthy |
| Classify.ThoroughReportsEveryWorthyMatch | src/main.rs:426-441 | with `--thorough` every worthy match of every pattern is reported, under some content type |
| Classify.ScanMatchesStopped | src/main.rs:421-423 | after the early return nothing more is reported |
| Output.CsvRowFollowsColumns | src/main.rs:461-471 | a CSV report is its column values joined by `, `: content type unless hidden, file when displayed, line when counted, then the data |
| Output.HeaderFollowsColumns | src/main.rs:644-656 | the CSV header names those same columns in the same order |
| Output.PlainMessageParts | src/main.rs:472-482 | a plain report is: content type (with `: ` when nothing else is shown, `, ` otherwise) unless hidden, `file: <name> ` when displayed, the data, and `, line: <n>` when counted |
| Output.MessageEndsWithData | src/main.rs:460-483 | without line numbers every report ends with the reported data |
| Output.MessageStartsWithType | src/main.rs:460-483 | unless the type is hidden, every report starts with the content type |
| Output.CsvExtension | src/main.rs:545-563 | the split-and-compare test accepts a file name iff it ends in `.csv` |
| Output.Columns | src/main.rs:644-656 | the column list is non-empty and ends with the data column |
| Surgeon.DataSurgeon.constructor | src/main.rs:251-270 | every switch off, every text empty, both expressions hold the placeholder `.{10,}`, the line counter at 0 |
| Surgeon.DataSurgeon.HandleMessage | src/main.rs:460-490 | the formatted report is appended to the output file when one is set, and to standard output otherwise; the other sink is unchanged |
| Surgeon.DataSurgeon.Report | src/main.rs:419-437 | one `handle_message` call extends the chosen sink by the message of exactly one more report, of the line or of a capture |
| Surgeon.DataSurgeon.CreateHeaders | src/main.rs:644-656 | the header line is appended to the output file |
| Surgeon.DataSurgeon.Handle | src/main.rs:413-451 | for a sequence enumerating the working set: a read error changes nothing; a line read increments the counter and appends to the chosen sink the reports `LineEmissions` specifies, in order |
| Surgeon.DataSurgeon.HandleEntries | src/main.rs:416-445 | the outer loop appends the reports `ScanEntries` specifies for the whole working set, stopping at the early return |
| Surgeon.DataSurgeon.HandleMatches | src/main.rs:417-444 | the inner loop over one pattern's matches appends the reports `ScanMatches` specifies and says whether `handle` returned |
| Surgeon.DataSurgeon.HandleMatch | src/main.rs:419-441 | one inner-loop iteration does what `MatchStep` specifies, and the reports made so far match it |
| Surgeon.DataSurgeon.BuildArguments | src/main.rs:527-563 | succeeds iff every drop/filter expression given compiles; then the switches and texts hold the options, a given expression replaces the placeholder, and for an output file `isCsv` holds iff the name ends in `.csv`, in which case the header is written |
| Surgeon.DataSurgeon.ReadOptions | src/main.rs:527-544 | the switches and texts are copied from the options and the expressions are compiled |
| Surgeon.DataSurgeon.CompileExpressions | src/main.rs:539-544 | success iff each expression given compiles; the drop expression is compiled first, so when it fails the filter expression is left as it was |
| Surgeon.DataSurgeon.DetectCsv | src/main.rs:545-563 | `isCsv` holds iff the output file name ends in `.csv`, and only then is the header written |

## Left out

- Command dispatch in `build_arguments` is not modelled: `--list`, `--add`, `--remove` and `--update` each call the store operation and then exit. The store operations themselves are modelled.
- `load_plugins` (reading and parsing `plugins.json`) is not modelled; the loaded store is an input.
- `get_plugins_from_url` is not modelled; the fetch is a parameter.
- `get_plugin_path` is not modelled; the per-user path is an input.
- `update_plugin_from_url` and `update_all_plugins` are not part of this model.
- `yn_prompt` and `handle_error_and_exit` are interactive or exit-only and are left out.
- `display_time`, `iterate_file`, `iterate_stdin` and `iterate_files` are not modelled. They are I/O drivers that call `handle` once per line. `iterate_files` (src/main.rs:605-640) also resets the line counter to 0 and sets the file name before each file it walks (src/main.rs:611-612); the model takes the counter and the file name as they stand when `handle` is called.
- `write_to_file` is modelled as appending to the `written` sequence. Failure to open the output file, which prints and exits, is not modelled. Nor is a failed `writeln!` (src/main.rs:362-379): `PermissionDenied` and `WriteZero` print and exit, any other error prints and continues without the line; the model always appends.
- Regular-expression semantics and the text of the fourteen built-in patterns are not modelled. Patterns are opaque (`find`, `isMatch`, `compiles`).
- Iteration order of Rust's `HashMap` is not modelled: `handle` receives the working set as a sequence of (content type, pattern) pairs that enumerates it in any order.
- Plugins.MaxLength: measures lengths in characters, while `String::len` counts UTF-8 bytes, so `UrlWidth`, `NameWidth` and the padding in `Row` and `Header` agree with the source only for ASCII fields; a field with multi-byte characters gets a different width.
- Classify.ThoroughReportsEveryWorthyMatch: says the capture text is reported under some content type, not necessarily its own. The capture set is shared across content types, so a text found by two patterns is reported only once.
- Surgeon.DataSurgeon.Handle: the line counter is a `nat`, so the `i32` overflow of `line_count` after 2^31 - 1 lines is not modelled.
- Surgeon.DataSurgeon.BuildArguments: a `Regex::new(..).unwrap()` panic is the result `ok == false`, about which nothing more is stated.
- Strings.ToLower: lowercases ASCII letters only; Unicode case mapping is not modelled.
- The documentation of `normalize_url` speaks of removing `http://` and `https://` prefixes. The code deletes every occurrence anywhere, in one pass per pattern, and this model follows the code (`Utils.NormalizeUrlNotIdempotent`).
- Empty lines are not skipped by `handle`; the model follows the code.

## Findings

| source | as written | input that shows it | evidently intended | confidence | as-written member | corrected member |
|---|---|---|---|---|---|---|
| src/plugins/mod.rs:217-229 | the duplicate check only returns for one-record bundles; `continue` skips to the next stored record, and the whole bundle is appended afterwards | a store holding a record named `a`, then adding a bundle of two records, the first named `a` | a duplicate is skipped, as the printed message says, so names stay unique | high, not executed | Plugins.AddKeepsCollidingRecords | Plugins.MergeSkippingKeepsNamesUnique |
| src/plugins/mod.rs:197-203 | the provenance is taken from the rewritten raw-content address (`raw.githubusercontent.com/...`) | add `https://github.com/Drew-Alleman/ds-winreg-plugin/` (the help text's example), then remove the same address: the normal forms `raw.githubusercontent.com/drew-alleman/ds-winreg-plugin` and `github.com/drew-alleman/ds-winreg-plugin` differ, so nothing is removed | the provenance is the address the user gave, so removal by that address undoes the addition | medium, not executed | Provenance.RemoveByAddUrlMisses | Provenance.RemoveByAddUrlUndoesIntendedAdd |
