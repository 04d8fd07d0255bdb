/**
 * The `DataSurgeon` object of src/main.rs: its switches, its line counter,
 * and the methods that change them or report through them: `handle`,
 * `handle_message`, `create_headers` and the option-reading part of
 * `build_arguments`. Standard output and the output file are two sequences
 * of lines that the methods append to.
 */
module Surgeon {
  import opened Strings
  import opened Plugins
  import opened Registry
  import opened Classify
  import opened Output

  /** The values `build_arguments` reads from the parsed command line. */
  datatype Options = Options(
    output: string,
    clean: bool,
    count: bool,
    thorough: bool,
    hide: bool,
    display: bool,
    ignore: bool,
    file: string,
    directory: string,
    drop: string,
    filter: string)

  /** Every drop or filter expression given compiles. */
  predicate Compiles(opts: Options, compiles: string -> bool)
  {
    (opts.drop == [] || compiles(opts.drop)) && (opts.filter == [] || compiles(opts.filter))
  }

  /** The expression the drop and filter regexes hold until the options set them. */
  const Placeholder: string := ".{10,}"

  class DataSurgeon {
    var plugins: seq<RegexPlugin>
    var outputFile: string
    var drop: string
    var filter: string
    /** The source text of the compiled filter expression (`filter_regex`). */
    var filterRegex: string
    /** The source text of the compiled drop expression (`drop_regex`). */
    var dropRegex: string
    var filename: string
    var directory: string
    var clean: bool
    var count: bool
    var isOutput: bool
    var thorough: bool
    var hideType: bool
    var display: bool
    var isCsv: bool
    var ignore: bool
    var lineCount: nat
    /** The lines printed to standard output. */
    var stdout: seq<string>
    /** The lines written to the output file. */
    var written: seq<string>

    /** `Default::default`: every switch off, every text empty, no line read yet. */
    constructor (loaded: seq<RegexPlugin>)
      ensures plugins == loaded
      ensures outputFile == [] && drop == [] && filter == [] && filename == [] && directory == []
      ensures !clean && !count && !isOutput && !thorough && !hideType && !display && !isCsv && !ignore
      ensures lineCount == 0 && stdout == [] && written == []
      ensures dropRegex == Placeholder && filterRegex == Placeholder
    {
      plugins := loaded;
      outputFile, filename, directory := [], [], [];
      clean := false;
      drop, filter := [], [];
      dropRegex, filterRegex := Placeholder, Placeholder;
      isOutput, ignore, thorough, hideType, display, isCsv, count := false, false, false, false, false, false, false;
      lineCount := 0;
      stdout, written := [], [];
    }

    /** The switches `handle` and `is_worthy` read; `isMatch` is `Regex::is_match` of a compiled expression. */
    function ScanSettings(isMatch: string -> string -> bool): Settings
      reads this`clean, this`thorough, this`drop, this`dropRegex, this`filter, this`filterRegex
    {
      Settings(clean, thorough, drop, isMatch(dropRegex), filter, isMatch(filterRegex))
    }

    /** The switches `handle_message` reads. */
    function Flags(): OutputFlags
      reads this`hideType, this`display, this`count, this`isCsv
    {
      OutputFlags(hideType, display, count, isCsv)
    }

    /** `handle_message`: one report, to the output file when one is set and to standard output otherwise. */
    method HandleMessage(data: string, ct: string)
      modifies this`stdout, this`written
      ensures var m := FormatMessage(Flags(), filename, lineCount, data, ct);
        if isOutput then written == old(written) + [m] && stdout == old(stdout)
        else stdout == old(stdout) + [m] && written == old(written)
    {
      var message := FormatMessage(Flags(), filename, lineCount, data, ct);
      if isOutput {
        written := written + [message];
      } else {
        stdout := stdout + [message];
      }
    }

    /** `create_headers`: the CSV header line, written to the output file. */
    method CreateHeaders()
      modifies this`written
      ensures written == old(written) + [HeaderLine(hideType, display, count)]
    {
      written := written + [HeaderLine(hideType, display, count)];
    }

    /**
     * `handle`: for a line read successfully, count it and make the reports
     * `LineEmissions` describes, in order, to the sink `handle_message`
     * picks; a read error changes nothing. `entries` is the iteration of
     * the working set `query` that `build_regex_query` built.
     */
    method Handle(line: Option<string>, entries: seq<(string, Pattern)>, ghost query: map<string, Pattern>,
                  isMatch: string -> string -> bool)
      requires Enumerates(entries, query)
      modifies this`lineCount, this`stdout, this`written
      ensures line.None? ==> lineCount == old(lineCount) && stdout == old(stdout) && written == old(written)
      ensures line.Some? ==> lineCount == old(lineCount) + 1
      ensures line.Some? ==>
        Sunk(old(stdout), old(written), Messages(Flags(), filename, lineCount, line.value, LineEmissions(ScanSettings(isMatch), line.value, entries)))
    {
      if line.None? {
        return;
      }
      lineCount := lineCount + 1;
      HandleEntries(line.value, entries, isMatch, ScanSettings(isMatch));
    }

    /**
     * `handle`'s outer loop over the working set, for a line already
     * counted: the reports `ScanEntries` specifies, in order, until the
     * early return.
     */
    method HandleEntries(text: string, entries: seq<(string, Pattern)>, isMatch: string -> string -> bool, ghost st: Settings)
      modifies this`stdout, this`written
      requires st == ScanSettings(isMatch)
      ensures Sunk(old(stdout), old(written), Messages(Flags(), filename, lineCount, text, ScanEntries(st, text, entries, Scan([], {}, false)).out))
    {
      ghost var goal := ScanEntries(st, text, entries, Scan([], {}, false));
      ghost var out: seq<Emission> := [];
      var captureSet: set<string> := {};
      var i := 0;
      while i < |entries|
        invariant 0 <= i <= |entries|
        invariant ScanEntries(st, text, entries[i..], Scan(out, captureSet, false)) == goal
        invariant Sunk(old(stdout), old(written), Messages(Flags(), filename, lineCount, text, out))
      {
        var (ct, regex) := entries[i];
        assert entries[i..] == [entries[i]] + entries[i + 1..];
        var stop;
        captureSet, stop, out := HandleMatches(text, ct, regex.find(text), entries[i + 1..], goal, captureSet, isMatch, st,
                                               out, old(stdout), old(written));
        if stop {
          return;
        }
        i := i + 1;
      }
      assert entries[i..] == [];
    }

    /**
     * `handle`'s inner loop over the matches `captures` of one pattern,
     * whose scan, followed by the scan of the patterns `rest`, reaches `goal`;
     * `stop` is the early return, after which the scan is complete.
     */
    method HandleMatches(text: string, ct: string, captures: seq<string>, ghost rest: seq<(string, Pattern)>, ghost goal: Scan,
                         captureSet: set<string>, isMatch: string -> string -> bool, ghost st: Settings,
                         ghost out: seq<Emission>, ghost stdout0: seq<string>, ghost written0: seq<string>)
      returns (seen: set<string>, stop: bool, ghost out': seq<Emission>)
      modifies this`stdout, this`written
      requires st == ScanSettings(isMatch)
      requires ScanEntries(st, text, rest, ScanMatches(st, text, ct, captures, Scan(out, captureSet, false))) == goal
      requires Sunk(stdout0, written0, Messages(Flags(), filename, lineCount, text, out))
      ensures stop ==> goal == Scan(out', seen, true)
      ensures !stop ==> ScanEntries(st, text, rest, Scan(out', seen, false)) == goal
      ensures Sunk(stdout0, written0, Messages(Flags(), filename, lineCount, text, out'))
    {
      seen, stop, out' := captureSet, false, out;
      var j := 0;
      while j < |captures|
        invariant 0 <= j <= |captures|
        invariant ScanEntries(st, text, rest, ScanMatches(st, text, ct, captures[j..], Scan(out', seen, false))) == goal
        invariant Sunk(stdout0, written0, Messages(Flags(), filename, lineCount, text, out'))
      {
        ghost var before := Scan(out', seen, false);
        seen, stop, out' := HandleMatch(text, ct, captures[j], seen, isMatch, st, out', stdout0, written0);
        if stop {
          StopAt(st, text, rest, ct, captures, j, before, Scan(out', seen, true), goal);
          return;
        }
        ContinueAfter(st, text, rest, ct, captures, j, before, Scan(out', seen, false), goal);
        j := j + 1;
      }
      assert captures[j..] == [];
    }

    /**
     * The body of `handle`'s inner loop for one match: report the line and
     * then the capture as `MatchStep` says; `stop` is the early return.
     */
    method HandleMatch(text: string, ct: string, capture: string, captureSet: set<string>, isMatch: string -> string -> bool,
                       ghost st: Settings, ghost out: seq<Emission>, ghost stdout0: seq<string>, ghost written0: seq<string>)
      returns (seen: set<string>, stop: bool, ghost out': seq<Emission>)
      modifies this`stdout, this`written
      requires st == ScanSettings(isMatch)
      requires Sunk(stdout0, written0, Messages(Flags(), filename, lineCount, text, out))
      ensures MatchStep(st, text, ct, capture, Scan(out, captureSet, false)) == Scan(out', seen, stop)
      ensures Sunk(stdout0, written0, Messages(Flags(), filename, lineCount, text, out'))
    {
      seen, stop, out' := captureSet, false, out;
      if !clean && IsWorthy(ScanSettings(isMatch), text) {
        Report(text, ct, text, WholeLine(ct), out', stdout0, written0);
        out' := out' + [WholeLine(ct)];
        if !thorough {
          stop := true;
          return;
        }
      }
      if IsWorthy(ScanSettings(isMatch), capture) && capture !in seen {
        seen := seen + {capture};
        Report(capture, ct, text, Capture(ct, capture), out', stdout0, written0);
        out' := out' + [Capture(ct, capture)];
        if !thorough {
          stop := true;
        }
      }
    }

    /** `handle_message` for the emission `e` of `line`, extending the reports already made for the line by one. */
    method Report(data: string, ct: string, ghost line: string, ghost e: Emission, ghost out: seq<Emission>,
                  ghost stdout0: seq<string>, ghost written0: seq<string>)
      modifies this`stdout, this`written
      requires (e == WholeLine(ct) && data == line) || e == Capture(ct, data)
      requires Sunk(stdout0, written0, Messages(Flags(), filename, lineCount, line, out))
      ensures Sunk(stdout0, written0, Messages(Flags(), filename, lineCount, line, out + [e]))
    {
      ghost var ms := Messages(Flags(), filename, lineCount, line, out);
      ghost var stdout1, written1 := stdout, written;
      HandleMessage(data, ct);
      AppendMessage(out, e, line);
      assert Message(Flags(), filename, lineCount, line, e) == FormatMessage(Flags(), filename, lineCount, data, ct);
      ChainReport(isOutput, stdout0, written0, stdout1, written1, stdout, written, ms,
                  FormatMessage(Flags(), filename, lineCount, data, ct));
    }

    /**
     * The option-reading part of `build_arguments`: copy the options into
     * the switches and compile the drop and filter expressions when given
     * (`ok` is false where `Regex::new(..).unwrap()` panics); then, for an
     * output file, test for `.csv`.
     */
    method BuildArguments(opts: Options, compiles: string -> bool)
      returns (ok: bool)
      modifies this`outputFile, this`isOutput, this`clean, this`count, this`thorough, this`hideType,
               this`display, this`ignore, this`filename, this`directory, this`drop, this`filter,
               this`dropRegex, this`filterRegex, this`isCsv, this`written
      ensures ok <==> Compiles(opts, compiles)
      ensures ok ==> OptionsRead(opts, old(dropRegex), old(filterRegex))
      ensures ok ==> isCsv == if isOutput then EndsWith(outputFile, ".csv") else old(isCsv)
      ensures ok ==> written == old(written) + if isOutput && isCsv then [HeaderLine(hideType, display, count)] else []
    {
      ok := ReadOptions(opts, compiles);
      if ok && isOutput {
        DetectCsv();
      }
    }

    /** The switches and texts hold the options, and a given drop or filter expression is the compiled one. */
    ghost predicate OptionsRead(opts: Options, dropRegex0: string, filterRegex0: string)
      reads this`outputFile, this`isOutput, this`clean, this`count, this`thorough, this`hideType,
            this`display, this`ignore, this`filename, this`directory, this`drop, this`filter,
            this`dropRegex, this`filterRegex
    {
      TextsRead(opts) && SwitchesRead(opts) &&
      dropRegex == (if opts.drop != [] then opts.drop else dropRegex0) &&
      filterRegex == (if opts.filter != [] then opts.filter else filterRegex0)
    }

    method ReadOptions(opts: Options, compiles: string -> bool) returns (ok: bool)
      modifies this`outputFile, this`isOutput, this`clean, this`count, this`thorough, this`hideType,
               this`display, this`ignore, this`filename, this`directory, this`drop, this`filter,
               this`dropRegex, this`filterRegex
      ensures ok <==> Compiles(opts, compiles)
      ensures ok ==> OptionsRead(opts, old(dropRegex), old(filterRegex))
    {
      ReadTexts(opts);
      ReadSwitches(opts);
      ok := CompileExpressions(compiles);
    }

    /**
     * Compile the drop and then the filter expression when set; `ok` is
     * false where `Regex::new(..).unwrap()` panics.
     */
    method CompileExpressions(compiles: string -> bool) returns (ok: bool)
      modifies this`dropRegex, this`filterRegex
      ensures ok <==> (drop == [] || compiles(drop)) && (filter == [] || compiles(filter))
      ensures ok ==> dropRegex == (if drop != [] then drop else old(dropRegex))
      ensures ok ==> filterRegex == (if filter != [] then filter else old(filterRegex))
      ensures drop != [] && !compiles(drop) ==> dropRegex == old(dropRegex) && filterRegex == old(filterRegex)
    {
      if drop != [] {
        if !compiles(drop) {
          return false;
        }
        dropRegex := drop;
      }
      if filter != [] {
        if !compiles(filter) {
          return false;
        }
        filterRegex := filter;
      }
      ok := true;
    }

    /** The output, file, directory, drop and filter texts hold the options. */
    ghost predicate TextsRead(opts: Options)
      reads this`outputFile, this`isOutput, this`filename, this`directory, this`drop, this`filter
    {
      outputFile == opts.output && isOutput == (opts.output != []) &&
      filename == opts.file && directory == opts.directory && drop == opts.drop && filter == opts.filter
    }

    /** The boolean switches hold the options. */
    ghost predicate SwitchesRead(opts: Options)
      reads this`clean, this`count, this`thorough, this`hideType, this`display, this`ignore
    {
      clean == opts.clean && count == opts.count && thorough == opts.thorough &&
      hideType == opts.hide && display == opts.display && ignore == opts.ignore
    }

    method ReadTexts(opts: Options)
      modifies this`outputFile, this`isOutput, this`filename, this`directory, this`drop, this`filter
      ensures TextsRead(opts)
    {
      outputFile := opts.output;
      isOutput := outputFile != [];
      filename, directory, drop, filter := opts.file, opts.directory, opts.drop, opts.filter;
    }

    method ReadSwitches(opts: Options)
      modifies this`clean, this`count, this`thorough, this`hideType, this`display, this`ignore
      ensures SwitchesRead(opts)
    {
      clean, count, thorough, hideType, display, ignore := opts.clean, opts.count, opts.thorough, opts.hide, opts.display, opts.ignore;
    }

    /**
     * The `.csv` test of `build_arguments` for an output file: split the
     * name at `.`; a single piece, or an empty last piece, is not CSV;
     * a last piece `csv` is, and the header is written then.
     */
    method DetectCsv()
      modifies this`isCsv, this`written
      ensures isCsv == EndsWith(outputFile, ".csv")
      ensures written == old(written) + if isCsv then [HeaderLine(hideType, display, count)] else []
    {
      CsvExtension(outputFile);
      var parts := Split(outputFile, '.');
      if |parts| == 1 {
        isCsv := false;
      } else {
        var extension := parts[|parts| - 1];
        if extension == [] {
          isCsv := false;
        } else if extension == "csv" {
          isCsv := true;
          CreateHeaders();
        } else {
          isCsv := false;
        }
      }
    }

    /** The reports `ms` were appended to the sink `handle_message` picks, and the other sink is unchanged. */
    ghost predicate Sunk(stdout0: seq<string>, written0: seq<string>, ms: seq<string>)
      reads this`isOutput, this`stdout, this`written
    {
      Appended(isOutput, stdout0, written0, ms, stdout, written)
    }

    lemma AppendMessage(out: seq<Emission>, e: Emission, text: string)
      ensures Messages(Flags(), filename, lineCount, text, out + [e]) ==
        Messages(Flags(), filename, lineCount, text, out) + [Message(Flags(), filename, lineCount, text, e)]
    {
      assert (out + [e])[..|out|] == out;
    }
  }

  /**
   * `ms` was appended to the output file (`toFile`) or to standard output,
   * taking them from `stdout0` and `written0` to `stdout` and `written`.
   */
  ghost predicate Appended(toFile: bool, stdout0: seq<string>, written0: seq<string>, ms: seq<string>,
                           stdout: seq<string>, written: seq<string>)
  {
    if toFile then written == written0 + ms && stdout == stdout0
    else stdout == stdout0 + ms && written == written0
  }

  lemma ChainReport(toFile: bool, stdout0: seq<string>, written0: seq<string>, stdout1: seq<string>, written1: seq<string>,
                    stdout2: seq<string>, written2: seq<string>, ms: seq<string>, m: string)
    requires Appended(toFile, stdout0, written0, ms, stdout1, written1)
    requires Appended(toFile, stdout1, written1, [m], stdout2, written2)
    ensures Appended(toFile, stdout0, written0, ms + [m], stdout2, written2)
  {
    assert stdout0 + ms + [m] == stdout0 + (ms + [m]);
    assert written0 + ms + [m] == written0 + (ms + [m]);
  }

  /** A step of the inner loop that does not return leaves the rest of the scan to reach the same end. */
  lemma ContinueAfter(st: Settings, line: string, rest: seq<(string, Pattern)>, ct: string,
                      captures: seq<string>, j: nat, before: Scan, after: Scan, goal: Scan)
    requires j < |captures| && MatchStep(st, line, ct, captures[j], before) == after
    requires ScanEntries(st, line, rest, ScanMatches(st, line, ct, captures[j..], before)) == goal
    ensures ScanEntries(st, line, rest, ScanMatches(st, line, ct, captures[j + 1..], after)) == goal
  {
    assert captures[j..][1..] == captures[j + 1..];
  }

  /** A step of the inner loop that returns has produced the whole scan. */
  lemma StopAt(st: Settings, line: string, rest: seq<(string, Pattern)>, ct: string,
               captures: seq<string>, j: nat, before: Scan, after: Scan, goal: Scan)
    requires j < |captures| && MatchStep(st, line, ct, captures[j], before) == after && after.stopped
    requires ScanEntries(st, line, rest, ScanMatches(st, line, ct, captures[j..], before)) == goal
    ensures goal == after
  {
    assert captures[j..][1..] == captures[j + 1..];
    ScanMatchesStopped(st, line, ct, captures[j + 1..], after);
    ScanEntriesStopped(st, line, rest, after);
  }
}
