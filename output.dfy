/**
 * The text of one report and of the CSV header, from `handle_message` and
 * `create_headers` in src/main.rs, and the `.csv` test on the output file
 * name from `build_arguments`.
 */
module Output {
  import opened Strings
  import opened Classify

  /** The switches that shape a report: hide type (`-X`), display file (`-D`), line number (`-l`), CSV output. */
  datatype OutputFlags = OutputFlags(hideType: bool, display: bool, count: bool, isCsv: bool)

  /**
   * `handle_message`'s text for `data` of content type `ct`, found on line
   * `lineCount` of `filename`: eight CSV and eight plain layouts.
   */
  function FormatMessage(f: OutputFlags, filename: string, lineCount: nat, data: string, ct: string): string
  {
    var n := NatToString(lineCount);
    if f.isCsv then
      match (f.hideType, f.display, f.count)
      case (true, true, true) => filename + ", " + n + ", " + data
      case (true, true, false) => filename + ", " + data
      case (true, false, true) => n + ", " + data
      case (true, false, false) => data
      case (false, true, true) => ct + ", " + filename + ", " + n + ", " + data
      case (false, true, false) => ct + ", " + filename + ", " + data
      case (false, false, true) => ct + ", " + n + ", " + data
      case (false, false, false) => ct + ", " + data
    else
      match (f.hideType, f.display, f.count)
      case (true, true, true) => "file: " + filename + " " + data + ", line: " + n
      case (true, true, false) => "file: " + filename + " " + data
      case (true, false, true) => data + ", line: " + n
      case (true, false, false) => data
      case (false, true, true) => ct + ", file: " + filename + " " + data + ", line: " + n
      case (false, true, false) => ct + ", file: " + filename + " " + data
      case (false, false, true) => ct + ", " + data + ", line: " + n
      case (false, false, false) => ct + ": " + data
  }

  /** `create_headers`: the first line of a CSV output file. */
  function HeaderLine(hideType: bool, display: bool, count: bool): string
  {
    match (hideType, display, count)
    case (true, true, true) => "file, line, data"
    case (true, true, false) => "file, data"
    case (true, false, true) => "line, data"
    case (true, false, false) => "data"
    case (false, true, true) => "content_type, file, line, data"
    case (false, true, false) => "content_type, file, data"
    case (false, false, true) => "content_type, line, data"
    case (false, false, false) => "content_type, data"
  }

  // ------------------------------------------------------------ the column reference

  /** A CSV column. */
  datatype Column = TypeColumn | FileColumn | LineColumn | DataColumn

  /** The columns in order: the content type unless hidden, the file when displayed, the line number when counted, then the data. */
  function Columns(hideType: bool, display: bool, count: bool): (cs: seq<Column>)
    ensures |cs| >= 1 && cs[|cs| - 1] == DataColumn
  {
    (if hideType then [] else [TypeColumn]) +
    (if display then [FileColumn] else []) +
    (if count then [LineColumn] else []) +
    [DataColumn]
  }

  function ColumnName(c: Column): string
  {
    match c
    case TypeColumn => "content_type"
    case FileColumn => "file"
    case LineColumn => "line"
    case DataColumn => "data"
  }

  function ColumnValue(c: Column, filename: string, lineCount: nat, data: string, ct: string): string
  {
    match c
    case TypeColumn => ct
    case FileColumn => filename
    case LineColumn => NatToString(lineCount)
    case DataColumn => data
  }

  function Names(cs: seq<Column>): (r: seq<string>)
    ensures |r| == |cs|
  {
    seq(|cs|, i requires 0 <= i < |cs| => ColumnName(cs[i]))
  }

  function Values(cs: seq<Column>, filename: string, lineCount: nat, data: string, ct: string): (r: seq<string>)
    ensures |r| == |cs|
  {
    seq(|cs|, i requires 0 <= i < |cs| => ColumnValue(cs[i], filename, lineCount, data, ct))
  }

  lemma JoinComma2(a: string, b: string)
    ensures JoinComma([a, b]) == a + ", " + b
  {
    assert [a, b][1..] == [b];
  }

  lemma JoinComma3(a: string, b: string, c: string)
    ensures JoinComma([a, b, c]) == a + ", " + b + ", " + c
  {
    assert [a, b, c][1..] == [b, c];
    JoinComma2(b, c);
  }

  lemma JoinComma4(a: string, b: string, c: string, d: string)
    ensures JoinComma([a, b, c, d]) == a + ", " + b + ", " + c + ", " + d
  {
    assert [a, b, c, d][1..] == [b, c, d];
    JoinComma3(b, c, d);
  }

  /** A CSV report is its columns' values joined by `, `, in the column order. */
  lemma CsvRowFollowsColumns(f: OutputFlags, filename: string, lineCount: nat, data: string, ct: string)
    requires f.isCsv
    ensures FormatMessage(f, filename, lineCount, data, ct) ==
      JoinComma(Values(Columns(f.hideType, f.display, f.count), filename, lineCount, data, ct))
  {
    var n := NatToString(lineCount);
    var cs := Columns(f.hideType, f.display, f.count);
    var vs := Values(cs, filename, lineCount, data, ct);
    match (f.hideType, f.display, f.count)
    case (true, true, true) =>
      assert cs == [FileColumn, LineColumn, DataColumn];
      assert vs == [filename, n, data];
      JoinComma3(filename, n, data);
    case (true, true, false) =>
      assert cs == [FileColumn, DataColumn];
      assert vs == [filename, data];
      JoinComma2(filename, data);
    case (true, false, true) =>
      assert cs == [LineColumn, DataColumn];
      assert vs == [n, data];
      JoinComma2(n, data);
    case (true, false, false) =>
      assert cs == [DataColumn];
      assert vs == [data];
    case (false, true, true) =>
      assert cs == [TypeColumn, FileColumn, LineColumn, DataColumn];
      assert vs == [ct, filename, n, data];
      JoinComma4(ct, filename, n, data);
    case (false, true, false) =>
      assert cs == [TypeColumn, FileColumn, DataColumn];
      assert vs == [ct, filename, data];
      JoinComma3(ct, filename, data);
    case (false, false, true) =>
      assert cs == [TypeColumn, LineColumn, DataColumn];
      assert vs == [ct, n, data];
      JoinComma3(ct, n, data);
    case (false, false, false) =>
      assert cs == [TypeColumn, DataColumn];
      assert vs == [ct, data];
      JoinComma2(ct, data);
  }

  /** The header names the same columns, in the same order, as every CSV report under the same switches. */
  lemma HeaderFollowsColumns(hideType: bool, display: bool, count: bool)
    ensures HeaderLine(hideType, display, count) == JoinComma(Names(Columns(hideType, display, count)))
  {
    if hideType {
      HeaderWithoutType(display, count);
    } else if display {
      HeaderWithTypeAndFile(count);
    } else {
      HeaderWithTypeOnly(count);
    }
  }

  lemma HeaderWithoutType(display: bool, count: bool)
    ensures HeaderLine(true, display, count) == JoinComma(Names(Columns(true, display, count)))
  {
    var cs := Columns(true, display, count);
    var fl, l, d := FileColumn, LineColumn, DataColumn;
    match (display, count)
    case (true, true) => assert cs == [fl, l, d]; HeaderOf3(fl, l, d, "file, line, data");
    case (true, false) => assert cs == [fl, d]; HeaderOf2(fl, d, "file, data");
    case (false, true) => assert cs == [l, d]; HeaderOf2(l, d, "line, data");
    case (false, false) => assert cs == [d]; assert Names(cs) == [ColumnName(d)];
  }

  lemma HeaderWithTypeAndFile(count: bool)
    ensures HeaderLine(false, true, count) == JoinComma(Names(Columns(false, true, count)))
  {
    var cs := Columns(false, true, count);
    var t, fl, l, d := TypeColumn, FileColumn, LineColumn, DataColumn;
    if count {
      assert cs == [t, fl, l, d];
      HeaderOf4(t, fl, l, d, "content_type, file, line, data");
    } else {
      assert cs == [t, fl, d];
      HeaderOf3(t, fl, d, "content_type, file, data");
    }
  }

  lemma HeaderWithTypeOnly(count: bool)
    ensures HeaderLine(false, false, count) == JoinComma(Names(Columns(false, false, count)))
  {
    var cs := Columns(false, false, count);
    var t, l, d := TypeColumn, LineColumn, DataColumn;
    if count {
      assert cs == [t, l, d];
      HeaderOf3(t, l, d, "content_type, line, data");
    } else {
      assert cs == [t, d];
      HeaderOf2(t, d, "content_type, data");
    }
  }

  lemma HeaderOf2(a: Column, b: Column, h: string)
    requires h == ColumnName(a) + ", " + ColumnName(b)
    ensures JoinComma(Names([a, b])) == h
  {
    assert Names([a, b]) == [ColumnName(a), ColumnName(b)];
    JoinComma2(ColumnName(a), ColumnName(b));
  }

  lemma HeaderOf3(a: Column, b: Column, c: Column, h: string)
    requires h == ColumnName(a) + ", " + ColumnName(b) + ", " + ColumnName(c)
    ensures JoinComma(Names([a, b, c])) == h
  {
    assert Names([a, b, c]) == [ColumnName(a), ColumnName(b), ColumnName(c)];
    JoinComma3(ColumnName(a), ColumnName(b), ColumnName(c));
  }

  lemma HeaderOf4(a: Column, b: Column, c: Column, d: Column, h: string)
    requires h == ColumnName(a) + ", " + ColumnName(b) + ", " + ColumnName(c) + ", " + ColumnName(d)
    ensures JoinComma(Names([a, b, c, d])) == h
  {
    assert Names([a, b, c, d]) == [ColumnName(a), ColumnName(b), ColumnName(c), ColumnName(d)];
    JoinComma4(ColumnName(a), ColumnName(b), ColumnName(c), ColumnName(d));
  }

  // ------------------------------------------------------------ the plain layout

  /**
   * A plain report is built from independent parts: the content type
   * (followed by `: ` when nothing else is shown, by `, ` otherwise) unless
   * hidden, `file: <name> ` when the file is displayed, the data, and
   * `, line: <n>` when line numbers are counted.
   */
  lemma PlainMessageParts(f: OutputFlags, filename: string, lineCount: nat, data: string, ct: string)
    requires !f.isCsv
    ensures FormatMessage(f, filename, lineCount, data, ct) ==
      (if f.hideType then [] else ct + (if !f.display && !f.count then ": " else ", ")) +
      PlainTail(f.display, f.count, filename, NatToString(lineCount), data)
  {
    var n := NatToString(lineCount);
    if f.hideType {
      PlainHidden(f.display, f.count, filename, n, data);
    } else if f.display {
      PlainShownWithFile(f.count, filename, n, data, ct);
    } else {
      PlainShownWithoutFile(f.count, n, data, ct);
    }
  }

  /** What follows the content type in a plain report: `file: <name> ` when displayed, the data, `, line: <n>` when counted. */
  function PlainTail(display: bool, count: bool, filename: string, n: string, data: string): string
  {
    (if display then "file: " + filename + " " else []) + data + (if count then ", line: " + n else [])
  }

  lemma PlainHidden(display: bool, count: bool, filename: string, n: string, data: string)
    ensures forall lineCount: nat, ct: string :: NatToString(lineCount) == n ==>
      FormatMessage(OutputFlags(true, display, count, false), filename, lineCount, data, ct) ==
      PlainTail(display, count, filename, n, data)
  {
  }

  lemma PlainShownWithFile(count: bool, filename: string, n: string, data: string, ct: string)
    ensures forall lineCount: nat :: NatToString(lineCount) == n ==>
      FormatMessage(OutputFlags(false, true, count, false), filename, lineCount, data, ct) ==
      ct + ", " + PlainTail(true, count, filename, n, data)
  {
  }

  lemma PlainShownWithoutFile(count: bool, n: string, data: string, ct: string)
    ensures forall lineCount: nat, filename: string :: NatToString(lineCount) == n ==>
      FormatMessage(OutputFlags(false, false, count, false), filename, lineCount, data, ct) ==
      ct + (if !count then ": " else ", ") + PlainTail(false, count, filename, n, data)
  {
  }

  /** Without line numbers every report, plain or CSV, ends with the reported data. */
  lemma MessageEndsWithData(f: OutputFlags, filename: string, lineCount: nat, data: string, ct: string)
    requires !f.count
    ensures EndsWith(FormatMessage(f, filename, lineCount, data, ct), data)
  {
    var r := FormatMessage(f, filename, lineCount, data, ct);
    var pre := r[..|r| - |data|];
    assert r == pre + data;
  }

  /** Unless the type is hidden, every report starts with the content type. */
  lemma MessageStartsWithType(f: OutputFlags, filename: string, lineCount: nat, data: string, ct: string)
    requires !f.hideType
    ensures var r := FormatMessage(f, filename, lineCount, data, ct); |ct| <= |r| && r[..|ct|] == ct
  {
  }

  // ------------------------------------------------------------ reports of a line

  /** The text reported for one emission of `handle` on `line`. */
  function Message(f: OutputFlags, filename: string, lineCount: nat, line: string, e: Emission): string
  {
    FormatMessage(f, filename, lineCount, if e.WholeLine? then line else e.text, e.contentType)
  }

  /** The reports for a sequence of emissions, in order. */
  function Messages(f: OutputFlags, filename: string, lineCount: nat, line: string, out: seq<Emission>): (r: seq<string>)
    ensures |r| == |out|
    decreases |out|
  {
    if out == [] then []
    else Messages(f, filename, lineCount, line, out[..|out| - 1]) + [Message(f, filename, lineCount, line, out[|out| - 1])]
  }

  // ------------------------------------------------------------ CSV detection

  /**
   * The output file is CSV exactly when its name ends in `.csv`: a name
   * without `.` is one piece and is not CSV, and otherwise the piece after
   * the last `.` must be `csv`.
   */
  lemma CsvExtension(path: string)
    ensures var parts := Split(path, '.');
      (|parts| != 1 && parts[|parts| - 1] != [] && parts[|parts| - 1] == "csv") <==> EndsWith(path, ".csv")
  {
    var parts := Split(path, '.');
    SplitShape(path, '.');
    var last := LastPiece(path, '.');
    if EndsWith(path, ".csv") {
      var a := path[..|path| - 4];
      assert path[|path| - 4..] == ".csv";
      assert path == path[..|path| - 4] + path[|path| - 4..];
      assert path == a + ['.'] + "csv";
      LastPieceAfter(a, '.', "csv");
      assert '.' in path by { assert path[|path| - 4] == '.'; }
    }
    if |parts| != 1 && last == "csv" {
      assert EndsWith(path, ['.'] + last);
    }
  }
}
