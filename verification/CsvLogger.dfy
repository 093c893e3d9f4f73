/** The two writers of the benchmark log: the Rust Logger (benchmarks/usb-bench-rs/src/csv.rs)
    and the C functions (benchmarks/usb-bench-c/src/csv.c). Both append the same bytes. */
module CsvLogger {
  import opened UsbBase
  import opened CsvText
  import opened DecimalText
  import opened CsvLog

  /** A file opened for appending; its bytes as characters. */
  class LogFile {
    var contents: string

    constructor ()
      ensures contents == ""
    {
      contents := "";
    }

    method Append(s: string)
      modifies this
      ensures contents == old(contents) + s
    {
      contents := contents + s;
    }
  }

  // ----- Rust -----

  /** The logger's BufWriter: text not yet flushed to the file. */
  class Logger {
    const file: LogFile
    var buffered: string

    /** Logger::open: the header is buffered, not yet written. */
    constructor (file: LogFile)
      ensures this.file == file
      ensures buffered == if file.contents == "" then Line(Columns()) else ""
    {
      this.file := file;
      var needsHeader := file.contents == "";
      buffered := if needsHeader then Line(Columns()) else "";
    }

    method Flush()
      modifies this, file
      ensures buffered == "" && file.contents == old(file.contents) + old(buffered)
    {
      file.Append(buffered);
      buffered := "";
    }

    method Write(e: Entry)
      modifies this, file
      ensures buffered == "" && file.contents == old(file.contents) + old(buffered) + RowText(e)
    {
      buffered := buffered + RowText(e);
      Flush();
      AppendAssociative(old(file.contents), old(buffered), RowText(e));
    }
  }

  lemma OneMoreRow(start: string, entries: seq<Entry>, k: nat)
    requires k < |entries|
    ensures start + RowTexts(entries[..k]) + RowText(entries[k]) == start + RowTexts(entries[..k + 1])
  {
    assert entries[..k + 1][..k] == entries[..k];
    AppendAssociative(start, RowTexts(entries[..k]), RowText(entries[k]));
  }

  method WriteRows(logger: Logger, entries: seq<Entry>)
    modifies logger, logger.file
    ensures logger.file.contents + logger.buffered
         == old(logger.file.contents) + old(logger.buffered) + RowTexts(entries)
  {
    ghost var start := logger.file.contents + logger.buffered;
    var k := 0;
    while k < |entries|
      invariant 0 <= k <= |entries|
      invariant logger.file.contents + logger.buffered == start + RowTexts(entries[..k])
    {
      logger.Write(entries[k]);
      OneMoreRow(start, entries, k);
      k := k + 1;
    }
    assert entries[..k] == entries;
  }

  /** One session: open, write each row, drop (which flushes). */
  method RunSession(file: LogFile, entries: seq<Entry>)
    modifies file
    ensures file.contents == AfterSession(Columns(), old(file.contents), entries)
  {
    var logger := new Logger(file);
    WriteRows(logger, entries);
    logger.Flush();
  }

  /** Session after session on a new file: the whole log, which LogReadsBack reads back. */
  method RunSessions(sessions: seq<seq<Entry>>) returns (file: LogFile)
    ensures fresh(file) && file.contents == LogText(Columns(), sessions)
    ensures sessions != [] ==> ReadLog(Columns(), file.contents) == Some(WrittenOf(Concat(sessions)))
  {
    file := new LogFile();
    var k := 0;
    while k < |sessions|
      invariant 0 <= k <= |sessions| && fresh(file)
      invariant file.contents == LogText(Columns(), sessions[..k])
    {
      RunSession(file, sessions[k]);
      assert sessions[..k + 1][..k] == sessions[..k];
      k := k + 1;
    }
    assert sessions[..k] == sessions;
    if sessions != [] {
      LogReadsBack(sessions);
    }
  }

  // ----- C -----

  /** A C string: memory that holds a terminating NUL. */
  type CString = s: seq<char> | '\0' in s witness ['\0']

  /** The characters before the first NUL. */
  function CText(s: seq<char>): (r: string)
    requires '\0' in s
    ensures |r| < |s| && r == s[..|r|] && s[|r|] == '\0' && '\0' !in r
  {
    if s[0] == '\0' then "" else [s[0]] + CText(s[1..])
  }

  /** field_needs_quote. */
  method FieldNeedsQuote(s: CString) returns (r: bool)
    ensures r == NeedsQuote(CText(s))
  {
    ghost var text := CText(s);
    var i := 0;
    while s[i] != '\0'
      invariant 0 <= i <= |text| && !NeedsQuote(text[..i])
      decreases |text| - i
    {
      assert s[i] == text[i];
      if s[i] == ',' || s[i] == '"' || s[i] == '\n' || s[i] == '\r' {
        return true;
      }
      i := i + 1;
    }
    assert text[..i] == text;
    return false;
  }

  /** The loop of write_field: character by character, quotes doubled. */
  method WriteDoubled(f: LogFile, s: CString)
    modifies f
    ensures f.contents == old(f.contents) + DoubleQuotes(CText(s))
  {
    ghost var text := CText(s);
    ghost var start := f.contents;
    var i := 0;
    while s[i] != '\0'
      invariant 0 <= i <= |text|
      invariant f.contents == start + DoubleQuotes(text[..i])
      decreases |text| - i
    {
      assert s[i] == text[i];
      assert text[..i + 1][..i] == text[..i];
      AppendAssociative(start, DoubleQuotes(text[..i]), DoubleQuote(s[i]));
      ghost var before := f.contents;
      if s[i] == '"' {
        f.Append("\"");
      }
      f.Append([s[i]]);
      assert f.contents == before + DoubleQuote(s[i]);
      i := i + 1;
    }
    assert text[..i] == text;
  }

  /** write_field: NULL writes nothing. */
  method WriteField(f: LogFile, field: Option<CString>)
    modifies f
    ensures f.contents == old(f.contents) + CsvEscape(CTextOf(field))
  {
    match field {
      case None =>
        assert CsvEscape("") == "";
      case Some(s) =>
        var quote := FieldNeedsQuote(s);
        if !quote {
          f.Append(CText(s));
        } else {
          ghost var start, doubled := f.contents, DoubleQuotes(CText(s));
          f.Append("\"");
          WriteDoubled(f, s);
          f.Append("\"");
          assert ((start + "\"") + doubled) + "\"" == start + ("\"" + doubled + "\"");
        }
    }
  }

  function CTextOf(s: Option<CString>): string {
    match s
    case None => ""
    case Some(v) => CText(v)
  }

  datatype CRow = CRow(
    condition: Option<CString>, workload: Option<CString>, iteration: nat, bytes: nat, durationNs: nat,
    userCpuUs: nat, sysCpuUs: nat, rssPeakKb: nat, guestMemBytes: Option<nat>,
    checksumHex: Option<CString>, totalRuntimeNs: Option<nat>, notes: Option<CString>)

  /** The row a Rust logger would be given for the same values. */
  function AsEntry(timestamp: CString, row: CRow): Entry {
    Entry(CText(timestamp),
          Row(CTextOf(row.condition), CTextOf(row.workload), row.iteration, row.bytes, row.durationNs,
              row.userCpuUs, row.sysCpuUs, row.rssPeakKb, row.guestMemBytes,
              Some(CTextOf(row.checksumHex)), row.totalRuntimeNs, Some(CTextOf(row.notes))))
  }

  predicate WrittenUpTo(contents: string, start: string, cells: seq<string>, k: nat) {
    k <= |cells| && contents == start + CommaAfterEach(cells[..k])
  }

  lemma NextCell(contents: string, start: string, cells: seq<string>, k: nat)
    requires k < |cells| && WrittenUpTo(contents, start, cells, k)
    ensures WrittenUpTo(contents + cells[k] + ",", start, cells, k + 1)
  {
    var done := CommaAfterEach(cells[..k]);
    assert cells[..k + 1][..k] == cells[..k];
    assert start + done + cells[k] + "," == start + (done + cells[k] + ",");
  }

  /** A text field and the comma after it. */
  method WriteCell(f: LogFile, field: Option<CString>, ghost cells: seq<string>, ghost k: nat, ghost start: string)
    requires k < |cells| && cells[k] == CsvEscape(CTextOf(field)) && WrittenUpTo(f.contents, start, cells, k)
    modifies f
    ensures WrittenUpTo(f.contents, start, cells, k + 1)
  {
    NextCell(f.contents, start, cells, k);
    WriteField(f, field);
    f.Append(",");
  }

  /** A number, if there is one, and the comma after it. */
  method WriteNumber(f: LogFile, n: Option<nat>, ghost cells: seq<string>, ghost k: nat, ghost start: string)
    requires k < |cells| && cells[k] == NumberText(n) && WrittenUpTo(f.contents, start, cells, k)
    modifies f
    ensures WrittenUpTo(f.contents, start, cells, k + 1)
  {
    NextCell(f.contents, start, cells, k);
    ghost var before := f.contents;
    if n.Some? {
      f.Append(Decimal(n.value));
    }
    assert f.contents == before + NumberText(n);
    f.Append(",");
  }

  /** bench_csv_write appends the bytes the Rust logger appends. */
  method BenchCsvWrite(f: LogFile, timestamp: CString, row: CRow)
    modifies f
    ensures f.contents == old(f.contents) + RowText(AsEntry(timestamp, row))
    ensures var values := [CText(timestamp), CTextOf(row.condition), CTextOf(row.workload), Decimal(row.iteration),
                           Decimal(row.bytes), Decimal(row.durationNs), Decimal(row.userCpuUs), Decimal(row.sysCpuUs),
                           Decimal(row.rssPeakKb), NumberText(row.guestMemBytes), CTextOf(row.checksumHex),
                           NumberText(row.totalRuntimeNs), CTextOf(row.notes)];
            f.contents == old(f.contents) + Line(EscapeEach(values))
  {
    ghost var start, cells := f.contents, Cells(AsEntry(timestamp, row));
    assert WrittenUpTo(f.contents, start, cells, 0);
    WriteCell(f, Some(timestamp), cells, 0, start);
    WriteCell(f, row.condition, cells, 1, start);
    WriteCell(f, row.workload, cells, 2, start);
    WriteNumber(f, Some(row.iteration), cells, 3, start);
    WriteNumber(f, Some(row.bytes), cells, 4, start);
    WriteNumber(f, Some(row.durationNs), cells, 5, start);
    WriteNumber(f, Some(row.userCpuUs), cells, 6, start);
    WriteNumber(f, Some(row.sysCpuUs), cells, 7, start);
    WriteNumber(f, Some(row.rssPeakKb), cells, 8, start);
    WriteNumber(f, row.guestMemBytes, cells, 9, start);
    WriteCell(f, row.checksumHex, cells, 10, start);
    WriteNumber(f, row.totalRuntimeNs, cells, 11, start);
    WriteField(f, row.notes);
    f.Append("\n");
    LastCell(start, cells);
    RowTextIsLine(AsEntry(timestamp, row));
  }

  lemma LastCell(start: string, cells: seq<string>)
    requires |cells| == 13
    ensures start + CommaAfterEach(cells[..12]) + cells[12] + "\n" == start + Line(cells)
  {
    var done := CommaAfterEach(cells[..12]);
    assert start + done + cells[12] + "\n" == start + (done + cells[12] + "\n");
  }
}
