/** The benchmark log: rows, sessions, timestamps, and a reader that gets every row back
    (benchmarks/usb-bench-rs/src/csv.rs and its C twin benchmarks/usb-bench-c/src/csv.c). */
module CsvLog {
  import opened UsbBase
  import opened CsvText
  import opened DecimalText

  // ----- rows -----

  datatype Row = Row(
    condition: string, workload: string, iteration: nat, bytes: nat, durationNs: nat,
    userCpuUs: nat, sysCpuUs: nat, rssPeakKb: nat, guestMemBytes: Option<nat>,
    checksumHex: Option<string>, totalRuntimeNs: Option<nat>, notes: Option<string>)

  datatype Entry = Entry(timestamp: string, row: Row)

  function NumberText(n: Option<nat>): string {
    match n
    case None => ""
    case Some(v) => Decimal(v)
  }

  /** Numbers need no quotes. */
  lemma NumberIsPlain(n: Option<nat>)
    ensures CsvEscape(NumberText(n)) == NumberText(n)
  {
    if n.Some? {
      DecimalReadsBack(n.value);
    }
  }

  function TextOf(s: Option<string>): string {
    match s
    case None => ""
    case Some(v) => v
  }

  /** The 13 columns as written: text is escaped, numbers are not. */
  function Cells(e: Entry): (r: seq<string>)
    ensures |r| == 13
  {
    var row := e.row;
    [CsvEscape(e.timestamp), CsvEscape(row.condition), CsvEscape(row.workload),
     Decimal(row.iteration), Decimal(row.bytes), Decimal(row.durationNs),
     Decimal(row.userCpuUs), Decimal(row.sysCpuUs), Decimal(row.rssPeakKb),
     NumberText(row.guestMemBytes), CsvEscape(TextOf(row.checksumHex)),
     NumberText(row.totalRuntimeNs), CsvEscape(TextOf(row.notes))]
  }

  function RowText(e: Entry): string {
    Line(Cells(e))
  }

  /** The same columns as a reader should see them. */
  function Values(e: Entry): (r: seq<string>)
    ensures |r| == 13
  {
    var row := e.row;
    [e.timestamp, row.condition, row.workload,
     Decimal(row.iteration), Decimal(row.bytes), Decimal(row.durationNs),
     Decimal(row.userCpuUs), Decimal(row.sysCpuUs), Decimal(row.rssPeakKb),
     NumberText(row.guestMemBytes), TextOf(row.checksumHex),
     NumberText(row.totalRuntimeNs), TextOf(row.notes)]
  }

  lemma CellsAreEscapedValues(e: Entry)
    ensures Cells(e) == EscapeEach(Values(e))
  {
    var row := e.row;
    NumberIsPlain(Some(row.iteration));
    NumberIsPlain(Some(row.bytes));
    NumberIsPlain(Some(row.durationNs));
    NumberIsPlain(Some(row.userCpuUs));
    NumberIsPlain(Some(row.sysCpuUs));
    NumberIsPlain(Some(row.rssPeakKb));
    NumberIsPlain(row.guestMemBytes);
    NumberIsPlain(row.totalRuntimeNs);
  }

  function ReadText(s: string): Option<string> {
    if s == "" then None else Some(s)
  }

  function ReadRow(v: seq<string>): Option<Entry> {
    if |v| != 13 || exists k :: 3 <= k < 9 && ReadNumber(v[k]).None? then None
    else
      Some(Entry(v[0], Row(v[1], v[2],
                           ReadNumber(v[3]).value, ReadNumber(v[4]).value, ReadNumber(v[5]).value,
                           ReadNumber(v[6]).value, ReadNumber(v[7]).value, ReadNumber(v[8]).value,
                           ReadNumber(v[9]), ReadText(v[10]), ReadNumber(v[11]), ReadText(v[12]))))
  }

  /** An absent text and an empty one are written alike; everything else is kept. */
  function Written(e: Entry): Entry {
    e.(row := e.row.(checksumHex := if e.row.checksumHex == Some("") then None else e.row.checksumHex,
                     notes := if e.row.notes == Some("") then None else e.row.notes))
  }

  lemma NumberReadsBack(n: Option<nat>)
    ensures ReadNumber(NumberText(n)) == n
  {
    if n.Some? {
      DecimalReadsBack(n.value);
    }
  }

  lemma RowReadsBack(e: Entry)
    ensures ReadRow(Values(e)) == Some(Written(e))
  {
    var row := e.row;
    NumberReadsBack(Some(row.iteration));
    NumberReadsBack(Some(row.bytes));
    NumberReadsBack(Some(row.durationNs));
    NumberReadsBack(Some(row.userCpuUs));
    NumberReadsBack(Some(row.sysCpuUs));
    NumberReadsBack(Some(row.rssPeakKb));
    NumberReadsBack(row.guestMemBytes);
    NumberReadsBack(row.totalRuntimeNs);
  }

  lemma RowTextIsLine(e: Entry)
    ensures RowText(e) == Line(EscapeEach(Values(e)))
  {
    CellsAreEscapedValues(e);
  }

  // ----- the log file over many sessions -----

  function Columns(): (r: seq<string>)
    ensures |r| == 13
  {
    ["timestamp_iso", "condition", "workload", "iteration", "bytes", "duration_ns",
     "user_cpu_us", "sys_cpu_us", "rss_peak_kb", "guest_mem_bytes",
     "checksum_hex", "total_runtime_ns", "notes"]
  }

  /** The value a reader finds in the column called `name`. */
  function Named(columns: seq<string>, values: seq<string>, name: string): Option<string> {
    if columns == [] || values == [] then None
    else if columns[0] == name then Some(values[0])
    else Named(columns[1..], values[1..], name)
  }

  lemma {:induction false} NamedAt(columns: seq<string>, values: seq<string>, k: nat)
    requires |columns| == |values| && k < |columns| && forall j :: 0 <= j < k ==> columns[j] != columns[k]
    ensures Named(columns, values, columns[k]) == Some(values[k])
  {
    if k == 0 {
    } else {
      assert forall j :: 0 <= j < k - 1 ==> columns[1..][j] == columns[j + 1];
      NamedAt(columns[1..], values[1..], k - 1);
    }
  }

  /** Any two names differ in length or in the first character. */
  lemma ColumnsDiffer(j: nat, k: nat)
    requires j < k < 13
    ensures Columns()[j] != Columns()[k]
  {
    var a, b := Columns()[j], Columns()[k];
    assert |a| != |b| || a[0] != b[0];
  }

  /** Each field is in the column named after it. */
  predicate ColumnsHold(columns: seq<string>, v: seq<string>, e: Entry) {
    && Named(columns, v, "timestamp_iso") == Some(e.timestamp)
    && Named(columns, v, "condition") == Some(e.row.condition)
    && Named(columns, v, "workload") == Some(e.row.workload)
    && Named(columns, v, "iteration") == Some(Decimal(e.row.iteration))
    && Named(columns, v, "bytes") == Some(Decimal(e.row.bytes))
    && Named(columns, v, "duration_ns") == Some(Decimal(e.row.durationNs))
    && Named(columns, v, "user_cpu_us") == Some(Decimal(e.row.userCpuUs))
    && Named(columns, v, "sys_cpu_us") == Some(Decimal(e.row.sysCpuUs))
    && Named(columns, v, "rss_peak_kb") == Some(Decimal(e.row.rssPeakKb))
    && Named(columns, v, "guest_mem_bytes") == Some(NumberText(e.row.guestMemBytes))
    && Named(columns, v, "checksum_hex") == Some(TextOf(e.row.checksumHex))
    && Named(columns, v, "total_runtime_ns") == Some(NumberText(e.row.totalRuntimeNs))
    && Named(columns, v, "notes") == Some(TextOf(e.row.notes))
  }

  lemma ColumnsNameFields(e: Entry)
    ensures ColumnsHold(Columns(), Values(e), e)
  {
    var columns, v := Columns(), Values(e);
    forall k | 0 <= k < 13 ensures Named(columns, v, columns[k]) == Some(v[k]) {
      forall j | 0 <= j < k ensures columns[j] != columns[k] {
        ColumnsDiffer(j, k);
      }
      NamedAt(columns, v, k);
    }
    assert Named(columns, v, columns[0]) == Some(v[0]) && Named(columns, v, columns[1]) == Some(v[1]);
    assert Named(columns, v, columns[2]) == Some(v[2]) && Named(columns, v, columns[3]) == Some(v[3]);
    assert Named(columns, v, columns[4]) == Some(v[4]) && Named(columns, v, columns[5]) == Some(v[5]);
    assert Named(columns, v, columns[6]) == Some(v[6]) && Named(columns, v, columns[7]) == Some(v[7]);
    assert Named(columns, v, columns[8]) == Some(v[8]) && Named(columns, v, columns[9]) == Some(v[9]);
    assert Named(columns, v, columns[10]) == Some(v[10]) && Named(columns, v, columns[11]) == Some(v[11]);
    assert Named(columns, v, columns[12]) == Some(v[12]);
  }

  function RowTexts(entries: seq<Entry>): string {
    if entries == [] then ""
    else RowTexts(entries[..|entries| - 1]) + RowText(entries[|entries| - 1])
  }

  /** The file after one logger was opened on `file`, wrote `entries` and was dropped. */
  function AfterSession(columns: seq<string>, file: string, entries: seq<Entry>): string
    requires columns != []
  {
    file + (if file == "" then Line(columns) else "") + RowTexts(entries)
  }

  /** The file after a series of sessions on a new file. */
  function LogText(columns: seq<string>, sessions: seq<seq<Entry>>): string
    requires columns != []
  {
    if sessions == [] then ""
    else AfterSession(columns, LogText(columns, sessions[..|sessions| - 1]), sessions[|sessions| - 1])
  }

  function ReadRows(records: seq<seq<string>>): Option<seq<Entry>> {
    if records == [] then Some([])
    else
      var n := |records| - 1;
      var before, last := ReadRows(records[..n]), ReadRow(records[n]);
      if before.Some? && last.Some? then Some(before.value + [last.value]) else None
  }

  function ReadLog(columns: seq<string>, text: string): Option<seq<Entry>> {
    match Parse(text)
    case None => None
    case Some(records) => if |records| == 0 || records[0] != columns then None else ReadRows(records[1..])
  }

  function ValuesOf(entries: seq<Entry>): (r: seq<seq<string>>)
    ensures |r| == |entries| && [] !in r
  {
    if entries == [] then [] else ValuesOf(entries[..|entries| - 1]) + [Values(entries[|entries| - 1])]
  }

  function WrittenOf(entries: seq<Entry>): seq<Entry> {
    if entries == [] then [] else WrittenOf(entries[..|entries| - 1]) + [Written(entries[|entries| - 1])]
  }

  lemma {:induction false} RowTextsAreRecords(entries: seq<Entry>)
    ensures RowTexts(entries) == RecordsText(ValuesOf(entries))
  {
    if entries == [] {
    } else {
      var n := |entries| - 1;
      RowTextsAreRecords(entries[..n]);
      RowTextIsLine(entries[n]);
      assert ValuesOf(entries)[..n] == ValuesOf(entries[..n]);
    }
  }

  lemma {:induction false} RowsReadBack(entries: seq<Entry>)
    ensures ReadRows(ValuesOf(entries)) == Some(WrittenOf(entries))
  {
    if entries == [] {
    } else {
      var n := |entries| - 1;
      RowsReadBack(entries[..n]);
      RowReadsBack(entries[n]);
      assert ValuesOf(entries)[..n] == ValuesOf(entries[..n]);
    }
  }

  lemma {:induction false} ValuesAppend(a: seq<Entry>, b: seq<Entry>)
    ensures ValuesOf(a + b) == ValuesOf(a) + ValuesOf(b)
  {
    if b == [] {
      assert a + b == a;
    } else {
      var n := |b| - 1;
      ValuesAppend(a, b[..n]);
      assert (a + b)[..|a + b| - 1] == a + b[..n] && (a + b)[|a + b| - 1] == b[n];
      AppendAssociative(ValuesOf(a), ValuesOf(b[..n]), [Values(b[n])]);
    }
  }

  lemma SessionAppends(records: seq<seq<string>>, entries: seq<Entry>)
    ensures RecordsText(records) + RowTexts(entries) == RecordsText(records + ValuesOf(entries))
  {
    RowTextsAreRecords(entries);
    RecordsTextAppend(records, ValuesOf(entries));
  }

  lemma ConcatLast<T>(ss: seq<seq<T>>)
    requires ss != []
    ensures Concat(ss) == Concat(ss[..|ss| - 1]) + ss[|ss| - 1]
  {
    var n := |ss| - 1;
    assert ss == ss[..n] + [ss[n]];
    ConcatAppend(ss[..n], [ss[n]]);
    assert Concat([ss[n]]) == ss[n] + Concat([]) == ss[n];
  }

  /** A logger opened on an empty file writes the header first. */
  lemma FirstSession(columns: seq<string>, entries: seq<Entry>)
    requires columns != [] && EscapeEach(columns) == columns
    ensures AfterSession(columns, "", entries) == RecordsText([columns] + ValuesOf(entries)) != ""
  {
    assert [columns][..0] == [];
    assert RecordsText([columns]) == Line(columns);
    SessionAppends([columns], entries);
  }

  lemma RecordsOfBoth(columns: seq<string>, before: seq<Entry>, entries: seq<Entry>)
    ensures [columns] + ValuesOf(before + entries) == ([columns] + ValuesOf(before)) + ValuesOf(entries)
  {
    ValuesAppend(before, entries);
    AppendAssociative([columns], ValuesOf(before), ValuesOf(entries));
  }

  /** A logger opened on a log appends only rows. */
  lemma LaterSession(columns: seq<string>, file: string, before: seq<Entry>, entries: seq<Entry>)
    requires columns != [] && file == RecordsText([columns] + ValuesOf(before)) && file != ""
    ensures AfterSession(columns, file, entries) == RecordsText([columns] + ValuesOf(before + entries)) != ""
  {
    var records := [columns] + ValuesOf(before);
    RecordsOfBoth(columns, before, entries);
    assert AfterSession(columns, file, entries) == file + RowTexts(entries) by {
      assert file + "" == file;
    }
    SessionAppends(records, entries);
  }

  /** One header, then every row of every session. */
  lemma {:induction false} SessionsWriteRecords(columns: seq<string>, sessions: seq<seq<Entry>>)
    requires sessions != [] && columns != [] && EscapeEach(columns) == columns
    ensures LogText(columns, sessions) == RecordsText([columns] + ValuesOf(Concat(sessions))) != ""
  {
    var n := |sessions| - 1;
    ConcatLast(sessions);
    if n == 0 {
      assert sessions[..0] == [];
      assert Concat(sessions) == sessions[0];
      FirstSession(columns, sessions[0]);
    } else {
      SessionsWriteRecords(columns, sessions[..n]);
      LaterSession(columns, LogText(columns, sessions[..n]), Concat(sessions[..n]), sessions[n]);
    }
  }

  /** However the rows are split over sessions and whatever their texts hold, the file has one
      header and a reader gets every row back in order. */
  lemma SessionsReadBack(columns: seq<string>, sessions: seq<seq<Entry>>)
    requires sessions != [] && columns != [] && EscapeEach(columns) == columns
    ensures ReadLog(columns, LogText(columns, sessions)) == Some(WrittenOf(Concat(sessions)))
  {
    var records := [columns] + ValuesOf(Concat(sessions));
    SessionsWriteRecords(columns, sessions);
    RecordsReadBack(records);
    assert records[1..] == ValuesOf(Concat(sessions));
    RowsReadBack(Concat(sessions));
  }

  lemma {:induction false} ValuesOfAt(entries: seq<Entry>, i: nat)
    requires i < |entries|
    ensures ValuesOf(entries)[i] == Values(entries[i])
  {
    if i == |entries| - 1 {
    } else {
      ValuesOfAt(entries[..|entries| - 1], i);
    }
  }

  predicate IsWord(s: string) {
    forall c :: c in s ==> c == '_' || 'a' <= c <= 'z'
  }

  lemma WordIsPlain(s: string)
    requires IsWord(s)
    ensures CsvEscape(s) == s
  {
    forall i | 0 <= i < |s| ensures !Special(s[i]) {
      assert s[i] in s;
    }
  }

  lemma FirstColumnsAreWords(k: nat)
    requires k < 6
    ensures IsWord(Columns()[k])
  {
    assert IsWord("timestamp_iso") && IsWord("condition") && IsWord("workload");
    assert IsWord("iteration") && IsWord("bytes") && IsWord("duration_ns");
  }

  lemma LastColumnsAreWords(k: nat)
    requires 6 <= k < 13
    ensures IsWord(Columns()[k])
  {
    assert IsWord("user_cpu_us") && IsWord("sys_cpu_us") && IsWord("rss_peak_kb") && IsWord("guest_mem_bytes");
    assert IsWord("checksum_hex") && IsWord("total_runtime_ns") && IsWord("notes");
  }

  /** The header names need no quotes, so the log as the code writes it reads back. */
  lemma LogReadsBack(sessions: seq<seq<Entry>>)
    requires sessions != []
    ensures ReadLog(Columns(), LogText(Columns(), sessions)) == Some(WrittenOf(Concat(sessions)))
    ensures LogText(Columns(), sessions) == RecordsText([Columns()] + ValuesOf(Concat(sessions)))
  {
    var columns := Columns();
    forall k | 0 <= k < 13 ensures CsvEscape(columns[k]) == columns[k] {
      if k < 6 { FirstColumnsAreWords(k); } else { LastColumnsAreWords(k); }
      WordIsPlain(columns[k]);
    }
    assert EscapeEach(columns) == columns;
    SessionsReadBack(columns, sessions);
    SessionsWriteRecords(columns, sessions);
  }

  /** The file's records are a header and one record for each row, in which a reader finds each field
      under its name in that header. */
  lemma LogReadsByName(sessions: seq<seq<Entry>>, i: nat)
    requires sessions != [] && i < |Concat(sessions)|
    ensures var records := Parse(LogText(Columns(), sessions));
            && records.Some? && |records.value| == 1 + |Concat(sessions)|
            && ColumnsHold(records.value[0], records.value[i + 1], Concat(sessions)[i])
  {
    var entries := Concat(sessions);
    LogReadsBack(sessions);
    RecordsReadBack([Columns()] + ValuesOf(entries));
    ValuesOfAt(entries, i);
    ColumnsNameFields(entries[i]);
  }
}
