/** Field quoting and lines of the benchmark log (benchmarks/usb-bench-rs/src/csv.rs), and a
    reader that gets back every record, whatever its fields hold. */
module CsvText {
  import opened UsbBase

  // ----- quoting -----

  /** The code scans bytes; these four are ASCII, so no byte of a longer character equals one. */
  predicate Special(c: char) {
    c == ',' || c == '"' || c == '\n' || c == '\r'
  }

  predicate NeedsQuote(s: string) {
    exists i :: 0 <= i < |s| && Special(s[i])
  }

  function DoubleQuote(c: char): string {
    if c == '"' then [c, c] else [c]
  }

  function DoubleQuotes(s: string): string {
    if s == "" then "" else DoubleQuotes(s[..|s| - 1]) + DoubleQuote(s[|s| - 1])
  }

  function CsvEscape(s: string): string {
    if NeedsQuote(s) then "\"" + DoubleQuotes(s) + "\"" else s
  }

  // ----- a reader after section 2 of RFC 4180, with LF as the line break -----

  datatype Mode = Start | Plain | InQuotes | AfterQuote | Bad

  datatype Reader = Reader(mode: Mode, field: string, record: seq<string>, records: seq<seq<string>>)

  const AT_START: Reader := Reader(Start, "", [], [])

  function EndField(p: Reader): Reader {
    p.(mode := Start, field := "", record := p.record + [p.field])
  }

  function EndRecord(p: Reader): Reader {
    Reader(Start, "", [], p.records + [p.record + [p.field]])
  }

  function Step(p: Reader, c: char): Reader {
    match p.mode
    case Bad => p
    case InQuotes => if c == '"' then p.(mode := AfterQuote) else p.(field := p.field + [c])
    case _ =>
      if c == ',' then EndField(p)
      else if c == '\n' then EndRecord(p)
      else if c == '"' then
        match p.mode
        case Start => p.(mode := InQuotes)
        case AfterQuote => p.(mode := InQuotes, field := p.field + [c])
        case _ => p.(mode := Bad)
      else if c == '\r' || p.mode.AfterQuote? then p.(mode := Bad)
      else p.(mode := Plain, field := p.field + [c])
  }

  function Run(p: Reader, text: string): Reader {
    if text == "" then p else Step(Run(p, text[..|text| - 1]), text[|text| - 1])
  }

  function Parse(text: string): Option<seq<seq<string>>> {
    var p := Run(AT_START, text);
    match p.mode
    case Bad => None
    case InQuotes => None
    case Start => Some(if p.record == [] then p.records else EndRecord(p).records)
    case _ => Some(EndRecord(p).records)
  }

  lemma {:induction false} RunAppend(p: Reader, a: string, b: string)
    ensures Run(p, a + b) == Run(Run(p, a), b)
  {
    if b == "" {
      assert a + b == a;
    } else {
      RunAppend(p, a, b[..|b| - 1]);
      assert (a + b)[..|a + b| - 1] == a + b[..|b| - 1];
    }
  }

  lemma RunOne(p: Reader, c: char)
    ensures Run(p, [c]) == Step(p, c)
  {
    assert Run(p, [c][..0]) == p;
  }

  // ----- fields -----

  predicate FieldStart(p: Reader) {
    p.mode == Start && p.field == ""
  }

  /** `p` has read exactly the field `s` and can end it. */
  predicate HasRead(start: Reader, p: Reader, s: string) {
    && p == start.(mode := p.mode, field := s)
    && (p.mode.Start? || p.mode.Plain? || p.mode.AfterQuote?)
  }

  lemma {:induction false} PlainFieldRead(p: Reader, s: string)
    requires FieldStart(p) && !NeedsQuote(s)
    ensures HasRead(p, Run(p, s), s) && !Run(p, s).mode.AfterQuote?
  {
    if s == "" {
    } else {
      var n := |s| - 1;
      PlainFieldRead(p, s[..n]);
      assert !Special(s[n]);
      assert s == s[..n] + [s[n]];
    }
  }

  lemma QuotedCharRead(p: Reader, c: char)
    requires p.mode.InQuotes?
    ensures Run(p, DoubleQuote(c)) == p.(field := p.field + [c])
  {
    RunOne(p, c);
    if c == '"' {
      RunAppend(p, [c], [c]);
      RunOne(Step(p, c), c);
      assert [c] + [c] == DoubleQuote(c);
    }
  }

  lemma {:induction false} QuotedTextRead(p: Reader, s: string)
    requires p.mode.InQuotes?
    ensures Run(p, DoubleQuotes(s)) == p.(field := p.field + s)
  {
    if s == "" {
      assert p.field + s == p.field;
    } else {
      var n := |s| - 1;
      QuotedTextRead(p, s[..n]);
      RunAppend(p, DoubleQuotes(s[..n]), DoubleQuote(s[n]));
      QuotedCharRead(p.(field := p.field + s[..n]), s[n]);
      AppendLast(p.field, s);
    }
  }

  /** Whatever a field holds, reading its escaped form gives the field back. */
  lemma FieldReadsBack(p: Reader, s: string)
    requires FieldStart(p)
    ensures HasRead(p, Run(p, CsvEscape(s)), s)
  {
    if NeedsQuote(s) {
      RunOne(p, '"');
      var q := Step(p, '"');
      QuotedTextRead(q, s);
      assert q.field + s == s;
      RunAppend(p, "\"", DoubleQuotes(s));
      RunAppend(p, "\"" + DoubleQuotes(s), "\"");
      RunOne(Run(q, DoubleQuotes(s)), '"');
    } else {
      PlainFieldRead(p, s);
    }
  }

  /** Reading has gone past the field that started at `start`, or has lost a character of it. */
  predicate Astray(start: Reader, p: Reader, n: nat) {
    || p.mode.Bad?
    || |p.records| > |start.records|
    || (|p.records| == |start.records| && |p.record| > |start.record|)
    || ((p.mode.InQuotes? || p.mode.AfterQuote?)
        && |p.records| == |start.records| && |p.record| == |start.record| && |p.field| < n)
  }

  lemma {:induction false} GoesAstray(p: Reader, s: string, k: nat)
    requires FieldStart(p) && k < |s| && Special(s[k]) && !NeedsQuote(s[..k])
    ensures Astray(p, Run(p, s), |s|)
  {
    var n := |s| - 1;
    if k == n {
      PlainFieldRead(p, s[..n]);
    } else {
      assert s[..n][..k] == s[..k];
      GoesAstray(p, s[..n], k);
    }
  }

  /** The quoting test is exact: unquoted, a field is read back if and only if the test clears it. */
  lemma QuotingIsExact(p: Reader, s: string)
    requires FieldStart(p)
    ensures HasRead(p, Run(p, s), s) <==> !NeedsQuote(s)
  {
    if NeedsQuote(s) {
      var k := FirstSpecial(s);
      GoesAstray(p, s, k);
    } else {
      PlainFieldRead(p, s);
    }
  }

  lemma {:induction false} FirstSpecial(s: string) returns (k: nat)
    requires NeedsQuote(s)
    ensures k < |s| && Special(s[k]) && !NeedsQuote(s[..k])
  {
    var n := |s| - 1;
    if NeedsQuote(s[..n]) {
      k := FirstSpecial(s[..n]);
      assert s[..n][..k] == s[..k];
    } else {
      k := n;
    }
  }

  // ----- lines -----

  function CommaAfterEach(cells: seq<string>): string {
    if cells == [] then ""
    else CommaAfterEach(cells[..|cells| - 1]) + cells[|cells| - 1] + ","
  }

  function Line(cells: seq<string>): string {
    if cells == [] then "\n"
    else CommaAfterEach(cells[..|cells| - 1]) + cells[|cells| - 1] + "\n"
  }

  function EscapeEach(values: seq<string>): (r: seq<string>)
    ensures |r| == |values|
  {
    seq(|values|, i requires 0 <= i < |values| => CsvEscape(values[i]))
  }

  lemma EscapeInit(values: seq<string>, n: nat)
    requires n <= |values|
    ensures EscapeEach(values)[..n] == EscapeEach(values[..n])
  {}

  lemma CellRead(p: Reader, before: string, value: string, end: char)
    requires FieldStart(Run(p, before)) && (end == ',' || end == '\n')
    ensures Run(p, before + CsvEscape(value) + [end]) == Step(Run(p, before).(field := value), end)
  {
    FieldReadsBack(Run(p, before), value);
    RunAppend(p, before, CsvEscape(value));
    RunAppend(p, before + CsvEscape(value), [end]);
    RunOne(Run(p, before + CsvEscape(value)), end);
  }

  lemma {:induction false} CellsRead(p: Reader, values: seq<string>)
    requires FieldStart(p)
    ensures Run(p, CommaAfterEach(EscapeEach(values))) == p.(record := p.record + values)
  {
    if values == [] {
      assert p.record + values == p.record;
    } else {
      var n := |values| - 1;
      CellsRead(p, values[..n]);
      EscapeInit(values, n);
      CellRead(p, CommaAfterEach(EscapeEach(values[..n])), values[n], ',');
      AppendLast(p.record, values);
    }
  }

  predicate LineStart(p: Reader) {
    FieldStart(p) && p.record == []
  }

  lemma LineSplit(values: seq<string>)
    requires values != []
    ensures var n := |values| - 1;
            Line(EscapeEach(values)) == CommaAfterEach(EscapeEach(values[..n])) + CsvEscape(values[n]) + ['\n']
  {
    EscapeInit(values, |values| - 1);
  }

  lemma EndOfLine(p: Reader, values: seq<string>)
    requires LineStart(p) && values != []
    ensures var n := |values| - 1;
            Step(p.(record := p.record + values[..n], field := values[n]), '\n') == p.(records := p.records + [values])
  {
    AppendLast(p.record, values);
    assert p.record + values == values;
  }

  /** A written line is read as one record of exactly its fields. */
  lemma LineReadsBack(p: Reader, values: seq<string>)
    requires LineStart(p) && values != []
    ensures Run(p, Line(EscapeEach(values))) == p.(records := p.records + [values])
  {
    var n := |values| - 1;
    LineSplit(values);
    CellsRead(p, values[..n]);
    CellRead(p, CommaAfterEach(EscapeEach(values[..n])), values[n], '\n');
    EndOfLine(p, values);
  }

  /** A file of records, each written as a line. */
  function RecordsText(records: seq<seq<string>>): string {
    if records == [] then ""
    else RecordsText(records[..|records| - 1]) + Line(EscapeEach(records[|records| - 1]))
  }

  lemma OneMoreRecord(p: Reader, before: string, done: seq<seq<string>>, record: seq<string>)
    requires LineStart(p) && record != [] && Run(p, before) == p.(records := p.records + done)
    ensures Run(p, before + Line(EscapeEach(record))) == p.(records := p.records + (done + [record]))
  {
    var line := Line(EscapeEach(record));
    RunAppend(p, before, line);
    LineReadsBack(Run(p, before), record);
    AppendAssociative(p.records, done, [record]);
  }

  lemma {:induction false} RecordsRead(p: Reader, records: seq<seq<string>>)
    requires LineStart(p) && [] !in records
    ensures Run(p, RecordsText(records)) == p.(records := p.records + records)
  {
    if records == [] {
      assert p.records + records == p.records;
    } else {
      var n := |records| - 1;
      RecordsRead(p, records[..n]);
      OneMoreRecord(p, RecordsText(records[..n]), records[..n], records[n]);
      SplitLast(records);
    }
  }

  /** A reader after RFC 4180 recovers every field of any sequence of written records. */
  lemma RecordsReadBack(records: seq<seq<string>>)
    requires [] !in records
    ensures Parse(RecordsText(records)) == Some(records)
  {
    RecordsRead(AT_START, records);
    assert AT_START.records + records == records;
  }

  lemma {:induction false} RecordsTextAppend(a: seq<seq<string>>, b: seq<seq<string>>)
    ensures RecordsText(a + b) == RecordsText(a) + RecordsText(b)
  {
    if b == [] {
      assert a + b == a;
      assert RecordsText(a) + "" == RecordsText(a);
    } else {
      var n := |b| - 1;
      RecordsTextAppend(a, b[..n]);
      assert (a + b)[..|a + b| - 1] == a + b[..n] && (a + b)[|a + b| - 1] == b[n];
      var line := Line(EscapeEach(b[n]));
      AppendAssociative(RecordsText(a), RecordsText(b[..n]), line);
    }
  }
}
