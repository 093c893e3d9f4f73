/** What the four standard Huffman tables (usb-wasi-guest/examples/webcam/src/webcam.rs,
    inject_standard_dht) say: which symbols each lists, and that its code lengths leave a code. */
module JpegTables {
  import opened UsbBase
  import opened JpegDht

  /** `table` lists `symbols`, each exactly once, behind its five bytes of header and 16 counts. */
  predicate ListsOnce(table: seq<byte>, symbols: set<byte>) {
    && |table| >= 21
    && (forall x: byte :: x in symbols <==> x in table[21..])
    && forall i, j :: 21 <= i < j < |table| ==> table[i] != table[j]
  }

  /** The code words of 16 bits taken up by `counts[i]` words of `i + 1` bits each. */
  function Taken(c: seq<byte>): nat
    requires |c| == 16
  {
    0x8000 * c[0] as int + 0x4000 * c[1] as int + 0x2000 * c[2] as int + 0x1000 * c[3] as int
    + 0x800 * c[4] as int + 0x400 * c[5] as int + 0x200 * c[6] as int + 0x100 * c[7] as int
    + 0x80 * c[8] as int + 0x40 * c[9] as int + 0x20 * c[10] as int + 0x10 * c[11] as int
    + 8 * c[12] as int + 4 * c[13] as int + 2 * c[14] as int + c[15] as int
  }

  /** The longest words have `longest` bits, and of these words exactly one, all ones, is left over
      (annex C of ITU-T T.81). */
  predicate LeavesOneWord(table: seq<byte>, longest: nat, unused: nat)
    requires |table| >= 21 && 1 <= longest <= 16
  {
    && Taken(table[5..21]) + unused == 0x1_0000
    && table[4 + longest] > 0 && forall i :: 5 + longest <= i < 21 ==> table[i] == 0
  }

  // ----- counting -----

  function Elements(s: seq<byte>): (r: set<byte>)
    ensures forall x :: x in r <==> x in s
  {
    set x | x in s
  }

  lemma {:induction false} FewElements(s: seq<byte>)
    ensures |Elements(s)| <= |s|
  {
    if s == [] {
      assert Elements(s) == {};
    } else {
      FewElements(s[..|s| - 1]);
      assert Elements(s) == Elements(s[..|s| - 1]) + {s[|s| - 1]};
    }
  }

  lemma SubsetSmaller(a: set<byte>, b: set<byte>)
    requires a <= b
    ensures |a| <= |b|
  {
    assert b == a + (b - a);
  }

  lemma DropOne(s: seq<byte>, i: nat, x: byte)
    requires i < |s| && x in s && x != s[i]
    ensures x in s[..i] + s[i + 1..]
  {
    var k :| 0 <= k < |s| && s[k] == x;
    assert (s[..i] + s[i + 1..])[if k < i then k else k - 1] == x;
  }

  /** A list no longer than the set it covers has every member once and nothing else. */
  lemma CoversOnce(s: seq<byte>, want: set<byte>)
    requires |s| <= |want| && forall x :: x in want ==> x in s
    ensures forall i :: 0 <= i < |s| ==> s[i] in want
    ensures forall i, j :: 0 <= i < j < |s| ==> s[i] != s[j]
  {
    forall i | 0 <= i < |s| ensures s[i] in want && s[i] !in s[..i] + s[i + 1..] {
      var rest := s[..i] + s[i + 1..];
      if s[i] !in want || s[i] in rest {
        forall x | x in want ensures x in Elements(rest) {
          if x != s[i] { DropOne(s, i, x); }
        }
        SubsetSmaller(want, Elements(rest));
        FewElements(rest);
        assert false;
      }
    }
    forall i, j | 0 <= i < j < |s| ensures s[i] != s[j] {
      assert (s[..i] + s[i + 1..])[j - 1] == s[j];
    }
  }

  lemma ListsOnceIfCovers(table: seq<byte>, want: set<byte>)
    requires |table| == 21 + |want| && forall x :: x in want ==> x in table[21..]
    ensures ListsOnce(table, want)
  {
    CoversOnce(table[21..], want);
    assert forall i :: 21 <= i < |table| ==> table[i] == table[21..][i - 21];
  }

  // ----- the symbols (sections F.1.2.1 and F.1.2.2 of ITU-T T.81) -----

  /** The size categories of a DC difference. */
  function DcSymbols(): set<byte> {
    {0, 1, 2, 3, 4, 5, 6, 7, 8, 9, 10, 11}
  }

  /** The bytes below `bound` that pair a run, in the high four bits, with a size of 1 to 10. */
  function RunSizes(bound: nat): set<byte> {
    set x: byte | x < bound && 1 <= x % 16 <= 10
  }

  /** A run of 0 to 15 zeros before a coefficient of size 1 to 10, the end of a block, or 16 zeros. */
  function AcSymbols(): set<byte> {
    RunSizes(0x100) + {0x00, 0xF0}
  }

  lemma {:induction false} RunSizesCount(run: nat, size: nat)
    requires run < 16 && size <= 16
    ensures |RunSizes(16 * run + size)| == 10 * run + if size == 0 then 0 else if size <= 11 then size - 1 else 10
    decreases run, size
  {
    if size > 0 {
      RunSizesCount(run, size - 1);
      var x: byte := 16 * run + (size - 1);
      assert x % 16 == size - 1;
      assert RunSizes(16 * run + size) == RunSizes(x) + if 1 <= size - 1 <= 10 then {x} else {};
    } else if run > 0 {
      RunSizesCount(run - 1, 16);
    } else {
      assert RunSizes(0) == {};
    }
  }

  lemma AcSymbolsCount()
    ensures |AcSymbols()| == 162
  {
    RunSizesCount(15, 16);
    assert RunSizes(0x100) !! {0x00, 0xF0};
  }

  lemma AcLumaCovers(x: byte)
    requires x in AcSymbols()
    ensures x in AcLumaLow() || x in AcLumaHigh()
  {}

  lemma AcChromaCovers(x: byte)
    requires x in AcSymbols()
    ensures x in AcChromaLow() || x in AcChromaHigh()
  {}

  lemma AcTails()
    ensures AcLuma()[21..] == AcLumaLow() + AcLumaHigh()
    ensures AcChroma()[21..] == AcChromaLow() + AcChromaHigh()
  {
    TailBehind(AcLumaFront(), AcLumaLow(), AcLumaHigh());
    TailBehind(AcChromaFront(), AcChromaLow(), AcChromaHigh());
  }

  lemma TailBehind(front: seq<byte>, low: seq<byte>, high: seq<byte>)
    requires |front| == 21
    ensures (front + low + high)[21..] == low + high
  {}

  lemma SymbolsBehind(head: seq<byte>, counts: seq<byte>, symbols: seq<byte>, want: set<byte>)
    requires |head| == 5 && |counts| == 16 && |symbols| == |want| && forall x :: x in want ==> x in symbols
    ensures ListsOnce(head + counts + symbols, want)
  {
    assert (head + counts + symbols)[21..] == symbols;
    ListsOnceIfCovers(head + counts + symbols, want);
  }

  lemma TableSplits(table: seq<byte>, symbols: seq<byte>)
    requires |table| == 21 + |symbols| && table[21..] == symbols
    ensures table == table[..5] + table[5..21] + symbols
  {}

  lemma DcTable(table: seq<byte>)
    requires |table| == 33 && table[21..] == [0, 1, 2, 3, 4, 5, 6, 7, 8, 9, 10, 11]
    ensures ListsOnce(table, DcSymbols())
  {
    assert |DcSymbols()| == 12;
    TableSplits(table, table[21..]);
    SymbolsBehind(table[..5], table[5..21], table[21..], DcSymbols());
  }

  predicate Covers(low: seq<byte>, high: seq<byte>) {
    forall x :: x in AcSymbols() ==> x in low || x in high
  }

  lemma AcTable(table: seq<byte>, low: seq<byte>, high: seq<byte>)
    requires |low| + |high| == 162 && |table| == 183 && table[21..] == low + high && Covers(low, high)
    ensures ListsOnce(table, AcSymbols())
  {
    AcSymbolsCount();
    TableSplits(table, low + high);
    SymbolsBehind(table[..5], table[5..21], low + high, AcSymbols());
  }

  /** Both DC tables list every size category once. */
  lemma DcSymbolsListed()
    ensures ListsOnce(DcLuma(), DcSymbols()) && ListsOnce(DcChroma(), DcSymbols())
  {
    DcTable(DcLuma());
    DcTable(DcChroma());
  }

  /** The AC luminance table lists every run and size, the end of a block and the run of 16 zeros, each
      once. */
  lemma AcLumaSymbolsListed()
    ensures ListsOnce(AcLuma(), AcSymbols())
  {
    assert Covers(AcLumaLow(), AcLumaHigh()) by {
      forall x | x in AcSymbols() ensures x in AcLumaLow() || x in AcLumaHigh() { AcLumaCovers(x); }
    }
    AcTails();
    AcTable(AcLuma(), AcLumaLow(), AcLumaHigh());
  }

  /** And so does the AC chrominance table. */
  lemma AcChromaSymbolsListed()
    ensures ListsOnce(AcChroma(), AcSymbols())
  {
    assert Covers(AcChromaLow(), AcChromaHigh()) by {
      forall x | x in AcSymbols() ensures x in AcChromaLow() || x in AcChromaHigh() { AcChromaCovers(x); }
    }
    AcTails();
    AcTable(AcChroma(), AcChromaLow(), AcChromaHigh());
  }

  lemma FourParts(a: seq<byte>, b: seq<byte>, c: seq<byte>, d: seq<byte>)
    requires |a| == 33 && |b| == 33 && |c| == 183 && |d| == 183
    ensures var all := a + b + c + d;
            all[..33] == a && all[33..66] == b && all[66..249] == c && all[249..] == d
  {}

  /** The four tables are inserted in the order of their classes and destinations: DC 0, DC 1, AC 0, AC 1. */
  lemma TablesInOrder()
    ensures var all := StandardTables();
            && all[..33] == DcLuma() && all[33..66] == DcChroma() && all[66..249] == AcLuma() && all[249..] == AcChroma()
            && all[4] == 0x00 && all[37] == 0x01 && all[70] == 0x10 && all[253] == 0x11
  {
    FourParts(DcLuma(), DcChroma(), AcLuma(), AcChroma());
  }

  /** In each DC table the code lengths make a prefix code that lacks only the word of all ones. */
  lemma DcCodes()
    ensures LeavesOneWord(DcLuma(), 9, 0x80) && LeavesOneWord(DcChroma(), 11, 0x20)
  {}

  /** And in each AC table. */
  lemma AcCodes()
    ensures LeavesOneWord(AcLuma(), 16, 1) && LeavesOneWord(AcChroma(), 16, 1)
  {}
}
