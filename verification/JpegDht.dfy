/** Huffman table injection into MJPEG frames
    (usb-wasi-guest/examples/webcam/src/webcam.rs, inject_standard_dht). */
module JpegDht {
  import opened UsbBase
  import opened WebcamCapture

  // ----- the standard tables -----

  /** Annex K of ITU-T T.81: DC luminance. */
  function DcLuma(): (r: seq<byte>)
    ensures |r| == 33 && r[0] == 0xFF && r[1] == 0xC4 && r[2] == 0x00 && r[3] == 0x1F && r[4] == 0x00
  {
    [0xFF, 0xC4, 0x00, 0x1F, 0x00]
    + [0x00, 0x01, 0x05, 0x01, 0x01, 0x01, 0x01, 0x01, 0x01, 0x00, 0x00, 0x00, 0x00, 0x00, 0x00, 0x00]
    + [0x00, 0x01, 0x02, 0x03, 0x04, 0x05, 0x06, 0x07, 0x08, 0x09, 0x0A, 0x0B]
  }

  /** DC chrominance. */
  function DcChroma(): (r: seq<byte>)
    ensures |r| == 33 && r[0] == 0xFF && r[1] == 0xC4 && r[2] == 0x00 && r[3] == 0x1F && r[4] == 0x01
  {
    [0xFF, 0xC4, 0x00, 0x1F, 0x01]
    + [0x00, 0x03, 0x01, 0x01, 0x01, 0x01, 0x01, 0x01, 0x01, 0x01, 0x01, 0x00, 0x00, 0x00, 0x00, 0x00]
    + [0x00, 0x01, 0x02, 0x03, 0x04, 0x05, 0x06, 0x07, 0x08, 0x09, 0x0A, 0x0B]
  }

  function AcLumaLow(): (r: seq<byte>)
    ensures |r| == 80
  {
    [0x01, 0x02, 0x03, 0x00, 0x04, 0x11, 0x05, 0x12, 0x21, 0x31, 0x41, 0x06, 0x13, 0x51, 0x61, 0x07]
    + [0x22, 0x71, 0x14, 0x32, 0x81, 0x91, 0xA1, 0x08, 0x23, 0x42, 0xB1, 0xC1, 0x15, 0x52, 0xD1, 0xF0]
    + [0x24, 0x33, 0x62, 0x72, 0x82, 0x09, 0x0A, 0x16, 0x17, 0x18, 0x19, 0x1A, 0x25, 0x26, 0x27, 0x28]
    + [0x29, 0x2A, 0x34, 0x35, 0x36, 0x37, 0x38, 0x39, 0x3A, 0x43, 0x44, 0x45, 0x46, 0x47, 0x48, 0x49]
    + [0x4A, 0x53, 0x54, 0x55, 0x56, 0x57, 0x58, 0x59, 0x5A, 0x63, 0x64, 0x65, 0x66, 0x67, 0x68, 0x69]
  }

  function AcLumaHigh(): (r: seq<byte>)
    ensures |r| == 82
  {
    [0x6A, 0x73, 0x74, 0x75, 0x76, 0x77, 0x78, 0x79, 0x7A, 0x83, 0x84, 0x85, 0x86, 0x87, 0x88, 0x89]
    + [0x8A, 0x92, 0x93, 0x94, 0x95, 0x96, 0x97, 0x98, 0x99, 0x9A, 0xA2, 0xA3, 0xA4, 0xA5, 0xA6, 0xA7]
    + [0xA8, 0xA9, 0xAA, 0xB2, 0xB3, 0xB4, 0xB5, 0xB6, 0xB7, 0xB8, 0xB9, 0xBA, 0xC2, 0xC3, 0xC4, 0xC5]
    + [0xC6, 0xC7, 0xC8, 0xC9, 0xCA, 0xD2, 0xD3, 0xD4, 0xD5, 0xD6, 0xD7, 0xD8, 0xD9, 0xDA, 0xE1, 0xE2]
    + [0xE3, 0xE4, 0xE5, 0xE6, 0xE7, 0xE8, 0xE9, 0xEA, 0xF1, 0xF2, 0xF3, 0xF4, 0xF5, 0xF6, 0xF7, 0xF8]
    + [0xF9, 0xFA]
  }

  function AcLumaFront(): (r: seq<byte>)
    ensures |r| == 21 && r[0] == 0xFF && r[1] == 0xC4 && r[2] == 0x00 && r[3] == 0xB5 && r[4] == 0x10
  {
    [0xFF, 0xC4, 0x00, 0xB5, 0x10]
    + [0x00, 0x02, 0x01, 0x03, 0x03, 0x02, 0x04, 0x03, 0x05, 0x05, 0x04, 0x04, 0x00, 0x00, 0x01, 0x7D]
  }

  /** AC luminance. */
  function AcLuma(): (r: seq<byte>)
    ensures |r| == 183 && r[0] == 0xFF && r[1] == 0xC4 && r[2] == 0x00 && r[3] == 0xB5 && r[4] == 0x10
  {
    AcLumaFront() + AcLumaLow() + AcLumaHigh()
  }

  function AcChromaLow(): (r: seq<byte>)
    ensures |r| == 80
  {
    [0x00, 0x01, 0x02, 0x03, 0x11, 0x04, 0x05, 0x21, 0x31, 0x06, 0x12, 0x41, 0x51, 0x07, 0x61, 0x71]
    + [0x13, 0x22, 0x32, 0x81, 0x08, 0x14, 0x42, 0x91, 0xA1, 0xB1, 0xC1, 0x09, 0x23, 0x33, 0x52, 0xF0]
    + [0x15, 0x62, 0x72, 0xD1, 0x0A, 0x16, 0x24, 0x34, 0xE1, 0x25, 0xF1, 0x17, 0x18, 0x19, 0x1A, 0x26]
    + [0x27, 0x28, 0x29, 0x2A, 0x35, 0x36, 0x37, 0x38, 0x39, 0x3A, 0x43, 0x44, 0x45, 0x46, 0x47, 0x48]
    + [0x49, 0x4A, 0x53, 0x54, 0x55, 0x56, 0x57, 0x58, 0x59, 0x5A, 0x63, 0x64, 0x65, 0x66, 0x67, 0x68]
  }

  function AcChromaHigh(): (r: seq<byte>)
    ensures |r| == 82
  {
    [0x69, 0x6A, 0x73, 0x74, 0x75, 0x76, 0x77, 0x78, 0x79, 0x7A, 0x82, 0x83, 0x84, 0x85, 0x86, 0x87]
    + [0x88, 0x89, 0x8A, 0x92, 0x93, 0x94, 0x95, 0x96, 0x97, 0x98, 0x99, 0x9A, 0xA2, 0xA3, 0xA4, 0xA5]
    + [0xA6, 0xA7, 0xA8, 0xA9, 0xAA, 0xB2, 0xB3, 0xB4, 0xB5, 0xB6, 0xB7, 0xB8, 0xB9, 0xBA, 0xC2, 0xC3]
    + [0xC4, 0xC5, 0xC6, 0xC7, 0xC8, 0xC9, 0xCA, 0xD2, 0xD3, 0xD4, 0xD5, 0xD6, 0xD7, 0xD8, 0xD9, 0xDA]
    + [0xE2, 0xE3, 0xE4, 0xE5, 0xE6, 0xE7, 0xE8, 0xE9, 0xEA, 0xF2, 0xF3, 0xF4, 0xF5, 0xF6, 0xF7, 0xF8]
    + [0xF9, 0xFA]
  }

  function AcChromaFront(): (r: seq<byte>)
    ensures |r| == 21 && r[0] == 0xFF && r[1] == 0xC4 && r[2] == 0x00 && r[3] == 0xB5 && r[4] == 0x11
  {
    [0xFF, 0xC4, 0x00, 0xB5, 0x11]
    + [0x00, 0x02, 0x01, 0x02, 0x04, 0x04, 0x03, 0x04, 0x07, 0x05, 0x04, 0x04, 0x00, 0x01, 0x02, 0x77]
  }

  /** AC chrominance. */
  function AcChroma(): (r: seq<byte>)
    ensures |r| == 183 && r[0] == 0xFF && r[1] == 0xC4 && r[2] == 0x00 && r[3] == 0xB5 && r[4] == 0x11
  {
    AcChromaFront() + AcChromaLow() + AcChromaHigh()
  }

  function StandardTables(): (r: seq<byte>)
    ensures |r| == 432 && r[..2] == [0xFF, 0xC4]
  {
    DcLuma() + DcChroma() + AcLuma() + AcChroma()
  }

  // ----- finding a marker -----

  predicate PairAt(data: seq<byte>, x: byte, i: int) {
    0 <= i < |data| - 1 && data[i] == 0xFF && data[i + 1] == x
  }

  /** The first position at or after `i` of the byte pair FF `x`. */
  function FindFrom(data: seq<byte>, x: byte, i: nat): (r: Option<nat>)
    ensures r.Some? ==> i <= r.value && PairAt(data, x, r.value) && forall k :: i <= k < r.value ==> !PairAt(data, x, k)
    ensures r.None? ==> forall k :: i <= k ==> !PairAt(data, x, k)
    decreases |data| - i
  {
    if i + 1 >= |data| then None
    else if PairAt(data, x, i) then Some(i)
    else FindFrom(data, x, i + 1)
  }

  function Find(data: seq<byte>, x: byte): Option<nat> {
    FindFrom(data, x, 0)
  }

  lemma FindIs(data: seq<byte>, x: byte, p: nat)
    requires PairAt(data, x, p) && forall k :: 0 <= k < p ==> !PairAt(data, x, k)
    ensures Find(data, x) == Some(p)
  {}

  // ----- injection -----

  function Insert(data: seq<byte>, at: nat, tables: seq<byte>): seq<byte>
    requires at <= |data|
  {
    data[..at] + tables + data[at..]
  }

  function Inject(data: seq<byte>, tables: seq<byte>): seq<byte> {
    if Find(data, 0xC4).Some? then data
    else
      match Find(data, 0xDA)
      case Some(sos) => Insert(data, sos, tables)
      case None => data
  }

  method InjectStandardDht(data: seq<byte>) returns (out: seq<byte>)
    ensures out == Inject(data, StandardTables())
  {
    if Find(data, 0xC4).Some? {
      return data;
    }
    var found := Find(data, 0xDA);
    match found {
      case Some(sos) =>
        out := data[..sos];
        out := out + DcLuma();
        out := out + DcChroma();
        out := out + AcLuma();
        out := out + AcChroma();
        out := out + data[sos..];
        Regroup(data[..sos], DcLuma(), DcChroma(), AcLuma(), AcChroma());
      case None =>
        out := data;
    }
  }

  lemma Regroup(a: seq<byte>, b: seq<byte>, c: seq<byte>, d: seq<byte>, e: seq<byte>)
    ensures a + b + c + d + e == a + (b + c + d + e)
  {}

  predicate StartsWithDht(tables: seq<byte>) {
    |tables| >= 2 && tables[0] == 0xFF && tables[1] == 0xC4
  }

  /** The bytes in front of the insertion stay free of a DHT pair, even where they meet it. */
  lemma InsertedPairIsFirst(data: seq<byte>, at: nat, tables: seq<byte>)
    requires StartsWithDht(tables) && at <= |data| && Find(data, 0xC4).None?
    ensures Find(Insert(data, at, tables), 0xC4) == Some(at)
  {
    var out := Insert(data, at, tables);
    assert out[at] == 0xFF && out[at + 1] == 0xC4;
    forall k | 0 <= k < at ensures !PairAt(out, 0xC4, k) {
      assert out[k] == data[k];
      if k + 1 < at {
        assert out[k + 1] == data[k + 1];
        assert !PairAt(data, 0xC4, k);
      }
    }
    FindIs(out, 0xC4, at);
  }

  /** Injecting twice is injecting once. */
  lemma InjectIdempotent(data: seq<byte>, tables: seq<byte>)
    requires StartsWithDht(tables)
    ensures Inject(Inject(data, tables), tables) == Inject(data, tables)
  {
    if Find(data, 0xC4).None? && Find(data, 0xDA).Some? {
      InsertedPairIsFirst(data, Find(data, 0xDA).value, tables);
    }
  }

  /** Deletes `size` bytes at the first DHT pair. */
  function RemoveTables(data: seq<byte>, size: nat): seq<byte> {
    match Find(data, 0xC4)
    case Some(p) => if p + size <= |data| then data[..p] + data[p + size..] else data
    case None => data
  }

  /** Deleting the inserted bytes at the first DHT pair undoes the injection. */
  lemma RemoveUndoesInject(data: seq<byte>, tables: seq<byte>)
    requires StartsWithDht(tables) && Find(data, 0xC4).None?
    ensures Inject(data, tables) != data ==> RemoveTables(Inject(data, tables), |tables|) == data
    ensures Inject(data, tables) == data <==> Find(data, 0xDA).None?
  {
    match Find(data, 0xDA) {
      case Some(sos) =>
        InsertedPairIsFirst(data, sos, tables);
        var out := Insert(data, sos, tables);
        assert out[..sos] == data[..sos];
        assert out[sos + |tables|..] == data[sos..];
        assert |out| == |data| + |tables|;
      case None =>
    }
  }

  /** A complete JPEG frame stays one. */
  lemma InjectKeepsComplete(data: seq<byte>, tables: seq<byte>)
    requires IsCompleteJpeg(data)
    ensures IsCompleteJpeg(Inject(data, tables))
  {
    if Find(data, 0xC4).None? && Find(data, 0xDA).Some? {
      var sos := Find(data, 0xDA).value;
      assert sos >= 2 && sos + 2 <= |data| - 2 + 1;
    }
  }

  /** Where the bytes hold no DHT pair, only one insertion point gives the same result. */
  lemma InsertionPointUnique(data: seq<byte>, p: nat, q: nat, tables: seq<byte>)
    requires StartsWithDht(tables) && Find(data, 0xC4).None? && p <= |data| && q <= |data|
    requires Insert(data, p, tables) == Insert(data, q, tables)
    ensures p == q
  {
    InsertedPairIsFirst(data, p, tables);
    InsertedPairIsFirst(data, q, tables);
  }

  // ----- segments (sections B.1.1.4 and B.2.1 of ITU-T T.81) -----

  datatype Segment = Segment(marker: byte, payload: seq<byte>)

  /** The segments between SOI and the first scan, and everything from its SOS marker on. */
  datatype Jpeg = Jpeg(segments: seq<Segment>, scan: seq<byte>)

  /** Markers that a length field follows, other than SOS. */
  predicate HasLength(marker: byte) {
    0xC0 <= marker <= 0xFE && !(0xD0 <= marker <= 0xD9) && marker != 0xDA
  }

  predicate ValidSegment(s: Segment) {
    HasLength(s.marker) && |s.payload| + 2 < 0x1_0000
  }

  predicate ValidJpeg(j: Jpeg) {
    && (forall k :: 0 <= k < |j.segments| ==> ValidSegment(j.segments[k]))
    && |j.scan| >= 2 && j.scan[0] == 0xFF && j.scan[1] == 0xDA
  }

  function EncodeSegment(s: Segment): seq<byte>
    requires ValidSegment(s)
  {
    [0xFF, s.marker] + Be16(|s.payload| + 2) + s.payload
  }

  function EncodeSegments(ss: seq<Segment>): seq<byte>
    requires forall k :: 0 <= k < |ss| ==> ValidSegment(ss[k])
  {
    if ss == [] then [] else EncodeSegment(ss[0]) + EncodeSegments(ss[1..])
  }

  function Encode(j: Jpeg): seq<byte>
    requires ValidJpeg(j)
  {
    [0xFF, 0xD8] + EncodeSegments(j.segments) + j.scan
  }

  function DecodeSegments(b: seq<byte>): Option<Jpeg> {
    if |b| < 2 || b[0] != 0xFF then None
    else if b[1] == 0xDA then Some(Jpeg([], b))
    else if !HasLength(b[1]) || |b| < 4 then None
    else
      var len := FromBe16(b[2..4]);
      if len < 2 || len + 2 > |b| then None
      else
        match DecodeSegments(b[len + 2..])
        case None => None
        case Some(j) => Some(Jpeg([Segment(b[1], b[4..len + 2])] + j.segments, j.scan))
  }

  function Decode(b: seq<byte>): Option<Jpeg> {
    if |b| >= 2 && b[..2] == [0xFF, 0xD8] then DecodeSegments(b[2..]) else None
  }

  lemma SegmentDecodes(s: Segment, rest: seq<byte>)
    requires ValidSegment(s)
    ensures var b := EncodeSegment(s) + rest;
            && |b| == |s.payload| + 4 + |rest| && b[0] == 0xFF && b[1] == s.marker
            && FromBe16(b[2..4]) == |s.payload| + 2
            && b[4..|s.payload| + 4] == s.payload && b[|s.payload| + 4..] == rest
  {
    Be16RoundTrip(|s.payload| + 2);
    var b := EncodeSegment(s) + rest;
    assert b[2..4] == Be16(|s.payload| + 2);
  }

  lemma ConsSegment(s: Segment, rest: Jpeg)
    requires ValidSegment(s) && ValidJpeg(rest)
    ensures ValidJpeg(Jpeg([s] + rest.segments, rest.scan))
    ensures EncodeSegments([s] + rest.segments) + rest.scan
         == EncodeSegment(s) + (EncodeSegments(rest.segments) + rest.scan)
  {
    assert ([s] + rest.segments)[1..] == rest.segments;
    AppendAssociative(EncodeSegment(s), EncodeSegments(rest.segments), rest.scan);
  }

  lemma {:induction false} SegmentsDecode(j: Jpeg)
    requires ValidJpeg(j)
    ensures DecodeSegments(EncodeSegments(j.segments) + j.scan) == Some(j)
    decreases |j.segments|
  {
    if j.segments == [] {
      assert EncodeSegments(j.segments) + j.scan == j.scan;
    } else {
      var s, rest := j.segments[0], Jpeg(j.segments[1..], j.scan);
      SegmentsDecode(rest);
      assert [s] + rest.segments == j.segments;
      ConsSegment(s, rest);
      SegmentDecodes(s, EncodeSegments(rest.segments) + j.scan);
    }
  }

  /** The encoding determines the segments. */
  lemma DecodeEncode(j: Jpeg)
    requires ValidJpeg(j)
    ensures Decode(Encode(j)) == Some(j)
  {
    SegmentsDecode(j);
    var body := EncodeSegments(j.segments) + j.scan;
    AppendAssociative([0xFF, 0xD8], EncodeSegments(j.segments), j.scan);
    assert ([0xFF, 0xD8] + body)[2..] == body;
  }

  lemma {:induction false} EncodeSegmentsAppend(a: seq<Segment>, b: seq<Segment>)
    requires forall k :: 0 <= k < |a| ==> ValidSegment(a[k])
    requires forall k :: 0 <= k < |b| ==> ValidSegment(b[k])
    ensures EncodeSegments(a + b) == EncodeSegments(a) + EncodeSegments(b)
  {
    if a == [] {
      assert a + b == b;
    } else {
      EncodeSegmentsAppend(a[1..], b);
      assert (a + b)[1..] == a[1..] + b;
      AppendAssociative(EncodeSegment(a[0]), EncodeSegments(a[1..]), EncodeSegments(b));
    }
  }

  function WithTables(j: Jpeg, dht: seq<Segment>): Jpeg {
    Jpeg(j.segments + dht, j.scan)
  }

  function SosPosition(j: Jpeg): (p: nat)
    requires ValidJpeg(j)
    ensures p <= |Encode(j)| && Encode(j)[..p] == [0xFF, 0xD8] + EncodeSegments(j.segments) && Encode(j)[p..] == j.scan
  {
    2 + |EncodeSegments(j.segments)|
  }

  lemma WithTablesValid(j: Jpeg, dht: seq<Segment>)
    requires ValidJpeg(j) && forall k :: 0 <= k < |dht| ==> ValidSegment(dht[k])
    ensures ValidJpeg(WithTables(j, dht))
  {}

  lemma EncodeWithTables(j: Jpeg, dht: seq<Segment>)
    requires ValidJpeg(j) && forall k :: 0 <= k < |dht| ==> ValidSegment(dht[k])
    ensures ValidJpeg(WithTables(j, dht))
    ensures Encode(WithTables(j, dht)) == Insert(Encode(j), SosPosition(j), EncodeSegments(dht))
  {
    WithTablesValid(j, dht);
    EncodeSegmentsAppend(j.segments, dht);
    var soi: seq<byte>, before, tables := [0xFF, 0xD8], EncodeSegments(j.segments), EncodeSegments(dht);
    calc {
      Encode(WithTables(j, dht));
      soi + (before + tables) + j.scan;
      { AppendAssociative(soi, before, tables); }
      (soi + before) + tables + j.scan;
      Insert(Encode(j), SosPosition(j), tables);
    }
  }

  predicate TableSegments(dht: seq<Segment>) {
    dht != [] && forall k :: 0 <= k < |dht| ==> ValidSegment(dht[k]) && dht[k].marker == 0xC4
  }

  lemma TablesStartWithDht(dht: seq<Segment>)
    requires TableSegments(dht)
    ensures StartsWithDht(EncodeSegments(dht))
  {}

  /** In a JPEG without a DHT pair whose first SOS pair is the SOS marker, injection adds the table
      segments in front of SOS and changes nothing else. */
  lemma InjectAddsSegments(j: Jpeg, dht: seq<Segment>)
    requires ValidJpeg(j) && TableSegments(dht)
    requires Find(Encode(j), 0xC4).None? && Find(Encode(j), 0xDA) == Some(SosPosition(j))
    ensures Decode(Inject(Encode(j), EncodeSegments(dht))) == Some(WithTables(j, dht))
  {
    EncodeWithTables(j, dht);
    DecodeEncode(WithTables(j, dht));
  }

  /** And in no other. */
  lemma OnlyThenAddsSegments(j: Jpeg, dht: seq<Segment>)
    requires ValidJpeg(j) && TableSegments(dht)
    requires Decode(Inject(Encode(j), EncodeSegments(dht))) == Some(WithTables(j, dht))
    ensures Find(Encode(j), 0xC4).None? && Find(Encode(j), 0xDA) == Some(SosPosition(j))
  {
    var data, tables := Encode(j), EncodeSegments(dht);
    var out := Inject(data, tables);
    DecodeEncode(j);
    assert out != data by {
      assert |WithTables(j, dht).segments| > |j.segments|;
    }
    DecodedIsEncoding(out, WithTables(j, dht));
    EncodeWithTables(j, dht);
    TablesStartWithDht(dht);
    InsertionPointUnique(data, Find(data, 0xDA).value, SosPosition(j), tables);
  }

  /** Injection adds the table segments in front of SOS, and changes nothing else, if and only if
      no DHT pair occurs anywhere and the first SOS pair is the SOS marker. */
  lemma InjectAddsSegmentsIff(j: Jpeg, dht: seq<Segment>)
    requires ValidJpeg(j) && TableSegments(dht)
    ensures Decode(Inject(Encode(j), EncodeSegments(dht))) == Some(WithTables(j, dht))
        <==> (Find(Encode(j), 0xC4).None? && Find(Encode(j), 0xDA) == Some(SosPosition(j)))
  {
    if Find(Encode(j), 0xC4).None? && Find(Encode(j), 0xDA) == Some(SosPosition(j)) {
      InjectAddsSegments(j, dht);
    } else if Decode(Inject(Encode(j), EncodeSegments(dht))) == Some(WithTables(j, dht)) {
      OnlyThenAddsSegments(j, dht);
    }
  }

  /** Decoding loses nothing: what decodes to `j` is its encoding. */
  lemma DecodedIsEncoding(b: seq<byte>, j: Jpeg)
    requires Decode(b) == Some(j)
    ensures ValidJpeg(j) && Encode(j) == b
  {
    SegmentsEncode(b[2..], j);
    AppendAssociative([0xFF, 0xD8], EncodeSegments(j.segments), j.scan);
    assert b == [0xFF, 0xD8] + b[2..];
  }

  lemma SegmentEncodes(b: seq<byte>, len: nat)
    requires 4 <= len + 2 <= |b| && b[0] == 0xFF && HasLength(b[1]) && len == FromBe16(b[2..4])
    ensures ValidSegment(Segment(b[1], b[4..len + 2])) && EncodeSegment(Segment(b[1], b[4..len + 2])) == b[..len + 2]
  {
    Be16Inverse(b[2..4]);
    assert b[..len + 2] == [b[0], b[1]] + b[2..4] + b[4..len + 2];
  }

  lemma OneMoreSegment(b: seq<byte>, len: nat, rest: Jpeg)
    requires 4 <= len + 2 <= |b| && b[0] == 0xFF && HasLength(b[1]) && len == FromBe16(b[2..4])
    requires ValidJpeg(rest) && EncodeSegments(rest.segments) + rest.scan == b[len + 2..]
    ensures var segments := [Segment(b[1], b[4..len + 2])] + rest.segments;
            ValidJpeg(Jpeg(segments, rest.scan)) && EncodeSegments(segments) + rest.scan == b
  {
    SegmentEncodes(b, len);
    ConsSegment(Segment(b[1], b[4..len + 2]), rest);
    assert b[..len + 2] + b[len + 2..] == b;
  }

  lemma {:induction false} SegmentsEncode(b: seq<byte>, j: Jpeg)
    requires DecodeSegments(b) == Some(j)
    ensures ValidJpeg(j) && EncodeSegments(j.segments) + j.scan == b
    decreases |b|
  {
    if b[1] == 0xDA {
      assert j == Jpeg([], b);
      assert EncodeSegments([]) + b == b;
    } else {
      var len: nat := FromBe16(b[2..4]);
      var rest := DecodeSegments(b[len + 2..]).value;
      SegmentsEncode(b[len + 2..], rest);
      OneMoreSegment(b, len, rest);
    }
  }

  lemma Be16Inverse(b: seq<byte>)
    requires |b| == 2
    ensures Be16(FromBe16(b)) == b
  {}

  // ----- the standard tables are four DHT segments -----

  /** A DHT segment as the code stores it: marker, length, class and destination, then the 16
      code-length counts and the symbols they count (section B.2.4.2). */
  predicate IsTable(table: seq<byte>, id: byte) {
    && 21 <= |table| < 0x1_0000 && table[0] == 0xFF && table[1] == 0xC4
    && FromBe16(table[2..4]) == |table| - 2 && table[4] == id
    && Sum(table[5..21]) == |table| - 21
  }

  function Sum(counts: seq<byte>): nat {
    if counts == [] then 0 else counts[0] as int + Sum(counts[1..])
  }

  function TableSegment(table: seq<byte>): Segment
    requires |table| >= 4
  {
    Segment(0xC4, table[4..])
  }

  lemma TableIsSegment(table: seq<byte>, id: byte)
    requires IsTable(table, id)
    ensures ValidSegment(TableSegment(table)) && EncodeSegment(TableSegment(table)) == table
  {
    Be16Inverse(table[2..4]);
    assert table == [0xFF, 0xC4] + table[2..4] + table[4..];
  }

  function Total(c: seq<byte>): int
    requires |c| == 16
  {
    c[0] as int + c[1] as int + c[2] as int + c[3] as int + c[4] as int + c[5] as int + c[6] as int + c[7] as int
    + c[8] as int + c[9] as int + c[10] as int + c[11] as int + c[12] as int + c[13] as int + c[14] as int
    + c[15] as int
  }

  lemma SumOf16(c: seq<byte>)
    requires |c| == 16
    ensures Sum(c) == Total(c)
  {
    SumOf4(c);
    SumOf4(c[4..]);
    SumOf4(c[8..]);
    SumOf4(c[12..]);
    assert c[4..][4..] == c[8..] && c[8..][4..] == c[12..] && c[12..][4..] == [];
  }

  lemma SumOf4(c: seq<byte>)
    requires |c| >= 4
    ensures Sum(c) == c[0] as int + c[1] as int + c[2] as int + c[3] as int + Sum(c[4..])
  {
    assert c[1..][1..] == c[2..] && c[2..][1..] == c[3..] && c[3..][1..] == c[4..];
    assert Sum(c) == c[0] as int + Sum(c[1..]);
    assert Sum(c[1..]) == c[1] as int + Sum(c[2..]);
    assert Sum(c[2..]) == c[2] as int + Sum(c[3..]);
  }

  lemma TableParts(head: seq<byte>, counts: seq<byte>, symbols: seq<byte>)
    requires |head| == 5 && |counts| == 16 && head[0] == 0xFF && head[1] == 0xC4
    requires 0x100 * head[2] as int + head[3] as int == 19 + |symbols| && Total(counts) == |symbols|
    ensures IsTable(head + counts + symbols, head[4])
  {
    var table := head + counts + symbols;
    assert table[2..4] == [head[2], head[3]] && table[5..21] == counts;
    SumOf16(counts);
  }

  lemma DcLumaIsTable()
    ensures IsTable(DcLuma(), 0x00)
  {
    var head: seq<byte> := [0xFF, 0xC4, 0x00, 0x1F, 0x00];
    var counts: seq<byte> := [0x00, 0x01, 0x05, 0x01, 0x01, 0x01, 0x01, 0x01,
                              0x01, 0x00, 0x00, 0x00, 0x00, 0x00, 0x00, 0x00];
    TableParts(head, counts, [0x00, 0x01, 0x02, 0x03, 0x04, 0x05, 0x06, 0x07, 0x08, 0x09, 0x0A, 0x0B]);
  }

  lemma DcChromaIsTable()
    ensures IsTable(DcChroma(), 0x01)
  {
    var head: seq<byte> := [0xFF, 0xC4, 0x00, 0x1F, 0x01];
    var counts: seq<byte> := [0x00, 0x03, 0x01, 0x01, 0x01, 0x01, 0x01, 0x01,
                              0x01, 0x01, 0x01, 0x00, 0x00, 0x00, 0x00, 0x00];
    TableParts(head, counts, [0x00, 0x01, 0x02, 0x03, 0x04, 0x05, 0x06, 0x07, 0x08, 0x09, 0x0A, 0x0B]);
  }

  lemma AcLumaIsTable()
    ensures IsTable(AcLuma(), 0x10)
  {
    var head: seq<byte> := [0xFF, 0xC4, 0x00, 0xB5, 0x10];
    var counts: seq<byte> := [0x00, 0x02, 0x01, 0x03, 0x03, 0x02, 0x04, 0x03,
                              0x05, 0x05, 0x04, 0x04, 0x00, 0x00, 0x01, 0x7D];
    TableParts(head, counts, AcLumaLow() + AcLumaHigh());
    AppendAssociative(head + counts, AcLumaLow(), AcLumaHigh());
  }

  lemma AcChromaIsTable()
    ensures IsTable(AcChroma(), 0x11)
  {
    var head: seq<byte> := [0xFF, 0xC4, 0x00, 0xB5, 0x11];
    var counts: seq<byte> := [0x00, 0x02, 0x01, 0x02, 0x04, 0x04, 0x03, 0x04,
                              0x07, 0x05, 0x04, 0x04, 0x00, 0x01, 0x02, 0x77];
    TableParts(head, counts, AcChromaLow() + AcChromaHigh());
    AppendAssociative(head + counts, AcChromaLow(), AcChromaHigh());
  }

  function StandardSegments(): seq<Segment> {
    [TableSegment(DcLuma()), TableSegment(DcChroma()), TableSegment(AcLuma()), TableSegment(AcChroma())]
  }

  /** The 432 inserted bytes are four well-formed DHT segments, one for each class and destination. */
  lemma StandardTablesAreSegments()
    ensures TableSegments(StandardSegments()) && EncodeSegments(StandardSegments()) == StandardTables()
  {
    DcLumaIsTable();
    DcChromaIsTable();
    AcLumaIsTable();
    AcChromaIsTable();
    FourTables(DcLuma(), DcChroma(), AcLuma(), AcChroma());
  }

  lemma FourTables(a: seq<byte>, b: seq<byte>, c: seq<byte>, d: seq<byte>)
    requires IsTable(a, 0x00) && IsTable(b, 0x01) && IsTable(c, 0x10) && IsTable(d, 0x11)
    ensures var dht := [TableSegment(a), TableSegment(b), TableSegment(c), TableSegment(d)];
            TableSegments(dht) && EncodeSegments(dht) == a + b + c + d
  {
    TableIsSegment(a, 0x00);
    TableIsSegment(b, 0x01);
    TableIsSegment(c, 0x10);
    TableIsSegment(d, 0x11);
    var s, t, u, v := TableSegment(a), TableSegment(b), TableSegment(c), TableSegment(d);
    OneSegment(v);
    EncodeSegmentsAppend([u], [v]);
    OneSegment(u);
    EncodeSegmentsAppend([s], [t]);
    OneSegment(s);
    OneSegment(t);
    EncodeSegmentsAppend([s] + [t], [u] + [v]);
    assert ([s] + [t]) + ([u] + [v]) == [s, t, u, v];
    AppendAssociative(a + b, c, d);
  }

  lemma OneSegment(s: Segment)
    requires ValidSegment(s)
    ensures EncodeSegments([s]) == EncodeSegment(s)
  {
    assert [s][1..] == [];
  }

  /** What the code does to a JPEG, with its own tables. */
  lemma StandardInjectionIff(j: Jpeg)
    requires ValidJpeg(j)
    ensures Decode(Inject(Encode(j), StandardTables())) == Some(WithTables(j, StandardSegments()))
        <==> (Find(Encode(j), 0xC4).None? && Find(Encode(j), 0xDA) == Some(SosPosition(j)))
  {
    StandardTablesAreSegments();
    InjectAddsSegmentsIff(j, StandardSegments());
  }
}
