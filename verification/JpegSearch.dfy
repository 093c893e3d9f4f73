/** When the byte search of inject_standard_dht (usb-wasi-guest/examples/webcam/src/webcam.rs) finds
    the markers it looks for, segment by segment, and where it is misled. */
module JpegSearch {
  import opened UsbBase
  import opened JpegDht

  /** The bytes of a segment behind its marker: length field and payload. */
  function Body(s: Segment): seq<byte>
    requires ValidSegment(s)
  {
    Be16(|s.payload| + 2) + s.payload
  }

  /** Not a table itself, and neither its length field nor its payload, nor the two where they meet,
      hold a pair the search could take for a marker. */
  predicate CleanSegment(s: Segment)
    requires ValidSegment(s)
  {
    s.marker != 0xC4 && Find(Body(s), 0xC4).None? && Find(Body(s), 0xDA).None?
  }

  predicate CleanSegments(ss: seq<Segment>)
    requires forall k :: 0 <= k < |ss| ==> ValidSegment(ss[k])
  {
    forall k :: 0 <= k < |ss| ==> CleanSegment(ss[k])
  }

  /** No pair FF `x` before position `n`. */
  predicate NoPairBefore(data: seq<byte>, x: byte, n: int) {
    forall k :: 0 <= k < n ==> !PairAt(data, x, k)
  }

  lemma FindNoneIff(data: seq<byte>, x: byte)
    ensures Find(data, x).None? <==> NoPairBefore(data, x, |data|)
  {
    if Find(data, x).Some? {
      assert PairAt(data, x, Find(data, x).value);
    }
  }

  /** Behind bytes that are followed by an FF, a pair lies in one part or the other. */
  lemma PairsSplit(a: seq<byte>, b: seq<byte>, x: byte, n: nat)
    requires x != 0xFF && b != [] && b[0] == 0xFF
    ensures NoPairBefore(a + b, x, |a| + n) <==> NoPairBefore(a, x, |a|) && NoPairBefore(b, x, n)
  {
    var all := a + b;
    forall k: int | 0 <= k < |a| ensures PairAt(all, x, k) <==> PairAt(a, x, k) {}
    forall k: int | 0 <= k ensures PairAt(all, x, |a| + k) <==> PairAt(b, x, k) {}
    if NoPairBefore(all, x, |a| + n) {
      forall k | 0 <= k < n ensures !PairAt(b, x, k) {
        assert !PairAt(all, x, |a| + k);
      }
    }
    if NoPairBefore(a, x, |a|) && NoPairBefore(b, x, n) {
      forall k | 0 <= k < |a| + n ensures !PairAt(all, x, k) {
        if k >= |a| {
          assert !PairAt(b, x, k - |a|);
        }
      }
    }
  }

  /** A segment holds the pair in its marker or its body. */
  lemma PairsInSegment(s: Segment, x: byte)
    requires ValidSegment(s) && x != 0xFF
    ensures NoPairBefore(EncodeSegment(s), x, |EncodeSegment(s)|) <==> s.marker != x && Find(Body(s), x).None?
  {
    var e, body := EncodeSegment(s), Body(s);
    assert e == [0xFF, s.marker] + body;
    FindNoneIff(body, x);
    forall k: int | 0 <= k ensures PairAt(e, x, k + 2) <==> PairAt(body, x, k) {}
    assert PairAt(e, x, 0) <==> s.marker == x;
    assert !PairAt(e, x, 1);
    if NoPairBefore(e, x, |e|) {
      forall k | 0 <= k < |body| ensures !PairAt(body, x, k) {
        assert !PairAt(e, x, k + 2);
      }
    }
    if s.marker != x && NoPairBefore(body, x, |body|) {
      forall k | 0 <= k < |e| ensures !PairAt(e, x, k) {
        if k >= 2 { assert !PairAt(body, x, k - 2); }
      }
    }
  }

  predicate NoPairIn(ss: seq<Segment>, x: byte)
    requires forall k :: 0 <= k < |ss| ==> ValidSegment(ss[k])
  {
    forall k :: 0 <= k < |ss| ==> ss[k].marker != x && Find(Body(ss[k]), x).None?
  }

  lemma NoPairInCons(ss: seq<Segment>, x: byte)
    requires ss != [] && forall k :: 0 <= k < |ss| ==> ValidSegment(ss[k])
    ensures NoPairIn(ss, x) <==> ss[0].marker != x && Find(Body(ss[0]), x).None? && NoPairIn(ss[1..], x)
  {
    if NoPairIn(ss[1..], x) && ss[0].marker != x && Find(Body(ss[0]), x).None? {
      forall k | 0 <= k < |ss| ensures ss[k].marker != x && Find(Body(ss[k]), x).None? {
        if k > 0 { assert ss[k] == ss[1..][k - 1]; }
      }
    }
  }

  lemma {:induction false} PairsInSegments(ss: seq<Segment>, tail: seq<byte>, x: byte, n: nat)
    requires forall k :: 0 <= k < |ss| ==> ValidSegment(ss[k])
    requires x != 0xFF && tail != [] && tail[0] == 0xFF
    ensures var data := EncodeSegments(ss) + tail;
            NoPairBefore(data, x, |EncodeSegments(ss)| + n) <==> NoPairIn(ss, x) && NoPairBefore(tail, x, n)
  {
    if ss == [] {
      assert EncodeSegments(ss) + tail == tail;
    } else {
      var first, rest := EncodeSegment(ss[0]), EncodeSegments(ss[1..]);
      AppendAssociative(first, rest, tail);
      PairsInSegments(ss[1..], tail, x, n);
      StartsWithMarker(ss[1..], tail);
      PairsSplit(first, rest + tail, x, |rest| + n);
      PairsInSegment(ss[0], x);
      NoPairInCons(ss, x);
    }
  }

  lemma StartsWithMarker(ss: seq<Segment>, tail: seq<byte>)
    requires forall k :: 0 <= k < |ss| ==> ValidSegment(ss[k])
    requires tail != [] && tail[0] == 0xFF
    ensures var data := EncodeSegments(ss) + tail; data != [] && data[0] == 0xFF
  {}

  lemma PairsBehindSoi(rest: seq<byte>, x: byte, n: nat)
    requires (x == 0xC4 || x == 0xDA) && rest != [] && rest[0] == 0xFF
    ensures NoPairBefore([0xFF, 0xD8] + rest, x, 2 + n) <==> NoPairBefore(rest, x, n)
  {
    PairsSplit([0xFF, 0xD8], rest, x, n);
  }

  lemma PairsInJpeg(j: Jpeg, x: byte, n: nat)
    requires ValidJpeg(j) && (x == 0xC4 || x == 0xDA)
    ensures NoPairBefore(Encode(j), x, SosPosition(j) + n) <==> NoPairIn(j.segments, x) && NoPairBefore(j.scan, x, n)
  {
    var segments := EncodeSegments(j.segments);
    StartsWithMarker(j.segments, j.scan);
    PairsInSegments(j.segments, j.scan, x, n);
    PairsBehindSoi(segments + j.scan, x, |segments| + n);
    assert Encode(j) == [0xFF, 0xD8] + (segments + j.scan) by {
      AppendAssociative([0xFF, 0xD8], segments, j.scan);
    }
  }

  /** The search finds the markers it looks for if and only if every segment is clean and the scan
      holds no DHT pair. */
  lemma SearchFindsMarkersIff(j: Jpeg)
    requires ValidJpeg(j)
    ensures Find(Encode(j), 0xC4).None? && Find(Encode(j), 0xDA) == Some(SosPosition(j))
        <==> CleanSegments(j.segments) && Find(j.scan, 0xC4).None?
  {
    var data, sos := Encode(j), SosPosition(j);
    PairsInJpeg(j, 0xC4, |j.scan|);
    PairsInJpeg(j, 0xDA, 0);
    FindNoneIff(data, 0xC4);
    FindNoneIff(j.scan, 0xC4);
    assert data[sos..][0] == data[sos] && data[sos..][1] == data[sos + 1];
    assert PairAt(data, 0xDA, sos);
    assert |data| == sos + |j.scan|;
    if NoPairBefore(data, 0xDA, sos) {
      FindIs(data, 0xDA, sos);
    }
    assert CleanSegments(j.segments) <==> NoPairIn(j.segments, 0xC4) && NoPairIn(j.segments, 0xDA);
  }

  /** What the code does to a JPEG, with its own tables, in terms of its segments. */
  lemma StandardInjectionBySegments(j: Jpeg)
    requires ValidJpeg(j)
    ensures Decode(Inject(Encode(j), StandardTables())) == Some(WithTables(j, StandardSegments()))
        <==> CleanSegments(j.segments) && Find(j.scan, 0xC4).None?
  {
    StandardInjectionIff(j);
    SearchFindsMarkersIff(j);
  }

  // ----- where the byte search goes wrong -----

  /** An application segment whose payload holds the SOS pair: the tables land inside it. */
  lemma SosPairInPayload(scan: seq<byte>, tables: seq<byte>)
    requires |scan| >= 2 && scan[0] == 0xFF && scan[1] == 0xDA && Find(scan, 0xC4).None?
    ensures var j := Jpeg([Segment(0xE0, [0xFF, 0xDA])], scan);
            && ValidJpeg(j) && SosPosition(j) == 8
            && Inject(Encode(j), tables) == Insert(Encode(j), 6, tables)
  {
    var j := Jpeg([Segment(0xE0, [0xFF, 0xDA])], scan);
    OneSegment(j.segments[0]);
    var data := Encode(j);
    assert data == [0xFF, 0xD8, 0xFF, 0xE0, 0x00, 0x04, 0xFF, 0xDA] + scan;
    forall k | 0 <= k ensures !PairAt(data, 0xC4, k) {
      assert k >= 8 ==> !PairAt(scan, 0xC4, k - 8);
    }
    FindIs(data, 0xDA, 6);
  }

  /** An application segment whose payload holds the DHT pair: no tables are added. */
  lemma DhtPairInPayload(scan: seq<byte>, tables: seq<byte>)
    requires |scan| >= 2 && scan[0] == 0xFF && scan[1] == 0xDA
    ensures var j := Jpeg([Segment(0xE0, [0xFF, 0xC4])], scan);
            ValidJpeg(j) && Inject(Encode(j), tables) == Encode(j)
  {
    var j := Jpeg([Segment(0xE0, [0xFF, 0xC4])], scan);
    OneSegment(j.segments[0]);
    var data := Encode(j);
    assert data == [0xFF, 0xD8, 0xFF, 0xE0, 0x00, 0x04, 0xFF, 0xC4] + scan;
    assert PairAt(data, 0xC4, 6);
  }

  /** A length field can mislead it too: a segment of 0xFFDA bytes. */
  lemma LengthFieldMisleads(s: Segment)
    requires ValidSegment(s) && (|s.payload| + 2 == 0xFFDA || |s.payload| + 2 == 0xFFC4)
    ensures !CleanSegment(s)
  {
    var body := Body(s);
    assert PairAt(body, if |s.payload| + 2 == 0xFFDA then 0xDA else 0xC4, 0);
  }
}
