/** The walk over a configuration's descriptors (usb-wasi-guest/examples/lsusb.rs). */
module DescriptorWalk {
  import opened UsbBase

  /** What the walk prints of a descriptor, with the offset it stands at. */
  datatype Seen =
    | Interface(offset: nat, number: byte, alternate: byte, endpoints: byte)
    | Endpoint(offset: nat, address: byte, attributes: byte, maxPacket: u16, interval: byte)
    | Skipped(offset: nat)

  datatype Outcome = Printed(seen: seq<Seen>) | Panicked

  const INTERFACE: byte := 4
  const ENDPOINT: byte := 5

  /** How many bytes the walk reads of a descriptor of type `t`. */
  function BytesRead(t: byte): nat {
    if t == INTERFACE then 5 else if t == ENDPOINT then 7 else 2
  }

  /** There is a descriptor at `i` that ends inside the block. */
  predicate Complete(full: seq<byte>, i: nat) {
    i + 1 < |full| && i + full[i] <= |full|
  }

  /** A field read past the end of the block panics. */
  predicate InBounds(full: seq<byte>, i: nat) {
    i + 1 < |full| && i + BytesRead(full[i + 1]) <= |full|
  }

  function SeenAt(full: seq<byte>, i: nat): Seen
    requires InBounds(full, i)
  {
    if full[i + 1] == INTERFACE then Interface(i, full[i + 2], full[i + 3], full[i + 4])
    else if full[i + 1] == ENDPOINT then
      Endpoint(i, full[i + 2], full[i + 3], full[i + 4] as int + 0x100 * full[i + 5] as int, full[i + 6])
    else Skipped(i)
  }

  function Step(len: byte): (n: nat)
    ensures n > 0
  {
    if len == 0 then 1 else len
  }

  /** The offsets the walk stops at from `i` on. */
  function Stops(full: seq<byte>, i: nat): seq<nat>
    decreases |full| - i
  {
    if Complete(full, i) then [i] + Stops(full, i + Step(full[i])) else []
  }

  function Walk(full: seq<byte>, i: nat): Outcome
    decreases |full| - i
  {
    if !Complete(full, i) then Printed([])
    else if !InBounds(full, i) then Panicked
    else
      match Walk(full, i + Step(full[i]))
      case Panicked => Panicked
      case Printed(rest) => Printed([SeenAt(full, i)] + rest)
  }

  /** What is printed after `seen`. */
  function After(seen: seq<Seen>, rest: Outcome): Outcome {
    match rest
    case Panicked => Panicked
    case Printed(more) => Printed(seen + more)
  }

  /** The loop of main, which ends on every block of bytes. */
  method WalkDescriptors(full: seq<byte>) returns (r: Outcome)
    ensures r == Walk(full, 9)
  {
    var i := 9;
    var seen: seq<Seen> := [];
    while i + 1 < |full|
      invariant i >= 9
      invariant Walk(full, 9) == After(seen, Walk(full, i))
      decreases |full| - i
    {
      var len := full[i];
      if i + len > |full| {
        break;
      }
      var dtype := full[i + 1];
      if dtype == INTERFACE {
        if i + 4 >= |full| {
          return Panicked;
        }
        seen := seen + [Interface(i, full[i + 2], full[i + 3], full[i + 4])];
      } else if dtype == ENDPOINT {
        if i + 6 >= |full| {
          return Panicked;
        }
        var maxPacket := full[i + 4] as int + 0x100 * full[i + 5] as int;
        seen := seen + [Endpoint(i, full[i + 2], full[i + 3], maxPacket, full[i + 6])];
      } else {
        seen := seen + [Skipped(i)];
      }
      AfterStep(seen[..|seen| - 1], seen[|seen| - 1], Walk(full, i + Step(len)));
      SplitLast(seen);
      i := i + if len == 0 then 1 else len;
    }
    return Printed(seen);
  }

  lemma AfterStep(seen: seq<Seen>, next: Seen, rest: Outcome)
    ensures After(seen, After([next], rest)) == After(seen + [next], rest)
  {
    if rest.Printed? {
      AppendAssociative(seen, [next], rest.seen);
    }
  }

  // ----- any block of bytes -----

  /** One of the stops is at a descriptor whose fields run past the block. */
  predicate RunsPast(full: seq<byte>, stops: seq<nat>) {
    exists k :: 0 <= k < |stops| && !InBounds(full, stops[k])
  }

  lemma RunsPastCons(full: seq<byte>, i: nat, rest: seq<nat>)
    ensures RunsPast(full, [i] + rest) <==> !InBounds(full, i) || RunsPast(full, rest)
  {
    var stops := [i] + rest;
    assert stops[0] == i;
    if RunsPast(full, rest) {
      var k :| 0 <= k < |rest| && !InBounds(full, rest[k]);
      assert stops[k + 1] == rest[k];
    }
  }

  /** The walk panics if and only if it stops at a descriptor whose fields run past the block. */
  lemma {:induction false} PanicsIff(full: seq<byte>, i: nat)
    ensures Walk(full, i).Panicked? <==> RunsPast(full, Stops(full, i))
    decreases |full| - i
  {
    if !Complete(full, i) {
    } else {
      PanicsIff(full, i + Step(full[i]));
      RunsPastCons(full, i, Stops(full, i + Step(full[i])));
    }
  }

  /** Stops only go forward, and each is a complete descriptor. */
  lemma {:induction false} StopsAdvance(full: seq<byte>, i: nat, k: nat)
    requires k < |Stops(full, i)|
    ensures Complete(full, Stops(full, i)[k]) && Stops(full, i)[k] >= i
    ensures k + 1 < |Stops(full, i)| ==>
              var stop := Stops(full, i)[k];
              Stops(full, i)[k + 1] == stop + if full[stop] == 0 then 1 else full[stop] as int
    decreases |full| - i
  {
    var next := i + Step(full[i]);
    if k > 0 {
      StopsAdvance(full, next, k - 1);
    } else if 1 < |Stops(full, i)| {
      assert Stops(full, next)[0] == next;
    }
  }

  /** A panic needs a descriptor that declares fewer bytes than its type has, closer to the end of
      the block than that type's size. */
  lemma PanicNeedsShortDescriptor(full: seq<byte>) returns (i: nat)
    requires Walk(full, 9).Panicked?
    ensures 9 <= i && i + 1 < |full| && i + full[i] as int <= |full| < i + 7
    ensures (full[i + 1] == 4 && full[i] < 5) || (full[i + 1] == 5 && full[i] < 7)
  {
    PanicsIff(full, 9);
    var k :| 0 <= k < |Stops(full, 9)| && !InBounds(full, Stops(full, 9)[k]);
    StopsAdvance(full, 9, k);
    i := Stops(full, 9)[k];
  }

  /** The smallest such block: a configuration header, then an interface descriptor cut to its
      first two bytes. */
  lemma ShortInterfacePanics(header: seq<byte>)
    requires |header| == 9
    ensures Walk(header + [2, 4], 9) == Panicked
  {}

  // ----- a block of descriptors (sections 9.6.3, 9.6.5 and 9.6.6 of USB 2.0) -----

  datatype Descriptor = Descriptor(dtype: byte, body: seq<byte>)

  function Length(d: Descriptor): nat {
    2 + |d.body|
  }

  predicate Valid(d: Descriptor) {
    Length(d) <= 255 && Length(d) >= if d.dtype == 4 then 5 else if d.dtype == 5 then 7 else 2
  }

  function Encode(d: Descriptor): seq<byte>
    requires Valid(d)
  {
    [Length(d), d.dtype] + d.body
  }

  predicate AllValid(ds: seq<Descriptor>) {
    forall k :: 0 <= k < |ds| ==> Valid(ds[k])
  }

  function EncodeAll(ds: seq<Descriptor>): seq<byte>
    requires AllValid(ds)
  {
    if ds == [] then [] else Encode(ds[0]) + EncodeAll(ds[1..])
  }

  /** The fields shown of an interface descriptor (type 4) and of an endpoint descriptor (type 5), and the
      place of any. */
  function Show(d: Descriptor, offset: nat): Seen
    requires Valid(d)
  {
    if d.dtype == 4 then Interface(offset, d.body[0], d.body[1], d.body[2])
    else if d.dtype == 5 then
      Endpoint(offset, d.body[0], d.body[1], d.body[2] as int + 0x100 * d.body[3] as int, d.body[4])
    else Skipped(offset)
  }

  function ShowAll(ds: seq<Descriptor>, offset: nat): seq<Seen>
    requires AllValid(ds)
  {
    if ds == [] then [] else [Show(ds[0], offset)] + ShowAll(ds[1..], offset + Length(ds[0]))
  }

  /** What a transfer that stopped early leaves of the next descriptor. */
  predicate CutShort(tail: seq<byte>) {
    tail == [] || |tail| == 1 || tail[0] as int > |tail|
  }

  lemma DescriptorSeen(before: seq<byte>, d: Descriptor, rest: seq<byte>)
    requires Valid(d)
    ensures var full, i := before + (Encode(d) + rest), |before|;
            && Complete(full, i) && InBounds(full, i) && full[i] as int == Length(d)
            && SeenAt(full, i) == Show(d, i)
  {
    var full, i := before + (Encode(d) + rest), |before|;
    assert full[i] as int == Length(d) && full[i + 1] == d.dtype;
    assert forall k :: 0 <= k < |d.body| ==> full[i + 2 + k] == d.body[k];
  }

  /** From the boundary of the first descriptor on, each descriptor is shown once, at its own
      boundary, and a descriptor cut short is not. */
  lemma {:induction false} DescriptorsSeen(before: seq<byte>, ds: seq<Descriptor>, tail: seq<byte>)
    requires AllValid(ds) && CutShort(tail)
    ensures Walk(before + (EncodeAll(ds) + tail), |before|) == Printed(ShowAll(ds, |before|))
    decreases |ds|
  {
    var full := before + (EncodeAll(ds) + tail);
    if ds == [] {
      assert EncodeAll(ds) + tail == tail;
      assert !Complete(full, |before|);
    } else {
      var rest := EncodeAll(ds[1..]) + tail;
      AppendAssociative(Encode(ds[0]), EncodeAll(ds[1..]), tail);
      DescriptorSeen(before, ds[0], rest);
      DescriptorsSeen(before + Encode(ds[0]), ds[1..], tail);
      AppendAssociative(before, Encode(ds[0]), rest);
    }
  }

  /** The whole block: nine bytes of header are skipped and every descriptor is shown. */
  lemma BlockWalked(header: seq<byte>, ds: seq<Descriptor>, tail: seq<byte>)
    requires |header| == 9 && AllValid(ds) && CutShort(tail)
    ensures Walk(header + EncodeAll(ds) + tail, 9) == Printed(ShowAll(ds, 9))
  {
    AppendAssociative(header, EncodeAll(ds), tail);
    DescriptorsSeen(header, ds, tail);
  }
}
