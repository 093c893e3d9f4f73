/** The webcam's capture loop (usb-wasi-guest/examples/webcam/src/webcam.rs): header parsing,
    the loop over one transfer's packets, and the loop over transfers; and the path of a frame
    from the camera through the host's flat buffer back to a completed frame. */
module WebcamCapture {
  import opened UsbBase
  import opened IsoFlatBuffer
  import opened UvcReassembly
  import TransferLifecycle

  // ----- payload headers -----

  function ParsePayload(slice: seq<byte>): Option<Packet<byte>> {
    if |slice| < 2 then None
    else if slice[0] < 2 || slice[0] > |slice| then None
    else Some(Packet(slice[slice[0]..], slice[1] % 2, slice[1] / 2 % 2 == 1))
  }

  /** `bytes` is packet `p` on the wire: header length, flags, then the payload. */
  ghost predicate CarriesPacket(bytes: seq<byte>, p: Packet<byte>) {
    exists header: seq<byte> ::
      && 2 <= |header| && bytes == header + p.payload && header[0] == |header|
      && header[1] % 2 == p.fid && (header[1] / 2 % 2 == 1 <==> p.eof)
  }

  /** The guest finds a packet if and only if the bytes carry it. */
  lemma ParseInvertsHeader(bytes: seq<byte>, p: Packet<byte>)
    ensures ParsePayload(bytes) == Some(p) <==> CarriesPacket(bytes, p)
  {
    if CarriesPacket(bytes, p) {
      var header: seq<byte> :| 2 <= |header| && bytes == header + p.payload && header[0] == |header|
                               && header[1] % 2 == p.fid && (header[1] / 2 % 2 == 1 <==> p.eof);
      assert bytes[0] == header[0] && bytes[1] == header[1];
      assert bytes[|header|..] == p.payload;
    }
    if ParsePayload(bytes) == Some(p) {
      var header := bytes[..bytes[0]];
      assert bytes == header + p.payload && header[0] == |header|;
    }
  }

  /** It finds none in an empty or one-byte packet, and none behind a header length below 2 or past
      the end. */
  lemma NothingParsedIff(bytes: seq<byte>)
    ensures ParsePayload(bytes).None? <==> |bytes| < 2 || bytes[0] < 2 || bytes[0] > |bytes|
    ensures ParsePayload(bytes).None? <==> !exists p :: CarriesPacket(bytes, p)
  {
    if ParsePayload(bytes).Some? {
      ParseInvertsHeader(bytes, ParsePayload(bytes).value);
    } else {
      forall p ensures !CarriesPacket(bytes, p) {
        ParseInvertsHeader(bytes, p);
      }
    }
  }

  function AsSeq<T>(o: Option<T>): seq<T> {
    match o
    case None => []
    case Some(x) => [x]
  }

  /** SOI at the start, EOI at the end. */
  predicate IsCompleteJpeg(data: seq<byte>) {
    && |data| >= 4
    && data[0] == 0xFF && data[1] == 0xD8
    && data[|data| - 2] == 0xFF && data[|data| - 1] == 0xD9
  }

  /** The same in terms of what lies between the two. */
  ghost predicate BetweenMarkers(data: seq<byte>) {
    exists body: seq<byte> :: data == [0xFF, 0xD8] + body + [0xFF, 0xD9]
  }

  // ----- what one transfer's packets mean -----

  function SlicePacket(data: seq<byte>, stride: nat, i: nat, actualLength: nat): Option<Packet<byte>> {
    match GuestSlice(data, stride, i, actualLength)
    case Bytes(slice) => ParsePayload(slice)
    case _ => None
  }

  /** The packets the guest finds in a flat buffer, given the reported lengths. */
  function FoundPackets(data: seq<byte>, stride: nat, lengths: seq<nat>): seq<Packet<byte>> {
    if lengths == [] then []
    else
      var i := |lengths| - 1;
      FoundPackets(data, stride, lengths[..i]) + AsSeq(SlicePacket(data, stride, i, lengths[i]))
  }

  /** The packets among what the device sent. */
  function SentPackets(received: seq<seq<byte>>): seq<Packet<byte>> {
    if received == [] then []
    else SentPackets(received[..|received| - 1]) + AsSeq(ParsePayload(received[|received| - 1]))
  }

  function Lengths(received: seq<seq<byte>>): (r: seq<nat>)
    ensures |r| == |received|
  {
    seq(|received|, i requires 0 <= i < |received| => |received[i]|)
  }

  lemma {:induction false} FoundPrefix(buffer: seq<byte>, stride: nat, received: seq<seq<byte>>, n: nat)
    requires Arranged(buffer, received) && |buffer| == |received| * stride && n <= |received|
    ensures FoundPackets(buffer, stride, Lengths(received)[..n]) == SentPackets(received[..n])
  {
    if n == 0 {
    } else {
      FoundPrefix(buffer, stride, received, n - 1);
      SlicesAreExact(buffer, stride, received, n - 1);
      assert Lengths(received)[..n][..n - 1] == Lengths(received)[..n - 1];
      assert received[..n][..n - 1] == received[..n - 1];
    }
  }

  /** The guest finds in the host's flat buffer exactly the packets the device sent. */
  lemma FoundIsSent(buffer: seq<byte>, stride: nat, received: seq<seq<byte>>)
    requires Arranged(buffer, received) && |buffer| == |received| * stride
    ensures FoundPackets(buffer, stride, Lengths(received)) == SentPackets(received)
  {
    FoundPrefix(buffer, stride, received, |received|);
    assert Lengths(received)[..|received|] == Lengths(received);
    assert received[..|received|] == received;
  }

  lemma {:induction false} SentPacketsAppend(a: seq<seq<byte>>, b: seq<seq<byte>>)
    ensures SentPackets(a + b) == SentPackets(a) + SentPackets(b)
  {
    if b == [] {
      assert a + b == a;
    } else {
      SentPacketsAppend(a, b[..|b| - 1]);
      assert (a + b)[..|a + b| - 1] == a + b[..|b| - 1];
    }
  }

  // ----- from the camera to completed frames -----

  /** One completed transfer: the flat buffer the callback returned and what the device had
      put in its slots. */
  datatype FilledTransfer = FilledTransfer(data: seq<byte>, received: seq<seq<byte>>)

  ghost predicate Filled(t: FilledTransfer, stride: nat) {
    Arranged(t.data, t.received) && |t.data| == |t.received| * stride
  }

  function FoundInAll(ts: seq<FilledTransfer>, stride: nat): seq<Packet<byte>> {
    if ts == [] then []
    else FoundInAll(ts[..|ts| - 1], stride)
         + FoundPackets(ts[|ts| - 1].data, stride, Lengths(ts[|ts| - 1].received))
  }

  function Wire(ts: seq<FilledTransfer>): seq<seq<byte>> {
    if ts == [] then [] else Wire(ts[..|ts| - 1]) + ts[|ts| - 1].received
  }

  lemma {:induction false} FoundInAllIsSent(ts: seq<FilledTransfer>, stride: nat)
    requires forall k :: 0 <= k < |ts| ==> Filled(ts[k], stride)
    ensures FoundInAll(ts, stride) == SentPackets(Wire(ts))
  {
    if ts == [] {
    } else {
      var t := ts[|ts| - 1];
      assert Filled(t, stride);
      FoundInAllIsSent(ts[..|ts| - 1], stride);
      FoundIsSent(t.data, stride, t.received);
      SentPacketsAppend(Wire(ts[..|ts| - 1]), t.received);
    }
  }

  /** What the device put on the wire carries `ps`, with empty packets anywhere in between. */
  ghost predicate WireCarries(wire: seq<seq<byte>>, ps: seq<Packet<byte>>) {
    if wire == [] then ps == []
    else
      var last := wire[|wire| - 1];
      if last == [] then WireCarries(wire[..|wire| - 1], ps)
      else ps != [] && CarriesPacket(last, ps[|ps| - 1]) && WireCarries(wire[..|wire| - 1], ps[..|ps| - 1])
  }

  lemma {:induction false} SentIsCarried(wire: seq<seq<byte>>, ps: seq<Packet<byte>>)
    requires WireCarries(wire, ps)
    ensures SentPackets(wire) == ps
  {
    if wire == [] {
    } else {
      var last := wire[|wire| - 1];
      if last == [] {
        SentIsCarried(wire[..|wire| - 1], ps);
      } else {
        SentIsCarried(wire[..|wire| - 1], ps[..|ps| - 1]);
        ParseInvertsHeader(last, ps[|ps| - 1]);
      }
    }
  }

  /** A camera's frames, sent as payload packets over any number of isochronous transfers, cut
      into slots by the host and recut by the guest, come out of reassembly as the same frames in
      the same order, with at most the last one still pending, if and only if their identifiers
      tell them apart. */
  lemma CameraFramesRecoveredIff(ts: seq<FilledTransfer>, stride: nat, sent: seq<seq<Packet<byte>>>)
    requires forall k :: 0 <= k < |ts| ==> Filled(ts[k], stride)
    requires AllFrames(sent) && WireCarries(Wire(ts), Concat(sent))
    ensures var fed := FeedAll(Start(), FoundInAll(ts, stride));
            fed.frames + Pending(fed.state.buffer) == SentFrames(sent) <==> FramesApart(sent)
  {
    FoundInAllIsSent(ts, stride);
    SentIsCarried(Wire(ts), Concat(sent));
    FramesRecoveredIff(sent);
  }

  /** The lengths the host reports beside the flat buffer are the ones the guest cuts by. */
  lemma CallbackDeliversFilledTransfer(c: TransferLifecycle.Config, done: TransferLifecycle.Completion,
                                       received: seq<seq<byte>>)
    requires TransferLifecycle.IsoTransfer(c) && done.status.Completed? && |received| == |done.iso|
    requires forall i :: 0 <= i < |received| ==> done.iso[i].actualLength == |received[i]|
    requires Arranged(done.buffer, received)
    ensures var d := TransferLifecycle.DeliveryOf(TransferLifecycle.CallbackOutcome(c, done),
                                                  TransferLifecycle.CallbackPackets(c, done));
            && d.outcome == Ok(done.buffer) && |d.packets| == |received|
            && (forall i :: 0 <= i < |received| ==> d.packets[i].actualLength == |received[i]|)
            && (forall stride :: |done.buffer| == |received| * stride ==>
                  FoundPackets(done.buffer, stride, Lengths(received)) == SentPackets(received))
  {
    forall stride | |done.buffer| == |received| * stride
      ensures FoundPackets(done.buffer, stride, Lengths(received)) == SentPackets(received)
    {
      FoundIsSent(done.buffer, stride, received);
    }
  }

  // ----- the capture loop -----

  /** One transfer as the loop sees it: the flat data and the reported packet lengths. */
  datatype CaptureInput = Failed | Delivered(data: seq<byte>, lengths: seq<nat>)

  /** The host returned a slot of `stride` bytes for each packet. */
  predicate Cuttable(t: CaptureInput, stride: nat) {
    t.Delivered? ==> |t.lengths| * stride <= |t.data|
  }

  const MAX_ATTEMPTS: nat := 2000

  class WebcamFrameStream {
    var frameBuffer: seq<byte>
    var lastFid: nat
    var frameStarted: bool
    const packetStride: nat

    constructor (stride: nat)
      ensures packetStride == stride && State() == Reassembly([], 0, false)
    {
      packetStride := stride;
      frameBuffer, lastFid, frameStarted := [], 0, false;
    }

    ghost function State(): Reassembly<byte>
      reads this
    {
      Reassembly(frameBuffer, lastFid, frameStarted)
    }

    /** The body of the packet loop, behind the header checks. */
    method ProcessPacket(p: Packet<byte>) returns (complete: Option<seq<byte>>)
      modifies this
      ensures Fed(State(), AsSeq(complete)) == Feed(old(State()), p)
    {
      if frameBuffer != [] && p.fid != lastFid {
        complete := Some(frameBuffer);
        lastFid := p.fid;
        frameBuffer := p.payload;
        frameStarted := true;
        return;
      }
      if !frameStarted && p.payload != [] {
        frameStarted := true;
      }
      if frameStarted {
        frameBuffer := frameBuffer + p.payload;
      }
      complete := None;
      if frameStarted && p.eof && frameBuffer != [] {
        complete := Some(frameBuffer);
        frameBuffer := [];
        frameStarted := false;
      }
      lastFid := p.fid;
    }

    /** One iteration of the packet loop: slice number `i`, at `offset`. */
    method ProcessSlice(data: seq<byte>, ghost i: nat, offset: nat, actual: nat) returns (complete: Option<seq<byte>>)
      requires offset == i * packetStride && offset <= |data|
      modifies this
      ensures Fed(State(), AsSeq(complete)) ==
              FeedAll(old(State()), AsSeq(SlicePacket(data, packetStride, i, actual)))
    {
      if actual == 0 {
        return None;
      }
      var end := Min(offset + Min(actual, packetStride), |data|);
      var p := ParsePayload(data[offset..end]);
      if p.None? {
        return None;
      }
      complete := ProcessPacket(p.value);
      FeedAllSingle(old(State()), p.value);
    }

    /** The packet loop over one transfer. It stops at the first completed buffer that is a
        whole JPEG; `used` packets were looked at. */
    method ProcessTransfer(data: seq<byte>, lengths: seq<nat>) returns (frame: Option<seq<byte>>, used: nat)
      requires |lengths| * packetStride <= |data|
      modifies this
      ensures used <= |lengths| && (frame.None? ==> used == |lengths|)
      ensures Captured(old(State()), FoundPackets(data, packetStride, lengths[..used]), State(), frame)
    {
      frame, used := None, 0;
      var offset := 0;
      while used < |lengths|
        invariant 0 <= used <= |lengths| && offset == used * packetStride
        invariant Captured(old(State()), FoundPackets(data, packetStride, lengths[..used]), State(), None)
      {
        ghost var before := State();
        ghost var found := FoundPackets(data, packetStride, lengths[..used]);
        OffsetInBounds(used, |lengths|, packetStride, |data|);
        FoundNext(data, packetStride, lengths, used);
        var complete := ProcessSlice(data, used, offset, lengths[used]);
        CapturedOne(old(State()), found, before, AsSeq(SlicePacket(data, packetStride, used, lengths[used])), State(), complete);
        offset := offset + packetStride;
        used := used + 1;
        if complete.Some? && IsCompleteJpeg(complete.value) {
          return complete, used;
        }
      }
    }

    /** The loop over transfers: at most 2000 of them, ended early by a failed transfer or by a frame.
        `processed` is what was fed to reassembly: all of `done` transfers and, when the next one ended
        a frame, its first `used` packets; the ones left over are not in it. */
    method CaptureLoop(transfers: seq<CaptureInput>)
      returns (frame: Option<seq<byte>>, ghost processed: seq<Packet<byte>>, ghost done: nat, ghost used: nat)
      requires |transfers| == 2000
      requires forall k {:trigger Cuttable(transfers[k], packetStride)} :: 0 <= k < |transfers| ==>
                 Cuttable(transfers[k], packetStride)
      modifies this
      ensures Captured(old(State()), processed, State(), frame)
      ensures Processed(transfers, packetStride, processed, done, used, frame.Some?)
    {
      processed, done, used := [], 0, 0;
      frame := None;
      var attempt := 0;
      while attempt < MAX_ATTEMPTS
        invariant 0 <= attempt <= MAX_ATTEMPTS && frame.None? && done == attempt
        invariant AllDelivered(transfers, done)
        invariant Captured(old(State()), processed, State(), None)
        invariant processed == FoundInDelivered(transfers[..attempt], packetStride)
      {
        if transfers[attempt].Failed? {
          break;
        }
        assert Cuttable(transfers[attempt], packetStride);
        ghost var before := State();
        var data, lengths := transfers[attempt].data, transfers[attempt].lengths;
        var looked;
        frame, looked := ProcessTransfer(data, lengths);
        used := looked;
        ghost var more := FoundPackets(data, packetStride, lengths[..used]);
        CapturedAppend(old(State()), processed, before, more, State(), frame);
        processed := processed + more;
        if frame.Some? {
          break;
        }
        NextDelivered(transfers, packetStride, attempt);
        attempt := attempt + 1;
        done := attempt;
      }
    }

    /** The call: the first completed buffer that starts with SOI and ends with EOI, if there is one. */
    method CaptureFrame(transfers: seq<CaptureInput>)
      returns (frame: Option<seq<byte>>, ghost processed: seq<Packet<byte>>, ghost done: nat, ghost used: nat)
      requires |transfers| == 2000
      requires forall k {:trigger Cuttable(transfers[k], packetStride)} :: 0 <= k < |transfers| ==>
                 Cuttable(transfers[k], packetStride)
      modifies this
      ensures State() == FeedAll(old(State()), processed).state
      ensures Processed(transfers, packetStride, processed, done, used, frame.Some?)
      ensures var completed := FeedAll(old(State()), processed).frames;
              && (frame.None? ==> forall k :: 0 <= k < |completed| ==> !BetweenMarkers(completed[k]))
              && (frame.Some? ==>
                    && completed != [] && completed[|completed| - 1] == frame.value && BetweenMarkers(frame.value)
                    && forall k :: 0 <= k < |completed| - 1 ==> !BetweenMarkers(completed[k]))
    {
      frame, processed, done, used := CaptureLoop(transfers);
      FirstJpegBytes(FeedAll(old(State()), processed).frames, frame);
    }
  }

  /** From state `start`, packets `ps` lead to `end`, and `frame` is the first whole JPEG among
      the buffers they complete, or none of these is one. */
  predicate Captured(start: Reassembly<byte>, ps: seq<Packet<byte>>, end: Reassembly<byte>, frame: Option<seq<byte>>) {
    var fed := FeedAll(start, ps);
    fed.state == end && FirstJpeg(fed.frames, frame)
  }

  lemma FeedAllSingle<T>(st: Reassembly<T>, p: Packet<T>)
    ensures FeedAll(st, [p]) == Feed(st, p)
  {
    assert [p][..0] == [];
  }

  lemma FoundNext(data: seq<byte>, stride: nat, lengths: seq<nat>, i: nat)
    requires i < |lengths|
    ensures FoundPackets(data, stride, lengths[..i + 1])
         == FoundPackets(data, stride, lengths[..i]) + AsSeq(SlicePacket(data, stride, i, lengths[i]))
  {
    assert lengths[..i + 1][..i] == lengths[..i];
  }

  lemma CapturedAppend(start: Reassembly<byte>, ps: seq<Packet<byte>>, middle: Reassembly<byte>,
                       more: seq<Packet<byte>>, end: Reassembly<byte>, frame: Option<seq<byte>>)
    requires Captured(start, ps, middle, None) && Captured(middle, more, end, frame)
    ensures Captured(start, ps + more, end, frame)
  {
    FeedAllAppend(start, ps, more);
    FirstJpegAppend(FeedAll(start, ps).frames, FeedAll(middle, more).frames, frame);
  }

  lemma CapturedOne(start: Reassembly<byte>, ps: seq<Packet<byte>>, middle: Reassembly<byte>,
                    more: seq<Packet<byte>>, end: Reassembly<byte>, complete: Option<seq<byte>>)
    requires Captured(start, ps, middle, None) && Fed(end, AsSeq(complete)) == FeedAll(middle, more)
    ensures Captured(start, ps + more, end,
                     if complete.Some? && IsCompleteJpeg(complete.value) then complete else None)
  {
    CapturedAppend(start, ps, middle, more, end,
                   if complete.Some? && IsCompleteJpeg(complete.value) then complete else None);
  }

  /** `processed` are the packets of the first `done` transfers, which were all delivered, and, when the
      next one ended a frame, its first `used` packets; otherwise that one failed or there is none. */
  predicate Processed(ts: seq<CaptureInput>, stride: nat, processed: seq<Packet<byte>>, done: nat, used: nat, ended: bool) {
    && AllDelivered(ts, done)
    && if ended then
         && done < |ts| && ts[done].Delivered? && used <= |ts[done].lengths|
         && processed == FoundInDelivered(ts[..done], stride) + FoundPackets(ts[done].data, stride, ts[done].lengths[..used])
       else
         (done == |ts| || ts[done].Failed?) && processed == FoundInDelivered(ts[..done], stride)
  }

  predicate AllDelivered(ts: seq<CaptureInput>, n: nat) {
    n <= |ts| && forall k :: 0 <= k < n ==> ts[k].Delivered?
  }

  function FoundInDelivered(ts: seq<CaptureInput>, stride: nat): seq<Packet<byte>> {
    if ts == [] then []
    else
      var last := ts[|ts| - 1];
      FoundInDelivered(ts[..|ts| - 1], stride)
      + if last.Delivered? then FoundPackets(last.data, stride, last.lengths) else []
  }

  lemma NextDelivered(ts: seq<CaptureInput>, stride: nat, n: nat)
    requires n < |ts| && ts[n].Delivered?
    ensures AllDelivered(ts, n) ==> AllDelivered(ts, n + 1)
    ensures FoundInDelivered(ts[..n + 1], stride)
         == FoundInDelivered(ts[..n], stride) + FoundPackets(ts[n].data, stride, ts[n].lengths[..|ts[n].lengths|])
  {
    assert ts[..n + 1][..n] == ts[..n];
    assert ts[n].lengths[..|ts[n].lengths|] == ts[n].lengths;
  }

  lemma OffsetInBounds(i: nat, count: nat, stride: nat, size: nat)
    requires i < count && count * stride <= size
    ensures i * stride + stride <= size && (i + 1) * stride == i * stride + stride
  {
    assert (i + 1) * stride <= count * stride;
  }

  /** `frame` is the first whole JPEG among the completed buffers, and the last of them; or there
      is none. */
  predicate FirstJpeg(frames: seq<seq<byte>>, frame: Option<seq<byte>>) {
    match frame
    case None => forall k :: 0 <= k < |frames| ==> !IsCompleteJpeg(frames[k])
    case Some(f) =>
      && frames != [] && frames[|frames| - 1] == f && IsCompleteJpeg(f)
      && forall k :: 0 <= k < |frames| - 1 ==> !IsCompleteJpeg(frames[k])
  }

  /** A whole JPEG is anything between SOI and EOI. */
  lemma WholeJpegIff(data: seq<byte>)
    ensures IsCompleteJpeg(data) <==> BetweenMarkers(data)
  {
    if IsCompleteJpeg(data) {
      assert data == [0xFF, 0xD8] + data[2..|data| - 2] + [0xFF, 0xD9];
    }
  }

  /** What that says of the buffers, in bytes. */
  lemma FirstJpegBytes(frames: seq<seq<byte>>, frame: Option<seq<byte>>)
    requires FirstJpeg(frames, frame)
    ensures frame.None? ==> forall k :: 0 <= k < |frames| ==> !BetweenMarkers(frames[k])
    ensures frame.Some? ==>
              && frames != [] && frames[|frames| - 1] == frame.value && BetweenMarkers(frame.value)
              && forall k :: 0 <= k < |frames| - 1 ==> !BetweenMarkers(frames[k])
  {
    forall k | 0 <= k < |frames| ensures IsCompleteJpeg(frames[k]) <==> BetweenMarkers(frames[k]) {
      WholeJpegIff(frames[k]);
    }
  }

  /** What reassembly completes from the start of a stream of frames kept apart are its first frames
      with data. */
  lemma CompletedAreFirstSent(sent: seq<seq<Packet<byte>>>, processed: seq<Packet<byte>>)
    requires AllFrames(sent) && FramesApart(sent) && processed <= Concat(sent)
    ensures FeedAll(Start(), processed).frames <= SentFrames(sent)
  {
    var rest := Concat(sent)[|processed|..];
    assert processed + rest == Concat(sent);
    FeedAllAppend(Start(), processed, rest);
    FramesRecoveredIff(sent);
  }

  /** From the start, while the packets processed are those of frames kept apart, cut off anywhere,
      capturing returns the first of the frames sent that is a whole JPEG; and nothing, only while
      no completed frame is one. */
  lemma CapturedIsFirstJpegSent(sent: seq<seq<Packet<byte>>>, processed: seq<Packet<byte>>,
                                end: Reassembly<byte>, frame: Option<seq<byte>>)
    requires AllFrames(sent) && FramesApart(sent) && processed <= Concat(sent)
    requires Captured(Start(), processed, end, frame)
    ensures var n := |FeedAll(Start(), processed).frames|;
            && n <= |SentFrames(sent)|
            && FirstJpeg(SentFrames(sent)[..n], frame)
            && (frame.Some? ==> frame.value in SentFrames(sent))
            && (frame.None? ==> forall k :: 0 <= k < n ==> !BetweenMarkers(SentFrames(sent)[k]))
            && (frame.Some? ==>
                  && n > 0 && SentFrames(sent)[n - 1] == frame.value && BetweenMarkers(frame.value)
                  && forall k :: 0 <= k < n - 1 ==> !BetweenMarkers(SentFrames(sent)[k]))
  {
    CompletedAreFirstSent(sent, processed);
    var frames := FeedAll(Start(), processed).frames;
    PrefixIs(frames, SentFrames(sent));
    FirstJpegBytes(frames, frame);
  }

  lemma PrefixIs<T>(a: seq<T>, b: seq<T>)
    requires a <= b
    ensures b[..|a|] == a && forall k :: 0 <= k < |a| ==> b[k] == a[k]
  {}

  lemma FirstJpegAppend(frames: seq<seq<byte>>, more: seq<seq<byte>>, frame: Option<seq<byte>>)
    requires FirstJpeg(frames, None) && FirstJpeg(more, frame)
    ensures FirstJpeg(frames + more, frame)
  {}
}
