/** Frame reassembly from UVC payload packets
    (usb-wasi-guest/examples/webcam/src/webcam.rs, capture_uvc_frame; payload headers as in
    section 2.4.3.3 of the UVC 1.5 specification). */
module UvcReassembly {
  import opened UsbBase

  // ----- the state machine -----

  /** One payload packet: frame identifier bit, end-of-frame bit, and the bytes behind the
      header. The element type is a parameter so that bytes can be traced to their packets. */
  datatype Packet<T> = Packet(payload: seq<T>, fid: nat, eof: bool)

  datatype Reassembly<T> = Reassembly(buffer: seq<T>, lastFid: nat, started: bool)

  datatype Fed<T> = Fed(state: Reassembly<T>, frames: seq<seq<T>>)

  /** What one packet does: the new state and the buffer it completes, if any. */
  function Feed<T>(st: Reassembly<T>, p: Packet<T>): Fed<T> {
    if st.buffer != [] && p.fid != st.lastFid then
      Fed(Reassembly(p.payload, p.fid, true), [st.buffer])
    else
      var started := st.started || p.payload != [];
      var buffer := if started then st.buffer + p.payload else st.buffer;
      if started && p.eof && buffer != [] then
        Fed(Reassembly([], p.fid, false), [buffer])
      else
        Fed(Reassembly(buffer, p.fid, started), [])
  }

  function FeedAll<T>(st: Reassembly<T>, ps: seq<Packet<T>>): Fed<T> {
    if ps == [] then Fed(st, [])
    else
      var before := FeedAll(st, ps[..|ps| - 1]);
      var last := Feed(before.state, ps[|ps| - 1]);
      Fed(last.state, before.frames + last.frames)
  }

  lemma FeedAllOne<T>(st: Reassembly<T>, ps: seq<Packet<T>>, p: Packet<T>)
    ensures var before := FeedAll(st, ps);
            var last := Feed(before.state, p);
            FeedAll(st, ps + [p]) == Fed(last.state, before.frames + last.frames)
  {
    assert (ps + [p])[..|ps|] == ps;
  }

  lemma {:induction false} FeedAllAppend<T>(st: Reassembly<T>, a: seq<Packet<T>>, b: seq<Packet<T>>)
    ensures var first := FeedAll(st, a);
            var second := FeedAll(first.state, b);
            FeedAll(st, a + b) == Fed(second.state, first.frames + second.frames)
  {
    if b == [] {
      assert a + b == a;
    } else {
      var b', p := b[..|b| - 1], b[|b| - 1];
      FeedAllAppend(st, a, b');
      assert b == b' + [p];
      AppendAssociative(a, b', [p]);
      FeedAllOne(st, a + b', p);
      var first := FeedAll(st, a);
      var middle := FeedAll(first.state, b');
      FeedAllOne(first.state, b', p);
      AppendAssociative(first.frames, middle.frames, Feed(middle.state, p).frames);
    }
  }

  function Payloads<T>(ps: seq<Packet<T>>): seq<T> {
    if ps == [] then [] else Payloads(ps[..|ps| - 1]) + ps[|ps| - 1].payload
  }

  // ----- any packet stream: data is conserved -----

  /** Completed buffers followed by the current one are the payloads fed in, in order: no byte
      is lost, duplicated or moved, whatever the headers say. */
  lemma {:induction false} DataConserved<T>(st: Reassembly<T>, ps: seq<Packet<T>>)
    ensures var fed := FeedAll(st, ps);
            Concat(fed.frames) + fed.state.buffer == st.buffer + Payloads(ps)
  {
    if ps == [] {
    } else {
      var p := ps[|ps| - 1];
      var before := FeedAll(st, ps[..|ps| - 1]);
      var last := Feed(before.state, p);
      DataConserved(st, ps[..|ps| - 1]);
      FeedConserves(before.state, p);
      ConcatAppend(before.frames, last.frames);
      CarryOver(Concat(before.frames), before.state.buffer, Concat(last.frames), last.state.buffer,
                st.buffer, Payloads(ps[..|ps| - 1]), p.payload);
    }
  }

  lemma FeedConserves<T>(st: Reassembly<T>, p: Packet<T>)
    ensures var fed := Feed(st, p);
            Concat(fed.frames) + fed.state.buffer == st.buffer + p.payload
  {
    var fed := Feed(st, p);
    if fed.frames != [] {
      assert fed.frames[1..] == [];
      assert Concat(fed.frames) == fed.frames[0];
    }
  }

  // ----- any packet stream: no buffer mixes frame identifiers -----

  /** The same packet with every payload byte marked with its frame identifier. */
  function Marked<T>(p: Packet<T>): Packet<(T, nat)> {
    Packet(seq(|p.payload|, i requires 0 <= i < |p.payload| => (p.payload[i], p.fid)), p.fid, p.eof)
  }

  function MarkedAll<T>(ps: seq<Packet<T>>): (r: seq<Packet<(T, nat)>>)
    ensures |r| == |ps|
  {
    seq(|ps|, i requires 0 <= i < |ps| => Marked(ps[i]))
  }

  function Unmarked<T>(s: seq<(T, nat)>): seq<T> {
    seq(|s|, i requires 0 <= i < |s| => s[i].0)
  }

  function UnmarkedAll<T>(frames: seq<seq<(T, nat)>>): (r: seq<seq<T>>)
    ensures |r| == |frames|
  {
    seq(|frames|, i requires 0 <= i < |frames| => Unmarked(frames[i]))
  }

  function UnmarkedState<T>(st: Reassembly<(T, nat)>): Reassembly<T> {
    Reassembly(Unmarked(st.buffer), st.lastFid, st.started)
  }

  lemma UnmarkedConcat<T>(a: seq<(T, nat)>, p: Packet<T>)
    ensures Unmarked(a + Marked(p).payload) == Unmarked(a) + p.payload
    ensures Unmarked(Marked(p).payload) == p.payload
  {}

  lemma FeedMarked<T>(st: Reassembly<(T, nat)>, p: Packet<T>)
    ensures var fed := Feed(st, Marked(p));
            Feed(UnmarkedState(st), p) == Fed(UnmarkedState(fed.state), UnmarkedAll(fed.frames))
  {
    UnmarkedConcat(st.buffer, p);
    var fed := Feed(st, Marked(p));
    var plain := Feed(UnmarkedState(st), p);
    assert plain.frames == UnmarkedAll(fed.frames);
  }

  /** Marking changes nothing but the marks. */
  lemma {:induction false} MarkingIsTransparent<T>(st: Reassembly<(T, nat)>, ps: seq<Packet<T>>)
    ensures var fed := FeedAll(st, MarkedAll(ps));
            FeedAll(UnmarkedState(st), ps) == Fed(UnmarkedState(fed.state), UnmarkedAll(fed.frames))
  {
    if ps == [] {
      assert UnmarkedAll<T>([]) == [];
    } else {
      var ps' := ps[..|ps| - 1];
      var p := ps[|ps| - 1];
      MarkingIsTransparent(st, ps');
      assert MarkedAll(ps)[..|ps| - 1] == MarkedAll(ps');
      var before := FeedAll(st, MarkedAll(ps'));
      FeedMarked(before.state, p);
      var last := Feed(before.state, Marked(p));
      assert UnmarkedAll(before.frames + last.frames) == UnmarkedAll(before.frames) + UnmarkedAll(last.frames);
    }
  }

  predicate OneFid<T>(s: seq<(T, nat)>, fid: nat) {
    forall i :: 0 <= i < |s| ==> s[i].1 == fid
  }

  predicate SingleFrame<T>(s: seq<(T, nat)>) {
    s != [] && OneFid(s, s[0].1)
  }

  lemma MarkedStep<T>(st: Reassembly<(T, nat)>, p: Packet<T>)
    requires OneFid(st.buffer, st.lastFid)
    ensures var fed := Feed(st, Marked(p));
            && OneFid(fed.state.buffer, fed.state.lastFid)
            && forall k :: 0 <= k < |fed.frames| ==> SingleFrame(fed.frames[k])
  {}

  /** Every completed buffer is non-empty and holds bytes of a single frame identifier; the
      current buffer holds bytes of the last one seen. */
  lemma {:induction false} BuffersHoldOneFrame<T>(st: Reassembly<(T, nat)>, ps: seq<Packet<T>>)
    requires OneFid(st.buffer, st.lastFid)
    ensures var fed := FeedAll(st, MarkedAll(ps));
            && OneFid(fed.state.buffer, fed.state.lastFid)
            && forall k :: 0 <= k < |fed.frames| ==> SingleFrame(fed.frames[k])
  {
    if ps == [] {
    } else {
      var init, p := ps[..|ps| - 1], ps[|ps| - 1];
      BuffersHoldOneFrame(st, init);
      assert MarkedAll(ps)[..|ps| - 1] == MarkedAll(init);
      MarkedStep(FeedAll(st, MarkedAll(init)).state, p);
    }
  }

  // ----- frames as a camera sends them -----

  /** What a camera sends for one frame: packets of one identifier, end-of-frame set only on
      the last one, if at all. */
  predicate FramePackets<T>(frame: seq<Packet<T>>) {
    && frame != []
    && (forall i :: 0 <= i < |frame| ==> frame[i].fid == frame[0].fid)
    && (forall i :: 0 <= i < |frame| - 1 ==> !frame[i].eof)
  }

  predicate AllFrames<T>(sent: seq<seq<Packet<T>>>) {
    forall k :: 0 <= k < |sent| ==> FramePackets(sent[k])
  }

  function Pending<T>(buffer: seq<T>): seq<seq<T>> {
    if buffer == [] then [] else [buffer]
  }

  /** The frames that carry data, in order. */
  function SentFrames<T>(sent: seq<seq<Packet<T>>>): seq<seq<T>> {
    if sent == [] then [] else SentFrames(sent[..|sent| - 1]) + Pending(Payloads(sent[|sent| - 1]))
  }

  /** Data in the buffer means a frame has started. */
  predicate Sound<T>(st: Reassembly<T>) {
    st.buffer != [] ==> st.started
  }

  /** The identifier of the data still collected after `frame`, where `open` is the one before.
      An end-of-frame mark closes a frame, except on a first packet that another frame's data was
      still waiting for: that packet only completes the other frame. */
  function NextOpen<T>(open: Option<nat>, frame: seq<Packet<T>>): Option<nat>
    requires FramePackets(frame)
  {
    var fid := frame[0].fid;
    var toggles := open.Some? && open != Some(fid);
    if frame[|frame| - 1].eof && !(toggles && |frame| == 1) then None
    else if Payloads(frame) != [] || open == Some(fid) then Some(fid)
    else None
  }

  function OpenFid<T>(sent: seq<seq<Packet<T>>>): Option<nat>
    requires AllFrames(sent)
  {
    if sent == [] then None else NextOpen(OpenFid(sent[..|sent| - 1]), sent[|sent| - 1])
  }

  /** No frame with data has the identifier of data still open when it starts. */
  predicate FramesApart<T>(sent: seq<seq<Packet<T>>>)
    requires AllFrames(sent)
  {
    forall k :: 0 <= k < |sent| && Payloads(sent[k]) != [] ==> OpenFid(sent[..k]) != Some(sent[k][0].fid)
  }

  function OpenOf<T>(st: Reassembly<T>): Option<nat> {
    if st.buffer == [] then None else Some(st.lastFid)
  }

  /** What the frame's packets are added to, and what they complete first. */
  function Kept<T>(st: Reassembly<T>, fid: nat): seq<T> {
    if st.lastFid == fid then st.buffer else []
  }

  function Completed<T>(st: Reassembly<T>, fid: nat): seq<seq<T>> {
    if st.lastFid == fid then [] else Pending(st.buffer)
  }

  /** Packets without an end-of-frame mark only collect: data of another identifier is completed
      first, data of the same one is continued. */
  lemma {:induction false} CollectFrame<T>(st: Reassembly<T>, ps: seq<Packet<T>>, fid: nat)
    requires Sound(st) && ps != []
    requires forall i :: 0 <= i < |ps| ==> ps[i].fid == fid && !ps[i].eof
    ensures var fed := FeedAll(st, ps);
            && Sound(fed.state) && fed.state.lastFid == fid
            && fed.frames == Completed(st, fid) && fed.state.buffer == Kept(st, fid) + Payloads(ps)
  {
    var ps' := ps[..|ps| - 1];
    var last := ps[|ps| - 1].payload;
    if ps' == [] {
      assert FeedAll(st, ps') == Fed(st, []);
      assert Payloads(ps) == [] + last == last;
    } else {
      CollectFrame(st, ps', fid);
      AppendAssociative(Kept(st, fid), Payloads(ps'), last);
    }
  }

  predicate OnePacketToggle<T>(st: Reassembly<T>, frame: seq<Packet<T>>)
    requires frame != []
  {
    |frame| == 1 && st.buffer != [] && st.lastFid != frame[0].fid
  }

  lemma LastPacket<T>(st: Reassembly<T>, p: Packet<T>)
    requires Sound(st) && (st.buffer == [] || st.lastFid == p.fid)
    ensures var fed, all := Feed(st, p), st.buffer + p.payload;
            && fed.frames == (if p.eof then Pending(all) else [])
            && fed.state.buffer == (if p.eof then [] else all)
            && fed.state.lastFid == p.fid && Sound(fed.state)
  {}

  /** The frame's data joins what was kept, and is completed if its end is marked. */
  ghost predicate CollectedInto<T>(st: Reassembly<T>, frame: seq<Packet<T>>, fed: Fed<T>)
    requires frame != []
  {
    var fid, eof := frame[0].fid, frame[|frame| - 1].eof;
    var all := Kept(st, fid) + Payloads(frame);
    && fed.frames == Completed(st, fid) + (if eof then Pending(all) else [])
    && fed.state.buffer == (if eof then [] else all)
    && fed.state.lastFid == fid && Sound(fed.state)
  }

  lemma OnePacketFrame<T>(st: Reassembly<T>, p: Packet<T>)
    requires Sound(st) && !OnePacketToggle(st, [p])
    ensures CollectedInto(st, [p], FeedAll(st, [p]))
  {
    LastPacket(st, p);
    FeedAllOne(st, [], p);
    assert [] + [p] == [p] && Payloads([p]) == Payloads([p][..0]) + p.payload == p.payload;
    assert Kept(st, p.fid) == st.buffer && Completed(st, p.fid) == [];
    assert FeedAll(st, [p]) == Feed(st, p);
  }

  lemma ManyPacketFrame<T>(st: Reassembly<T>, init: seq<Packet<T>>, last: Packet<T>)
    requires Sound(st) && init != [] && FramePackets(init + [last])
    ensures CollectedInto(st, init + [last], FeedAll(st, init + [last]))
  {
    var frame := init + [last];
    forall i | 0 <= i < |init| ensures init[i].fid == last.fid && !init[i].eof {
      assert frame[i] == init[i] && frame[|frame| - 1] == last;
    }
    CollectFrame(st, init, last.fid);
    LastPacket(FeedAll(st, init).state, last);
    FeedAllOne(st, init, last);
    AppendAssociative(Kept(st, last.fid), Payloads(init), last.payload);
  }

  lemma FrameCollected<T>(st: Reassembly<T>, frame: seq<Packet<T>>)
    requires Sound(st) && FramePackets(frame) && !OnePacketToggle(st, frame)
    ensures CollectedInto(st, frame, FeedAll(st, frame))
  {
    if |frame| == 1 {
      assert frame == [frame[0]];
      OnePacketFrame(st, frame[0]);
    } else {
      SplitLast(frame);
      ManyPacketFrame(st, frame[..|frame| - 1], frame[|frame| - 1]);
    }
  }

  /** A frame with data of its own is added behind what was pending; one that has the identifier
      of what is pending is merged into it. */
  lemma FeedFrame<T>(st: Reassembly<T>, frame: seq<Packet<T>>)
    requires Sound(st) && FramePackets(frame)
    ensures var fed := FeedAll(st, frame);
            && Sound(fed.state) && OpenOf(fed.state) == NextOpen(OpenOf(st), frame)
    ensures var fed := FeedAll(st, frame);
            if Payloads(frame) == [] || OpenOf(st) != Some(frame[0].fid)
            then fed.frames + Pending(fed.state.buffer) == Pending(st.buffer) + Pending(Payloads(frame))
            else |fed.frames + Pending(fed.state.buffer)| == 1
  {
    var fid, data := frame[0].fid, Payloads(frame);
    if OnePacketToggle(st, frame) {
      assert FeedAll(st, frame[..0]) == Fed(st, []);
      assert data == [] + frame[0].payload == frame[0].payload;
    } else {
      FrameCollected(st, frame);
      assert Kept(st, fid) + data == if data == [] then Kept(st, fid) else if Kept(st, fid) == [] then data
                                     else Kept(st, fid) + data;
    }
  }

  lemma FeedAllFrames<T>(st: Reassembly<T>, sent: seq<seq<Packet<T>>>, frame: seq<Packet<T>>)
    ensures var before := FeedAll(st, Concat(sent));
            var after := FeedAll(before.state, frame);
            FeedAll(st, Concat(sent + [frame])) == Fed(after.state, before.frames + after.frames)
  {
    ConcatAppend(sent, [frame]);
    assert Concat([frame]) == frame by { assert [frame][1..] == []; }
    FeedAllAppend(st, Concat(sent), frame);
  }

  function Start<T>(): Reassembly<T> {
    Reassembly([], 0, false)
  }

  /** All buffers, completed or pending, after the packets of `sent`. */
  function Recovered<T>(sent: seq<seq<Packet<T>>>): seq<seq<T>> {
    var fed := FeedAll(Start(), Concat(sent));
    fed.frames + Pending(fed.state.buffer)
  }

  lemma {:induction false} OpenTracksBuffer<T>(sent: seq<seq<Packet<T>>>)
    requires AllFrames(sent)
    ensures var st := FeedAll(Start<T>(), Concat(sent)).state;
            Sound(st) && OpenOf(st) == OpenFid(sent)
  {
    if sent == [] {
    } else {
      var sent', frame := sent[..|sent| - 1], sent[|sent| - 1];
      OpenTracksBuffer(sent');
      SplitLast(sent);
      FeedAllFrames(Start<T>(), sent', frame);
      FeedFrame(FeedAll(Start<T>(), Concat(sent')).state, frame);
    }
  }

  /** One more frame: it is appended, or merged into the pending data. */
  lemma RecoveredNext<T>(sent: seq<seq<Packet<T>>>, frame: seq<Packet<T>>)
    requires AllFrames(sent) && FramePackets(frame)
    ensures if Payloads(frame) == [] || OpenFid(sent) != Some(frame[0].fid)
            then Recovered(sent + [frame]) == Recovered(sent) + Pending(Payloads(frame))
            else |Recovered(sent + [frame])| == |Recovered(sent)|
  {
    OpenTracksBuffer(sent);
    var before := FeedAll(Start<T>(), Concat(sent));
    var after := FeedAll(before.state, frame);
    FeedFrame(before.state, frame);
    FeedAllFrames(Start<T>(), sent, frame);
    AppendAssociative(before.frames, after.frames, Pending(after.state.buffer));
    AppendAssociative(before.frames, Pending(before.state.buffer), Pending(Payloads(frame)));
  }

  lemma ApartNext<T>(sent: seq<seq<Packet<T>>>)
    requires AllFrames(sent) && sent != []
    ensures var sent', frame := sent[..|sent| - 1], sent[|sent| - 1];
            FramesApart(sent) <==> FramesApart(sent') && (Payloads(frame) == [] || OpenFid(sent') != Some(frame[0].fid))
  {
    var n := |sent| - 1;
    assert forall k :: 0 <= k <= n ==> sent[..n][..k] == sent[..k];
  }

  /** Merging never makes up for itself: there are as many buffers as frames with data if and only
      if no two are merged, and then they are those frames. */
  lemma {:induction false} RecoveredCount<T>(sent: seq<seq<Packet<T>>>)
    requires AllFrames(sent)
    ensures |Recovered(sent)| <= |SentFrames(sent)|
    ensures FramesApart(sent) ==> Recovered(sent) == SentFrames(sent)
    ensures !FramesApart(sent) ==> |Recovered(sent)| < |SentFrames(sent)|
  {
    if sent == [] {
      assert FeedAll(Start<T>(), Concat(sent)) == Fed(Start(), []);
    } else {
      var sent', frame := sent[..|sent| - 1], sent[|sent| - 1];
      SplitLast(sent);
      RecoveredCount(sent');
      RecoveredNext(sent', frame);
      ApartNext(sent);
    }
  }

  /** For frames of one identifier each, with the end marked at most on the last packet: the
      completed buffers followed by the one that may still be pending are exactly the frames
      sent, in order, if and only if the identifiers tell the frames apart. */
  lemma FramesRecoveredIff<T>(sent: seq<seq<Packet<T>>>)
    requires AllFrames(sent)
    ensures Recovered(sent) == SentFrames(sent) <==> FramesApart(sent)
  {
    RecoveredCount(sent);
  }

  /** Nothing but frames without data strictly between frames `j` and `k`. */
  predicate EmptyBetween<T>(sent: seq<seq<Packet<T>>>, j: nat, k: nat)
    requires k <= |sent|
  {
    forall i :: j < i < k ==> Payloads(sent[i]) == []
  }

  /** Consecutive frames with data have different identifiers. */
  predicate Alternates<T>(sent: seq<seq<Packet<T>>>)
    requires AllFrames(sent)
  {
    forall j, k :: 0 <= j < k < |sent| && Payloads(sent[j]) != [] && Payloads(sent[k]) != [] && EmptyBetween(sent, j, k) ==>
                     sent[j][0].fid != sent[k][0].fid
  }

  /** Open data is the data of the last frame that had any. */
  lemma {:induction false} OpenDataIsLast<T>(sent: seq<seq<Packet<T>>>) returns (j: nat)
    requires AllFrames(sent) && OpenFid(sent).Some?
    ensures j < |sent| && Payloads(sent[j]) != [] && OpenFid(sent) == Some(sent[j][0].fid)
    ensures EmptyBetween(sent, j, |sent|)
  {
    var n := |sent| - 1;
    if Payloads(sent[n]) != [] {
      j := n;
    } else {
      j := OpenDataIsLast(sent[..n]);
    }
  }

  /** A camera whose consecutive frames with data alternate keeps them apart, with or without
      end-of-frame marks, whatever it does in frames without data. */
  lemma AlternatingKeepsApart<T>(sent: seq<seq<Packet<T>>>)
    requires AllFrames(sent) && Alternates(sent)
    ensures FramesApart(sent)
  {
    forall k | 0 <= k < |sent| && Payloads(sent[k]) != [] ensures OpenFid(sent[..k]) != Some(sent[k][0].fid) {
      if OpenFid(sent[..k]).Some? {
        var j := OpenDataIsLast(sent[..k]);
        assert EmptyBetween(sent, j, k) by {
          assert forall i :: j < i < k ==> sent[..k][i] == sent[i];
        }
      }
    }
  }

  /** The toggle is needed: two frames with the same identifier and no end-of-frame mark come
      back as one. */
  lemma SameFidMerges()
    ensures var one := Packet([1], 0, false);
            var two := Packet([2], 0, false);
            FeedAll(Reassembly([], 0, false), [one, two]) == Fed(Reassembly([1, 2], 0, true), [])
  {
    var one := Packet([1], 0, false);
    var two := Packet([2], 0, false);
    assert [one, two] == [one] + [two];
    FeedAllOne(Reassembly([], 0, false), [one], two);
    FeedAllOne(Reassembly([], 0, false), [], one);
  }
}
