/** What holds over every run of the transfer protocol: frees, buffer ownership, delivery,
    wake-ups, and exactly which accesses and which runs reach freed memory. */
module TransferSafety {
  import opened UsbBase
  import opened TransferLifecycle

  /** The states some run reaches. */
  ghost predicate Reachable(o: Order, s: State) {
    IsOrder(o) && exists r :: IsRun(o, INITIAL, r) && Exec(o, INITIAL, r) == s
  }

  predicate StoresFirst(o: Order) {
    IsOrder(o) && o[0] == StoreCompleted
  }

  lemma {:induction false} RunKeepsInv(o: Order, s: State, r: Run)
    requires Inv(o, s) && IsRun(o, s, r)
    ensures Inv(o, Exec(o, s, r))
    decreases r
  {
    if r.End? {
    } else {
      StepKeepsInv(o, s, r.first);
      RunKeepsInv(o, Apply(o, s, r.first), r.rest);
    }
  }

  lemma RunThen(o: Order, s: State, l: Label, rest: Run)
    requires IsOrder(o) && Enabled(s, l) && IsRun(o, Apply(o, s, l), rest)
    ensures IsRun(o, s, Then(l, rest)) && Exec(o, s, Then(l, rest)) == Exec(o, Apply(o, s, l), rest)
    ensures RunTouchesFreed(o, s, Then(l, rest)) <==>
            TouchesFreed(o, s, l) || RunTouchesFreed(o, Apply(o, s, l), rest)
  {}

  lemma ReachableInv(o: Order, s: State)
    requires StoresFirst(o) && Reachable(o, s)
    ensures Inv(o, s)
  {
    var r :| IsRun(o, INITIAL, r) && Exec(o, INITIAL, r) == s;
    RunKeepsInv(o, INITIAL, r);
  }

  // ----- freed at most once, and exactly once in the end -----

  /** At most one free in any state; exactly one once the guest has dropped the transfer and
      no callback context is left; none while it is still in flight or still unsubmitted. */
  lemma FreedExactlyOnce(o: Order, s: State, t: nat)
    requires StoresFirst(o) && Reachable(o, s) && t in s.heap
    ensures s.heap[t].frees <= 1
    ensures t !in s.table && s.heap[t].context.NoContext? ==> s.heap[t].frees == 1
    ensures s.heap[t].context.InFlight? ==> s.heap[t].frees == 0
    ensures t in s.table && !Submitted(s.heap[t]) ==> s.heap[t].frees == 0
  {
    ReachableInv(o, s);
    assert NativeInv(o, s, t);
  }

  function CallbackRun(t: nat, done: Completion): Run {
    Then(Complete(t, done), ActionsRun(t))
  }

  function ActionsRun(t: nat): Run {
    RemainingRun(t, 0)
  }

  /** What is left of the callback after `done` actions. */
  function RemainingRun(t: nat, done: nat): Run
    decreases 3 - done
  {
    if done >= 3 then Then(DropContext(t), End) else Then(Act(t), RemainingRun(t, done + 1))
  }

  /** The callback can always run to its end, on its own. */
  lemma {:induction false} CallbackFinishes(o: Order, s: State, t: nat)
    requires IsOrder(o) && t in s.heap && s.heap[t].context.InCallback? && s.heap[t].context.done <= 3
    ensures IsRun(o, s, RemainingRun(t, s.heap[t].context.done))
    ensures var s' := Exec(o, s, RemainingRun(t, s.heap[t].context.done));
            && t in s'.heap && s'.heap[t].context.NoContext? && s'.heap[t].computed == s.heap[t].computed
            && s'.guest == s.guest
    decreases 3 - s.heap[t].context.done
  {
    var done := s.heap[t].context.done;
    if done == 3 {
      RunThen(o, s, DropContext(t), End);
    } else {
      var s1 := Apply(o, s, Act(t));
      CallbackFinishes(o, s1, t);
      RunThen(o, s, Act(t), RemainingRun(t, done + 1));
    }
  }

  /** Whatever completion the device reports, the callback's own steps can always run to the
      end, with no help from the guest, and leave the transfer freed once and its context gone. */
  lemma CallbackReclaims(o: Order, s: State, t: nat, done: Completion)
    requires StoresFirst(o) && Reachable(o, s) && Enabled(s, Complete(t, done))
    ensures IsRun(o, s, CallbackRun(t, done))
    ensures var s' := Exec(o, s, CallbackRun(t, done));
            t in s'.heap && s'.heap[t].frees == 1 && s'.heap[t].context.NoContext? && s'.heap[t].completed
  {
    ReachableInv(o, s);
    CallbackFinishes(o, ApplyComplete(s, t, done), t);
    RunKeepsInv(o, s, CallbackRun(t, done));
    assert NativeInv(o, Exec(o, s, CallbackRun(t, done)), t);
  }

  // ----- the data buffer -----

  /** An untouched entry buffer is still the initial one; the buffer a context owns keeps its
      size and, on a control transfer, its setup packet. */
  predicate BufferAt(s: State, t: nat)
    requires t in s.heap
  {
    var n := s.heap[t];
    && (t in s.table && s.table[t].buffer.Some? ==> s.table[t].buffer.value == InitialBuffer(n.config))
    && (!n.context.NoContext? ==> KeepsShape(n.config, n.context.buffer))
  }

  predicate BufferInv(s: State) {
    forall t {:trigger BufferAt(s, t)} :: t in s.heap ==> BufferAt(s, t)
  }

  predicate KeepsShape(c: Config, buffer: seq<byte>) {
    && |buffer| == |InitialBuffer(c)|
    && (c.kind.Control? ==> buffer[..8] == InitialBuffer(c)[..8])
  }

  lemma SubmitKeepsBuffers(s: State, t: nat, data: seq<byte>, code: int, u: nat)
    requires BufferInv(s) && t in s.table && t in s.heap && u in s.heap
    ensures BufferAt(ApplySubmit(s, t, data, code), u)
  {
    assert BufferAt(s, u) && BufferAt(s, t);
  }

  lemma CompleteKeepsBuffers(s: State, t: nat, done: Completion, u: nat)
    requires BufferInv(s) && Enabled(s, Complete(t, done)) && u in s.heap
    ensures BufferAt(ApplyComplete(s, t, done), u)
  {
    assert BufferAt(s, u) && BufferAt(s, t);
  }

  lemma StepKeepsBuffers(o: Order, s: State, l: Label)
    requires BufferInv(s) && IsOrder(o) && Enabled(s, l)
    ensures BufferInv(Apply(o, s, l))
  {
    var s' := Apply(o, s, l);
    forall u | u in s'.heap ensures BufferAt(s', u) {
      if u in s.heap { assert BufferAt(s, u); }
      match l {
        case SubmitBody(t, data, code) => SubmitKeepsBuffers(s, t, data, code, u);
        case Complete(t, done) => CompleteKeepsBuffers(s, t, done, u);
        case _ =>
      }
    }
  }

  lemma {:induction false} RunKeepsBuffers(o: Order, s: State, r: Run)
    requires BufferInv(s) && IsOrder(o) && IsRun(o, s, r)
    ensures BufferInv(Exec(o, s, r))
    decreases r
  {
    if r.End? {
    } else {
      StepKeepsBuffers(o, s, r.first);
      RunKeepsBuffers(o, Apply(o, s, r.first), r.rest);
    }
  }

  /** While a transfer is in flight its buffer is owned by the context alone: the entry's
      share is gone, and the memory the device writes has the size it was allocated with. */
  lemma InFlightBufferOwnedOnce(o: Order, s: State, t: nat)
    requires StoresFirst(o) && Reachable(o, s) && t in s.heap
    ensures !s.heap[t].context.NoContext? ==>
              && !BufferGone(s, t)
              && (t in s.table ==> s.table[t].buffer.None?)
              && KeepsShape(s.heap[t].config, s.heap[t].context.buffer)
    ensures t in s.table && s.table[t].buffer.Some? ==>
              s.heap[t].context.NoContext? && s.heap[t].computed.None? && s.heap[t].frees == 0
  {
    ReachableInv(o, s);
    assert NativeInv(o, s, t);
    var r :| IsRun(o, INITIAL, r) && Exec(o, INITIAL, r) == s;
    RunKeepsBuffers(o, INITIAL, r);
    assert BufferAt(s, t);
  }

  /** The data bytes of a buffer, behind the setup packet of a control transfer. */
  function DataPart(c: Config, buffer: seq<byte>): seq<byte> {
    if c.kind.Control? && |buffer| >= 8 then buffer[8..] else buffer
  }

  /** A device's reading of a setup packet (section 9.3 of USB 2.0): the request, and wLength. */
  function DecodeSetup(b: seq<byte>): (TransferSetup, u16)
    requires |b| >= 8
  {
    (TransferSetup(b[0], b[1], b[2] as int + 0x100 * b[3] as int, b[4] as int + 0x100 * b[5] as int),
     b[6] as int + 0x100 * b[7] as int)
  }

  /** What new_transfer puts in front of a control buffer is the request it was given; wLength is
      the data length if and only if that fits 16 bits. */
  lemma SetupPacketDecodes(c: Config)
    requires c.kind.Control?
    ensures DecodeSetup(InitialBuffer(c)).0 == c.setup
    ensures DecodeSetup(InitialBuffer(c)).1 as int == c.bufLen <==> c.bufLen < 0x1_0000
    ensures forall i :: 8 <= i < |InitialBuffer(c)| ==> InitialBuffer(c)[i] == 0
  {}

  /** An accepted submit hands over a buffer with the setup packet in front, the caller's data
      behind it on an OUT transfer, and nothing else changed. */
  lemma SubmitPlacesData(o: Order, s: State, t: nat, data: seq<byte>, code: int)
    requires StoresFirst(o) && Reachable(o, s) && Enabled(s, SubmitBody(t, data, code))
    requires BranchOf(s.heap[t], s.table[t], data, code).Accepted?
    ensures var c, buffer := s.heap[t].config, BranchOf(s.heap[t], s.table[t], data, code).buffer;
            && KeepsShape(c, buffer)
            && DataPart(c, buffer) == if DirectionIn(c) then DataPart(c, InitialBuffer(c)) else data
  {
    InFlightBufferOwnedOnce(o, s, t);
    var r :| IsRun(o, INITIAL, r) && Exec(o, INITIAL, r) == s;
    RunKeepsBuffers(o, INITIAL, r);
    assert BufferAt(s, t);
  }

  function ReceivedBytes(c: Config, done: Completion): seq<byte> {
    var data := DataPart(c, done.buffer);
    if done.actualLength <= |data| then data[..done.actualLength] else data
  }

  /** A completed transfer's result: an IN transfer yields exactly the bytes received, an ISO
      transfer the whole flat buffer with its packet list, an OUT transfer no device data. */
  lemma CallbackComputesReceivedData(o: Order, s: State, t: nat, done: Completion)
    requires StoresFirst(o) && Reachable(o, s) && Enabled(s, Complete(t, done)) && done.status.Completed?
    ensures var n := s.heap[t];
            var result := Apply(o, s, Complete(t, done)).heap[t].computed;
            && result.Some? && result.value.outcome.Ok?
            && (IsoTransfer(n.config) ==>
                  result.value == Delivery(Ok(done.buffer), GuestPackets(done.iso)) && |done.iso| == n.config.isoPackets)
            && (!IsoTransfer(n.config) && DirectionIn(n.config) ==>
                  result.value == Delivery(Ok(ReceivedBytes(n.config, done)), []))
            && (!IsoTransfer(n.config) ==> done.actualLength <= |DataPart(n.config, done.buffer)|)
            && (!IsoTransfer(n.config) && !DirectionIn(n.config) && n.config.kind.Control? ==>
                  result.value == Delivery(Ok([]), []))
            && (!IsoTransfer(n.config) && !DirectionIn(n.config) && !n.config.kind.Control? ==>
                  result.value == Delivery(Ok(seq(done.actualLength, _ => 0)), []))
  {
    InFlightBufferOwnedOnce(o, s, t);
    var c := s.heap[t].config;
    if c.kind.Control? {
      assert done.actualLength <= |done.buffer| - 8;
      assert done.buffer[8..8 + done.actualLength] == ReceivedBytes(c, done);
      assert done.buffer[0] == done.buffer[..8][0] == InitialBuffer(c)[..8][0] == c.setup.bmRequestType;
    }
  }

  // ----- delivery -----

  /** `await_transfer` returns at most once for a transfer, and what it returns, packet list
      included, is what the callback computed. */
  lemma DeliveredAtMostOnce(o: Order, s: State, t: nat)
    requires StoresFirst(o) && Reachable(o, s) && t in s.heap
    ensures s.heap[t].delivered == [] ||
            (s.heap[t].computed.Some? && s.heap[t].delivered == [s.heap[t].computed.value])
  {
    ReachableInv(o, s);
    assert NativeInv(o, s, t);
  }

  /** When an await resumes, the packet list the callback computed is already stored: the
      resumed call returns the callback's delivery and nothing older. */
  lemma AwaitReturnsWhatCallbackComputed(o: Order, s: State, t: nat)
    requires StoresFirst(o) && Reachable(o, s) && Enabled(s, AwaitResume(t))
    ensures s.heap[t].computed.Some? && s.heap[t].completed
    ensures Apply(o, s, AwaitResume(t)).heap[t].delivered == [s.heap[t].computed.value]
  {
    ReachableInv(o, s);
    assert NativeInv(o, s, t);
    assert s.heap[t].context.InCallback? && SendResult in o[..s.heap[t].context.done] ==>
        o[0] in o[..s.heap[t].context.done];
  }

  /** A guest that waits is always waiting for something that will come: the result is in the
      channel, or libusb or the callback still holds the sender. */
  lemma NoLostWakeup(o: Order, s: State, t: nat)
    requires StoresFirst(o) && Reachable(o, s) && s.guest == Awaiting(t)
    ensures t in s.heap && t in s.table
    ensures || s.heap[t].channel.Some?
            || s.heap[t].context.InFlight?
            || (s.heap[t].context.InCallback? && !Done(o, s.heap[t], SendResult))
  {
    ReachableInv(o, s);
    assert NativeInv(o, s, t);
  }

  /** The await entry point takes the receiver, or reports NotFound, exactly as follows. */
  lemma AwaitFindsReceiver(o: Order, s: State, t: nat)
    requires StoresFirst(o) && Reachable(o, s) && Enabled(s, AwaitBegin(t))
    ensures Apply(o, s, AwaitBegin(t)).guest == Awaiting(t) <==>
            Submitted(s.heap[t]) && s.heap[t].delivered == []
  {
    ReachableInv(o, s);
    assert NativeInv(o, s, t);
  }

  // ----- freed memory -----

  lemma FreedImpliesCompleted(o: Order, s: State)
    requires Inv(o, s)
    ensures forall t :: t in s.heap && Submitted(s.heap[t]) && s.heap[t].frees > 0 ==> s.heap[t].completed
  {
    forall t | t in s.heap && Submitted(s.heap[t]) && s.heap[t].frees > 0 ensures s.heap[t].completed {
      assert NativeInv(o, s, t);
      if s.heap[t].context.InCallback? {
        assert o[0] in o[..s.heap[t].context.done];
      }
    }
  }

  /** Exactly which accesses reach freed memory: a submit of a transfer whose callback has freed
      it; an OUT submit after a refused one dropped the buffer; and the call behind a stale load of
      `completed`, when the callback's free came in between. */
  lemma TouchesFreedIff(o: Order, s: State, l: Label)
    requires StoresFirst(o) && Reachable(o, s) && Enabled(s, l)
    ensures TouchesFreed(o, s, l) <==>
            match l
            case SubmitLoad(t) => CallbackFreed(o, s.heap[t])
            case SubmitBody(t, data, _) =>
              var n := s.heap[t];
              if Submitted(n) then CallbackFreed(o, n)
              else s.table[t].buffer.None? && !DirectionIn(n.config) && !RejectsLength(n.config, data)
            case CancelCall(t) => CallbackFreed(o, s.heap[t])
            case DropCall(t) => CallbackFreed(o, s.heap[t])
            case _ => false
  {
    ReachableInv(o, s);
    if l.SubmitLoad? || l.SubmitBody? || l.CancelCall? || l.DropLoad? || l.DropCall? || l.Complete? || l.Act? {
      assert NativeInv(o, s, l.t);
    }
    if l.Act? {
      DoneNext(o, s.heap[l.t].context.done, FreeTransfer);
    }
    FreedImpliesCompleted(o, s);
  }

  predicate CallbackFreed(o: Order, n: Native) {
    Submitted(n) && Done(o, n, FreeTransfer)
  }

  // ----- guest calls overlapped by the callback -----

  /** The running call was overlapped if and only if its transfer is freed by now. */
  predicate OverlapShows(s: State, overlapped: bool) {
    overlapped <==> Loaded(s.guest).Some? && Loaded(s.guest).value in s.heap && s.heap[Loaded(s.guest).value].frees > 0
  }

  /** A load that sees `completed == false` sees a transfer that is not freed. */
  lemma LoadSeesUnfreed(o: Order, s: State, t: nat)
    requires Inv(o, s) && GuestMayCall(s, t) && !s.heap[t].completed
    ensures s.heap[t].frees == 0
  {
    assert NativeInv(o, s, t);
    FreedImpliesCompleted(o, s);
  }

  lemma StepShowsOverlap(o: Order, s: State, l: Label, overlapped: bool)
    requires Inv(o, s) && Enabled(s, l) && OverlapShows(s, overlapped)
    ensures OverlapShows(Apply(o, s, l), OverlappedAfter(o, s, l, overlapped))
  {
    if l.SubmitLoad? || l.CancelLoad? || l.DropLoad? {
      if !s.heap[l.t].completed {
        LoadSeesUnfreed(o, s, l.t);
      }
    }
  }

  /** The callback freed the transfer somewhere in this stretch of a guest call. */
  ghost predicate Overlapped(o: Order, s: State, r: Run)
    requires IsOrder(o) && IsRun(o, s, r)
    decreases r
  {
    r.Then? && (Overlaps(o, s, r.first) || Overlapped(o, Apply(o, s, r.first), r.rest))
  }

  /** The stretch does not contain the call's second half. */
  predicate NoUse(r: Run) {
    r.Then? ==> !IsUse(r.first) && NoUse(r.rest)
  }

  lemma {:induction false} OverlapShowsInFrees(o: Order, s: State, r: Run, t: nat, overlapped: bool)
    requires Inv(o, s) && IsRun(o, s, r) && NoUse(r) && Loaded(s.guest) == Some(t) && OverlapShows(s, overlapped)
    ensures var s' := Exec(o, s, r);
            && Loaded(s'.guest) == Some(t) && t in s'.heap
            && (s'.heap[t].frees > 0 <==> overlapped || Overlapped(o, s, r))
    decreases r
  {
    if r.End? {
    } else {
      StepKeepsInv(o, s, r.first);
      StepShowsOverlap(o, s, r.first, overlapped);
      OverlapShowsInFrees(o, Apply(o, s, r.first), r.rest, t, OverlappedAfter(o, s, r.first, overlapped));
    }
  }

  /** The libusb call behind the load of a cancel or a drop. */
  function CallBehind(load: Label): Label
    requires load.CancelLoad? || load.DropLoad?
  {
    if load.CancelLoad? then CancelCall(load.t) else DropCall(load.t)
  }

  /** A cancel that saw `completed == false` calls libusb with a freed transfer if and only if the
      callback's free fell between its load and its call; and likewise a drop. */
  lemma CallTouchesFreedIffOverlapped(o: Order, s: State, load: Label, r: Run)
    requires StoresFirst(o) && Reachable(o, s) && Enabled(s, load) && (load.CancelLoad? || load.DropLoad?)
    requires var s' := Apply(o, s, load);
             Loaded(s'.guest) == Some(load.t) && IsRun(o, s', r) && NoUse(r)
    ensures var s' := Apply(o, s, load);
            && Enabled(Exec(o, s', r), CallBehind(load))
            && (TouchesFreed(o, Exec(o, s', r), CallBehind(load)) <==> Overlapped(o, s', r))
  {
    ReachableInv(o, s);
    LoadSeesUnfreed(o, s, load.t);
    var s' := Apply(o, s, load);
    StepKeepsInv(o, s, load);
    OverlapShowsInFrees(o, s', r, load.t, false);
    LoadedKept(o, s', r);
  }

  lemma {:induction false} LoadedKept(o: Order, s: State, r: Run)
    requires IsOrder(o) && IsRun(o, s, r) && NoUse(r) && Loaded(s.guest).Some?
    ensures Exec(o, s, r).guest == s.guest
    decreases r
  {
    if r.End? {
    } else {
      LoadedKept(o, Apply(o, s, r.first), r.rest);
    }
  }

  // ----- runs that submit each transfer once -----

  /** Never submitted: the entry still owns its buffer and the transfer is not freed. */
  predicate Fresh(s: State, t: nat) {
    t in s.table && t in s.heap ==> s.table[t].buffer.Some? && s.heap[t].frees == 0 && !Submitted(s.heap[t])
  }

  predicate CheckedFresh(s: State) {
    s.guest.Checked? ==> Fresh(s, s.guest.t)
  }

  lemma FreshUntilSubmitted(o: Order, s: State, l: Label, t: nat)
    requires Inv(o, s) && Enabled(s, l) && Fresh(s, t) && (l.SubmitBody? ==> l.t != t)
    ensures Fresh(Apply(o, s, l), t)
  {
    if t in s.heap { assert NativeInv(o, s, t); }
  }

  lemma StepKeepsCheckedFresh(o: Order, s: State, l: Label)
    requires Inv(o, s) && Enabled(s, l) && CheckedFresh(s) && (l.SubmitLoad? ==> Fresh(s, l.t))
    ensures CheckedFresh(Apply(o, s, l))
  {
    if s.guest.Checked? && !l.SubmitBody? {
      FreshUntilSubmitted(o, s, l, s.guest.t);
    }
  }

  /** In a run that submits each transfer once, a step reaches freed memory if and only if it is
      the second half of an overlapped call. */
  lemma SingleSubmitStep(o: Order, s: State, l: Label, overlapped: bool)
    requires StoresFirst(o) && Reachable(o, s) && Enabled(s, l)
    requires OverlapShows(s, overlapped) && CheckedFresh(s) && (l.SubmitLoad? ==> Fresh(s, l.t))
    ensures TouchesFreed(o, s, l) <==> IsUse(l) && overlapped
  {
    ReachableInv(o, s);
    TouchesFreedIff(o, s, l);
    if l.SubmitLoad? || IsUse(l) { assert NativeInv(o, s, l.t); }
  }

  /** A run that submits each transfer once reaches freed memory if and only if in one of its
      calls the callback's free falls between the load of `completed` and the use behind it. */
  lemma {:induction false} SingleSubmitRunIff(o: Order, s: State, r: Run, submitted: set<nat>, overlapped: bool)
    requires StoresFirst(o) && Reachable(o, s) && IsRun(o, s, r) && SubmitsOnce(r)
    requires forall t :: t !in submitted ==> Fresh(s, t)
    requires forall t :: t in submitted ==> !Submits(r, t)
    requires OverlapShows(s, overlapped) && CheckedFresh(s)
    requires s.guest.Checked? ==> s.guest.t in submitted
    ensures RunTouchesFreed(o, s, r) <==> HitsOverlap(o, s, r, overlapped)
    decreases r
  {
    if r.End? {
    } else {
      var l := r.first;
      ReachableInv(o, s);
      if l.SubmitLoad? { assert Fresh(s, l.t); }
      SingleSubmitStep(o, s, l, overlapped);
      ReachableStep(o, s, l);
      StepShowsOverlap(o, s, l, overlapped);
      StepKeepsCheckedFresh(o, s, l);
      var submitted' := if l.SubmitLoad? then submitted + {l.t} else submitted;
      forall t | t !in submitted' ensures Fresh(Apply(o, s, l), t) {
        FreshUntilSubmitted(o, s, l, t);
      }
      SingleSubmitRunIff(o, Apply(o, s, l), r.rest, submitted', OverlappedAfter(o, s, l, overlapped));
    }
  }

  function Join(a: Run, b: Run): Run {
    if a.End? then b else Then(a.first, Join(a.rest, b))
  }

  function Snoc(r: Run, l: Label): Run {
    Join(r, Then(l, End))
  }

  lemma {:induction false} RunJoin(o: Order, s: State, a: Run, b: Run)
    requires IsOrder(o) && IsRun(o, s, a) && IsRun(o, Exec(o, s, a), b)
    ensures IsRun(o, s, Join(a, b)) && Exec(o, s, Join(a, b)) == Exec(o, Exec(o, s, a), b)
    ensures RunTouchesFreed(o, s, Join(a, b)) <==> RunTouchesFreed(o, s, a) || RunTouchesFreed(o, Exec(o, s, a), b)
    decreases a
  {
    if a.End? {
    } else {
      RunJoin(o, Apply(o, s, a.first), a.rest, b);
      RunThen(o, s, a.first, Join(a.rest, b));
    }
  }

  lemma RunSnoc(o: Order, s: State, r: Run, l: Label)
    requires IsOrder(o) && IsRun(o, s, r) && Enabled(Exec(o, s, r), l)
    ensures IsRun(o, s, Snoc(r, l)) && Exec(o, s, Snoc(r, l)) == Apply(o, Exec(o, s, r), l)
    ensures RunTouchesFreed(o, s, Snoc(r, l)) <==> RunTouchesFreed(o, s, r) || TouchesFreed(o, Exec(o, s, r), l)
  {
    RunThen(o, Exec(o, s, r), l, End);
    RunJoin(o, s, r, Then(l, End));
  }

  lemma ReachableStep(o: Order, s: State, l: Label)
    requires Reachable(o, s) && Enabled(s, l)
    ensures Reachable(o, Apply(o, s, l))
  {
    var r :| IsRun(o, INITIAL, r) && Exec(o, INITIAL, r) == s;
    RunSnoc(o, INITIAL, r, l);
  }

  lemma ReachableRun(o: Order, s: State, r: Run)
    requires Reachable(o, s) && IsRun(o, s, r)
    ensures Reachable(o, Exec(o, s, r))
  {
    var before :| IsRun(o, INITIAL, before) && Exec(o, INITIAL, before) == s;
    RunJoin(o, INITIAL, before, r);
  }
}
