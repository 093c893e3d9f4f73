/** Which orders of the callback's store, send and free are safe, and the runs that show which are
    not. */
module TransferOrders {
  import opened UsbBase
  import opened TransferLifecycle
  import opened TransferSafety

  /** No run that submits each transfer once, with no call overlapped by the callback's free,
      reaches freed memory. */
  ghost predicate OrderIsSafe(o: Order)
    requires IsOrder(o)
  {
    forall r :: IsRun(o, INITIAL, r) && SubmitsOnce(r) && !HitsOverlap(o, INITIAL, r, false) ==>
                  !RunTouchesFreed(o, INITIAL, r)
  }

  const EMPTY_READ: Config := Config(Bulk, 0x81, TransferSetup(0, 0, 0, 0), 0, 0)
  const EMPTY_COMPLETION: Completion := Completion(Completed, 0, [], [])

  function StateWith(receiver: bool, n: Native, guest: Guest): State {
    State(map[0 := TableEntry(None, receiver)], map[0 := n], guest, 1)
  }

  const IN_FLIGHT: Native := Native(EMPTY_READ, 0, false, None, InFlight([]), None, None, [])

  /** Allocated, submitted and in flight, with the receiver stored; then `rest`. */
  function StartRun(rest: Run): Run {
    Then(New(EMPTY_READ), Then(SubmitLoad(0), Then(SubmitBody(0, [], 0), Then(SubmitReturn(0), rest))))
  }

  /** What a step adds to what its rest does. */
  lemma HitsThen(o: Order, s: State, l: Label, rest: Run, overlapped: bool)
    requires IsOrder(o) && Enabled(s, l) && IsRun(o, Apply(o, s, l), rest)
    ensures IsRun(o, s, Then(l, rest))
    ensures HitsOverlap(o, s, Then(l, rest), overlapped) <==>
            (IsUse(l) && overlapped) || HitsOverlap(o, Apply(o, s, l), rest, OverlappedAfter(o, s, l, overlapped))
    ensures RunTouchesFreed(o, s, Then(l, rest)) <==>
            TouchesFreed(o, s, l) || RunTouchesFreed(o, Apply(o, s, l), rest)
  {}

  lemma StartInFlight(o: Order, rest: Run)
    requires IsOrder(o) && IsRun(o, StateWith(true, IN_FLIGHT, Idle), rest)
    ensures IsRun(o, INITIAL, StartRun(rest))
    ensures RunTouchesFreed(o, StateWith(true, IN_FLIGHT, Idle), rest) ==> RunTouchesFreed(o, INITIAL, StartRun(rest))
    ensures HitsOverlap(o, INITIAL, StartRun(rest), false) <==>
            HitsOverlap(o, StateWith(true, IN_FLIGHT, Idle), rest, false)
  {
    var s1 := Apply(o, INITIAL, New(EMPTY_READ));
    assert InitialBuffer(EMPTY_READ) == [];
    var s2 := Apply(o, s1, SubmitLoad(0));
    var s3 := StateWith(false, IN_FLIGHT, Submitting(0));
    assert Apply(o, s2, SubmitBody(0, [], 0)) == s3;
    assert Apply(o, s3, SubmitReturn(0)) == StateWith(true, IN_FLIGHT, Idle);
    HitsThen(o, s3, SubmitReturn(0), rest, false);
    HitsThen(o, s2, SubmitBody(0, [], 0), Then(SubmitReturn(0), rest), false);
    HitsThen(o, s1, SubmitLoad(0), Then(SubmitBody(0, [], 0), Then(SubmitReturn(0), rest)), false);
    HitsThen(o, INITIAL, New(EMPTY_READ), StartRun(rest).rest, false);
  }

  /** The transfer with its callback about to act. */
  const CALLED_BACK: Native := IN_FLIGHT.(context := InCallback([], Ok([]), 0), computed := Some(Delivery(Ok([]), [])))

  lemma CompleteInFlight(o: Order, receiver: bool, guest: Guest)
    requires IsOrder(o)
    ensures Enabled(StateWith(receiver, IN_FLIGHT, guest), Complete(0, EMPTY_COMPLETION))
    ensures Apply(o, StateWith(receiver, IN_FLIGHT, guest), Complete(0, EMPTY_COMPLETION))
         == StateWith(receiver, CALLED_BACK, guest)
  {
    var s := ApplyComplete(StateWith(receiver, IN_FLIGHT, guest), 0, EMPTY_COMPLETION);
    assert s.heap[0].computed == Some(Delivery(Ok([]), []));
    assert s.heap == map[0 := CALLED_BACK];
  }

  /** The callback's first action, with the guest idle. */
  function AfterComplete(rest: Run): Run {
    Then(Complete(0, EMPTY_COMPLETION), Then(Act(0), rest))
  }

  /** A faulting continuation of the callback's first action, with no overlap, shows the order is
      not safe. */
  lemma UnsafeAfterFirstAction(o: Order, rest: Run)
    requires IsOrder(o) && IsRun(o, StateWith(true, Perform(CALLED_BACK, o[0]), Idle), rest)
    requires RunTouchesFreed(o, StateWith(true, Perform(CALLED_BACK, o[0]), Idle), rest)
    requires !HitsOverlap(o, StateWith(true, Perform(CALLED_BACK, o[0]), Idle), rest, false)
    requires !Submits(rest, 0) && SubmitsOnce(rest)
    ensures !OrderIsSafe(o)
  {
    var s, s1 := StateWith(true, IN_FLIGHT, Idle), StateWith(true, CALLED_BACK, Idle);
    CompleteInFlight(o, true, Idle);
    assert Apply(o, s1, Act(0)) == StateWith(true, Perform(CALLED_BACK, o[0]), Idle);
    HitsThen(o, s1, Act(0), rest, false);
    HitsThen(o, s, Complete(0, EMPTY_COMPLETION), Then(Act(0), rest), false);
    StartInFlight(o, AfterComplete(rest));
    StartSubmitsOnce(AfterComplete(rest));
  }

  lemma StartSubmitsOnce(rest: Run)
    requires !Submits(rest, 0) && SubmitsOnce(rest)
    ensures SubmitsOnce(StartRun(rest))
  {
    var r := Then(SubmitReturn(0), rest);
    assert !Submits(Then(SubmitBody(0, [], 0), r), 0) && SubmitsOnce(Then(SubmitBody(0, [], 0), r));
  }

  /** Freeing first: a cancel after that still sees `completed == false` and reaches the freed
      transfer. */
  lemma FreeFirstIsUnsafe(o: Order)
    requires IsOrder(o) && o[0] == FreeTransfer
    ensures !OrderIsSafe(o)
  {
    var n := Perform(CALLED_BACK, FreeTransfer);
    var s, s1 := StateWith(true, n, Idle), StateWith(true, n, Cancelling(0));
    var last := Then(CancelCall(0), End);
    assert Apply(o, s, CancelLoad(0)) == s1;
    HitsThen(o, s1, CancelCall(0), End, false);
    HitsThen(o, s, CancelLoad(0), last, false);
    assert !Submits(last, 0) && SubmitsOnce(last);
    UnsafeAfterFirstAction(o, Then(CancelLoad(0), last));
  }

  lemma DroppedBeforeCompleted(o: Order, s: State)
    requires IsOrder(o) && o[0] == SendResult && 0 in s.heap && s.guest.Idle?
    requires s.heap[0].context == InCallback([], Ok([]), 1) && s.heap[0].frees == 1
    ensures IsRun(o, s, Then(Act(0), Then(Act(0), End)))
    ensures RunTouchesFreed(o, s, Then(Act(0), Then(Act(0), End)))
    ensures !HitsOverlap(o, s, Then(Act(0), Then(Act(0), End)), false)
  {
    var s1 := Apply(o, s, Act(0));
    HitsThen(o, s1, Act(0), End, false);
    HitsThen(o, s, Act(0), Then(Act(0), End), false);
  }

  /** The state in which the guest has its result and the flag is not stored. */
  function Woken(): State {
    ApplyAwaitResume(StateWith(false, Perform(CALLED_BACK, SendResult), Awaiting(0)), 0)
  }

  const DROP_AFTER_SEND: Run := Then(DropLoad(0), Then(Act(0), Then(Act(0), End)))

  lemma DropAfterSendFrees(o: Order)
    requires IsOrder(o) && o[0] == SendResult
    ensures IsRun(o, Woken(), DROP_AFTER_SEND) && RunTouchesFreed(o, Woken(), DROP_AFTER_SEND)
    ensures !HitsOverlap(o, Woken(), DROP_AFTER_SEND, false)
  {
    DroppedBeforeCompleted(o, ApplyDropLoad(Woken(), 0));
    HitsThen(o, Woken(), DropLoad(0), DROP_AFTER_SEND.rest, false);
  }

  /** Sending first: the woken guest drops the transfer while `completed` is still false, so
      both the drop and the callback free it. */
  lemma SendFirstIsUnsafe(o: Order)
    requires IsOrder(o) && o[0] == SendResult
    ensures !OrderIsSafe(o)
  {
    var n := Perform(CALLED_BACK, SendResult);
    var s, s1 := StateWith(true, n, Idle), StateWith(false, n, Awaiting(0));
    assert Apply(o, s, AwaitBegin(0)) == s1;
    DropAfterSendFrees(o);
    HitsThen(o, s1, AwaitResume(0), DROP_AFTER_SEND, false);
    HitsThen(o, s, AwaitBegin(0), Then(AwaitResume(0), DROP_AFTER_SEND), false);
    assert !Submits(DROP_AFTER_SEND, 0) && SubmitsOnce(DROP_AFTER_SEND);
    UnsafeAfterFirstAction(o, Then(AwaitBegin(0), Then(AwaitResume(0), DROP_AFTER_SEND)));
  }

  /** Of the six orders of the callback's three actions, exactly those that store `completed`
      first are safe on runs without an overlapped call; the code's order is one of them. */
  lemma OrderSafeIffStoresFirst(o: Order)
    requires IsOrder(o)
    ensures OrderIsSafe(o) <==> o[0] == StoreCompleted
    ensures IsOrder(SOURCE_ORDER) && SOURCE_ORDER == [StoreCompleted, SendResult, FreeTransfer]
  {
    match o[0] {
      case StoreCompleted =>
        forall r | IsRun(o, INITIAL, r) && SubmitsOnce(r) && !HitsOverlap(o, INITIAL, r, false)
          ensures !RunTouchesFreed(o, INITIAL, r)
        {
          SingleSubmitRunFromStart(o, r);
        }
      case FreeTransfer => FreeFirstIsUnsafe(o);
      case SendResult => SendFirstIsUnsafe(o);
    }
  }

  lemma SingleSubmitRunFromStart(o: Order, r: Run)
    requires StoresFirst(o) && IsRun(o, INITIAL, r) && SubmitsOnce(r)
    ensures RunTouchesFreed(o, INITIAL, r) <==> HitsOverlap(o, INITIAL, r, false)
  {
    assert IsRun(o, INITIAL, End) && Exec(o, INITIAL, End) == INITIAL;
    SingleSubmitRunIff(o, INITIAL, r, {}, false);
  }

  // ----- no order closes the gap -----

  /** The callback's three actions, then one step of the guest. */
  function ActionsThen(last: Label): Run {
    Then(Act(0), Then(Act(0), Then(Act(0), Then(last, End))))
  }

  lemma ActionsFree(o: Order, s: State, last: Label)
    requires IsOrder(o) && 0 in s.heap && s.heap[0] == CALLED_BACK
    requires (last == CancelCall(0) && s.guest == Cancelling(0)) || (last == SubmitLoad(0) && GuestMayCall(s, 0))
    ensures IsRun(o, s, ActionsThen(last)) && RunTouchesFreed(o, s, ActionsThen(last))
  {
    var s1 := Apply(o, s, Act(0));
    var s2 := Apply(o, s1, Act(0));
    var s3 := Apply(o, s2, Act(0));
    assert FreeTransfer in o && o == [o[0], o[1], o[2]];
    assert s3.heap[0].frees > 0;
    HitsThen(o, s3, last, End, false);
    HitsThen(o, s2, Act(0), Then(last, End), false);
    HitsThen(o, s1, Act(0), Then(Act(0), Then(last, End)), false);
    HitsThen(o, s, Act(0), ActionsThen(last).rest, false);
  }

  /** A cancel reads the flag, the callback runs, and then the cancel calls libusb. */
  const LATE_CANCEL: Run := Then(CancelLoad(0), Then(Complete(0, EMPTY_COMPLETION), ActionsThen(CancelCall(0))))

  /** Without a lock around load and call, one submit and one cancel are enough to reach freed
      memory, in the code's order and in every other. */
  lemma OverlappedCancelTouchesFreed(o: Order)
    requires IsOrder(o)
    ensures IsRun(o, INITIAL, StartRun(LATE_CANCEL)) && SubmitsOnce(StartRun(LATE_CANCEL))
    ensures RunTouchesFreed(o, INITIAL, StartRun(LATE_CANCEL))
  {
    var s, s1 := StateWith(true, IN_FLIGHT, Idle), StateWith(true, IN_FLIGHT, Cancelling(0));
    assert Apply(o, s, CancelLoad(0)) == s1;
    CompleteInFlight(o, true, Cancelling(0));
    ActionsFree(o, StateWith(true, CALLED_BACK, Cancelling(0)), CancelCall(0));
    HitsThen(o, s1, Complete(0, EMPTY_COMPLETION), ActionsThen(CancelCall(0)), false);
    HitsThen(o, s, CancelLoad(0), LATE_CANCEL.rest, false);
    StartInFlight(o, LATE_CANCEL);
    LateCancelSubmitsOnce();
  }

  lemma LateCancelSubmitsOnce()
    ensures SubmitsOnce(StartRun(LATE_CANCEL))
  {
    var last := Then(CancelCall(0), End);
    assert !Submits(Then(Act(0), last), 0) && SubmitsOnce(Then(Act(0), last));
    assert !Submits(ActionsThen(CancelCall(0)), 0) && SubmitsOnce(ActionsThen(CancelCall(0)));
    assert !Submits(LATE_CANCEL, 0) && SubmitsOnce(LATE_CANCEL);
    StartSubmitsOnce(LATE_CANCEL);
  }

  // ----- submitting twice -----

  const RESUBMIT: Run := Then(Complete(0, EMPTY_COMPLETION), ActionsThen(SubmitLoad(0)))

  /** The code itself on a guest that submits a transfer again after its callback has run: the
      second submit reads the freed transfer before it looks at `completed`. */
  lemma ResubmitAfterCompletion()
    ensures IsRun(SOURCE_ORDER, INITIAL, StartRun(RESUBMIT)) && !SubmitsOnce(StartRun(RESUBMIT))
    ensures RunTouchesFreed(SOURCE_ORDER, INITIAL, StartRun(RESUBMIT))
  {
    CompleteInFlight(SOURCE_ORDER, true, Idle);
    ActionsFree(SOURCE_ORDER, StateWith(true, CALLED_BACK, Idle), SubmitLoad(0));
    HitsThen(SOURCE_ORDER, StateWith(true, IN_FLIGHT, Idle), Complete(0, EMPTY_COMPLETION), RESUBMIT.rest, false);
    StartInFlight(SOURCE_ORDER, RESUBMIT);
    ResubmitSubmitsTwice();
  }

  lemma ResubmitSubmitsTwice()
    ensures !SubmitsOnce(StartRun(RESUBMIT))
  {
    var last := Then(SubmitLoad(0), End);
    assert Submits(Then(Act(0), last), 0);
    assert Submits(ActionsThen(SubmitLoad(0)), 0);
    assert Submits(Then(SubmitReturn(0), RESUBMIT), 0);
  }
}
