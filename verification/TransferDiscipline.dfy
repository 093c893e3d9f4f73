/** What a guest has to know before it cancels or drops a transfer: that the transfer is settled,
    which it is before its submit and after its await. */
module TransferDiscipline {
  import opened UsbBase
  import opened TransferLifecycle
  import opened TransferSafety
  import TransferOrders

  /** The callback has stored its flag, or there is none to come. */
  predicate Settled(s: State, t: nat)
    requires t in s.heap
  {
    s.heap[t].completed || !Submitted(s.heap[t])
  }

  predicate IsLoad(l: Label) {
    l.CancelLoad? || l.DropLoad?
  }

  /** Whatever the event thread does between the two halves of the call, neither half reaches
      freed memory. */
  ghost predicate CallIsClean(o: Order, s: State, load: Label)
    requires IsOrder(o) && Enabled(s, load) && IsLoad(load)
  {
    var s' := Apply(o, s, load);
    && !TouchesFreed(o, s, load)
    && (Loaded(s'.guest) == Some(load.t) ==>
          forall r :: IsRun(o, s', r) && NoUse(r) && Enabled(Exec(o, s', r), CallBehind(load)) ==>
                        !TouchesFreed(o, Exec(o, s', r), CallBehind(load)))
  }

  // ----- one call -----

  lemma {:induction false} UnsubmittedKept(o: Order, s: State, r: Run, t: nat)
    requires Inv(o, s) && IsRun(o, s, r) && NoUse(r) && s.guest == Cancelling(t)
    requires t in s.heap && !Submitted(s.heap[t])
    ensures t in Exec(o, s, r).heap && !Submitted(Exec(o, s, r).heap[t])
    decreases r
  {
    if r.End? {
    } else {
      assert NativeInv(o, s, t);
      StepKeepsInv(o, s, r.first);
      UnsubmittedKept(o, Apply(o, s, r.first), r.rest, t);
    }
  }

  lemma SettledCallIsClean(o: Order, s: State, load: Label, r: Run)
    requires StoresFirst(o) && Reachable(o, s) && Enabled(s, load) && IsLoad(load) && Settled(s, load.t)
    requires var s' := Apply(o, s, load);
             Loaded(s'.guest) == Some(load.t) && IsRun(o, s', r) && NoUse(r) && Enabled(Exec(o, s', r), CallBehind(load))
    ensures !TouchesFreed(o, Exec(o, Apply(o, s, load), r), CallBehind(load))
  {
    var s' := Apply(o, s, load);
    ReachableInv(o, s);
    assert NativeInv(o, s, load.t);
    ReachableStep(o, s, load);
    ReachableInv(o, s');
    UnsubmittedKept(o, s', r, load.t);
    ReachableRun(o, s', r);
    TouchesFreedIff(o, Exec(o, s', r), CallBehind(load));
  }

  /** A cancelled transfer is reported with its buffer as it was. */
  function CancelledCompletion(c: Config, buffer: seq<byte>): Completion {
    Completion(Cancelled, 0, buffer, seq(c.isoPackets, _ => IsoDesc(0, Cancelled)))
  }

  lemma CancelledConforms(o: Order, s: State, t: nat)
    requires StoresFirst(o) && Reachable(o, s) && t in s.heap && s.heap[t].context.InFlight?
    ensures Enabled(s, Complete(t, CancelledCompletion(s.heap[t].config, s.heap[t].context.buffer)))
  {
    InFlightBufferOwnedOnce(o, s, t);
  }

  /** The callback, or what is left of it, with the transfer cancelled if it is still in flight. */
  function CallbackSteps(n: Native, t: nat): Run {
    match n.context
    case InFlight(buffer) => CallbackRun(t, CancelledCompletion(n.config, buffer))
    case _ => RemainingRun(t, 0)
  }

  lemma CallbackStepsNoUse(n: Native, t: nat)
    ensures NoUse(CallbackSteps(n, t))
  {
    assert NoUse(RemainingRun(t, 2));
    assert NoUse(RemainingRun(t, 0));
  }

  /** An unsettled transfer has its whole callback still to run, and its receiver in the table. */
  lemma UnsettledHasCallback(o: Order, s: State, t: nat)
    requires Inv(o, s) && GuestMayCall(s, t) && !Settled(s, t)
    ensures s.heap[t].context.InFlight? || (s.heap[t].context.InCallback? && s.heap[t].context.done == 0)
    ensures s.table[t].receiver
  {
    assert NativeInv(o, s, t);
  }

  lemma CallbackStepsFree(o: Order, s: State, t: nat)
    requires StoresFirst(o) && Reachable(o, s) && t in s.heap
    requires s.heap[t].context.InFlight? || (s.heap[t].context.InCallback? && s.heap[t].context.done == 0)
    ensures var r := CallbackSteps(s.heap[t], t);
            && IsRun(o, s, r) && Exec(o, s, r).guest == s.guest
            && t in Exec(o, s, r).heap && Exec(o, s, r).heap[t].frees > 0
  {
    var r := CallbackSteps(s.heap[t], t);
    ReachableInv(o, s);
    assert NativeInv(o, s, t);
    if s.heap[t].context.InFlight? {
      CancelledConforms(o, s, t);
      var done := CancelledCompletion(s.heap[t].config, s.heap[t].context.buffer);
      CallbackFinishes(o, ApplyComplete(s, t, done), t);
      RunThen(o, s, Complete(t, done), RemainingRun(t, 0));
    } else {
      CallbackFinishes(o, s, t);
    }
    RunKeepsInv(o, s, r);
    assert NativeInv(o, Exec(o, s, r), t);
  }

  /** A cancel or a drop is clean whatever the event thread does in it if and only if it finds the
      transfer settled. */
  lemma CallCleanIffSettled(o: Order, s: State, load: Label)
    requires StoresFirst(o) && Reachable(o, s) && Enabled(s, load) && IsLoad(load)
    ensures CallIsClean(o, s, load) <==> Settled(s, load.t)
  {
    var t, s' := load.t, Apply(o, s, load);
    ReachableInv(o, s);
    TouchesFreedIff(o, s, load);
    if Settled(s, t) {
      if Loaded(s'.guest) == Some(t) {
        forall r | IsRun(o, s', r) && NoUse(r) && Enabled(Exec(o, s', r), CallBehind(load))
          ensures !TouchesFreed(o, Exec(o, s', r), CallBehind(load))
        {
          SettledCallIsClean(o, s, load, r);
        }
      }
    } else {
      UnsettledHasCallback(o, s, t);
      ReachableStep(o, s, load);
      CallbackStepsFree(o, s', t);
      CallbackStepsNoUse(s'.heap[t], t);
      assert Enabled(Exec(o, s', CallbackSteps(s'.heap[t], t)), CallBehind(load));
    }
  }

  // ----- whole runs -----

  /** Every cancel and drop of the run meets a settled transfer. */
  ghost predicate SettledCalls(o: Order, s: State, r: Run)
    requires IsOrder(o) && IsRun(o, s, r)
    decreases r
  {
    r.Then? ==> (IsLoad(r.first) ==> Settled(s, r.first.t)) && SettledCalls(o, Apply(o, s, r.first), r.rest)
  }

  /** The running call has read the flag of a transfer that was never submitted. */
  predicate Quiet(s: State) {
    Loaded(s.guest).Some? ==>
      Loaded(s.guest).value in s.heap && !Submitted(s.heap[Loaded(s.guest).value])
  }

  lemma StepKeepsQuiet(o: Order, s: State, l: Label)
    requires Inv(o, s) && Enabled(s, l) && Quiet(s)
    requires (l.SubmitLoad? ==> Fresh(s, l.t)) && (IsLoad(l) ==> Settled(s, l.t))
    ensures Quiet(Apply(o, s, l)) && !Overlaps(o, s, l)
  {
    if l.Act? || l.DropLoad? {
      assert NativeInv(o, s, l.t);
    }
    if Loaded(s.guest).Some? {
      assert NativeInv(o, s, Loaded(s.guest).value);
    }
  }

  lemma {:induction false} SettledRunNoOverlap(o: Order, s: State, r: Run, submitted: set<nat>)
    requires Inv(o, s) && IsRun(o, s, r) && SubmitsOnce(r) && SettledCalls(o, s, r) && Quiet(s)
    requires forall t :: t !in submitted ==> Fresh(s, t)
    requires forall t :: t in submitted ==> !Submits(r, t)
    requires s.guest.Checked? ==> s.guest.t in submitted
    ensures !HitsOverlap(o, s, r, false)
    decreases r
  {
    if r.End? {
    } else {
      var l := r.first;
      if l.SubmitLoad? { assert Fresh(s, l.t); }
      StepKeepsInv(o, s, l);
      StepKeepsQuiet(o, s, l);
      var submitted' := if l.SubmitLoad? then submitted + {l.t} else submitted;
      forall t | t !in submitted' ensures Fresh(Apply(o, s, l), t) {
        FreshUntilSubmitted(o, s, l, t);
      }
      SettledRunNoOverlap(o, Apply(o, s, l), r.rest, submitted');
    }
  }

  /** A guest that submits each transfer once, and cancels and drops settled transfers only, never
      reaches freed memory, whatever the event thread does. */
  lemma SettledRunIsClean(o: Order, r: Run)
    requires StoresFirst(o) && IsRun(o, INITIAL, r) && SubmitsOnce(r) && SettledCalls(o, INITIAL, r)
    ensures !RunTouchesFreed(o, INITIAL, r)
  {
    SettledRunNoOverlap(o, INITIAL, r, {});
    TransferOrders.SingleSubmitRunFromStart(o, r);
  }

  // ----- the guest's own calls -----

  function SubmittedAfter(l: Label, submitted: set<nat>): set<nat> {
    if l.SubmitLoad? then submitted + {l.t} else submitted
  }

  function AwaitedAfter(l: Label, awaited: set<nat>): set<nat> {
    if l.AwaitResume? then awaited + {l.t} else awaited
  }

  /** The usual discipline, on the calls alone: a transfer is cancelled or dropped only before its
      submit or after an await of it has returned. */
  predicate Disciplined(r: Run, submitted: set<nat>, awaited: set<nat>) {
    r.Then? ==>
      && (IsLoad(r.first) ==> r.first.t !in submitted || r.first.t in awaited)
      && Disciplined(r.rest, SubmittedAfter(r.first, submitted), AwaitedAfter(r.first, awaited))
  }

  /** What a guest can conclude from its own calls. */
  predicate GuestKnows(s: State, submitted: set<nat>, awaited: set<nat>) {
    && (forall t :: t in s.heap && t !in submitted ==> !Submitted(s.heap[t]))
    && (forall t :: t in awaited ==> t in s.heap && s.heap[t].completed)
    && (s.guest.Checked? ==> s.guest.t in submitted)
  }

  /** A transfer becomes submitted in the body of a submit only, and stays completed. */
  lemma SubmittedBySubmitOnly(o: Order, s: State, l: Label, t: nat)
    requires Inv(o, s) && Enabled(s, l)
    ensures var s' := Apply(o, s, l);
            && (t in s'.heap && Submitted(s'.heap[t]) ==>
                  (t in s.heap && Submitted(s.heap[t])) || (l.SubmitBody? && l.t == t))
            && (t in s.heap && s.heap[t].completed ==> t in s'.heap && s'.heap[t].completed)
  {
    if l.Act? { assert NativeInv(o, s, l.t); }
  }

  lemma StepKeepsKnowledge(o: Order, s: State, l: Label, submitted: set<nat>, awaited: set<nat>)
    requires StoresFirst(o) && Reachable(o, s) && Enabled(s, l) && GuestKnows(s, submitted, awaited)
    ensures GuestKnows(Apply(o, s, l), SubmittedAfter(l, submitted), AwaitedAfter(l, awaited))
  {
    var s', awaited' := Apply(o, s, l), AwaitedAfter(l, awaited);
    ReachableInv(o, s);
    forall t | t in s'.heap && t !in SubmittedAfter(l, submitted) ensures !Submitted(s'.heap[t]) {
      SubmittedBySubmitOnly(o, s, l, t);
    }
    if l.AwaitResume? {
      AwaitReturnsWhatCallbackComputed(o, s, l.t);
    }
    forall t | t in awaited' ensures t in s'.heap && s'.heap[t].completed {
      SubmittedBySubmitOnly(o, s, l, t);
    }
  }

  lemma {:induction false} DisciplinedIsSettled(o: Order, s: State, r: Run, submitted: set<nat>, awaited: set<nat>)
    requires StoresFirst(o) && Reachable(o, s) && IsRun(o, s, r)
    requires GuestKnows(s, submitted, awaited) && Disciplined(r, submitted, awaited)
    ensures SettledCalls(o, s, r)
    decreases r
  {
    if r.End? {
    } else {
      var l := r.first;
      StepKeepsKnowledge(o, s, l, submitted, awaited);
      ReachableStep(o, s, l);
      DisciplinedIsSettled(o, Apply(o, s, l), r.rest, SubmittedAfter(l, submitted), AwaitedAfter(l, awaited));
    }
  }

  /** A guest that submits each transfer once, and cancels or drops it only before the submit or
      after the await, never reaches freed memory. */
  lemma DisciplinedRunIsClean(o: Order, r: Run)
    requires StoresFirst(o) && IsRun(o, INITIAL, r) && SubmitsOnce(r) && Disciplined(r, {}, {})
    ensures !RunTouchesFreed(o, INITIAL, r)
  {
    assert IsRun(o, INITIAL, End) && Exec(o, INITIAL, End) == INITIAL;
    DisciplinedIsSettled(o, INITIAL, r, {}, {});
    SettledRunIsClean(o, r);
  }
}
