/** The host's transfer calls and the libusb callback as methods over its mutable state
    (usb-wasi-host/src/main.rs). Each method is proved to perform exactly the steps of
    `TransferLifecycle` that the call stands for, so what `TransferSafety` proves of every
    interleaving holds of the calls. */
module TransferHost {
  import opened UsbBase
  import opened TransferLifecycle
  import opened TransferSafety

  /** LibusbError::from_raw. */
  function FromRaw(code: int): UsbError {
    match code
    case -1 => Io
    case -2 => InvalidParam
    case -3 => Access
    case -4 => UsbError.NoDevice
    case -5 => NotFound
    case -6 => Busy
    case -7 => Timeout
    case -8 => UsbError.Overflow
    case -9 => Pipe
    case -10 => Interrupted
    case -11 => NoMem
    case -12 => NotSupported
    case _ => Other
  }

  /** libusb's own numbers for the errors, the negative ones of enum libusb_error. */
  function ErrorNumber(e: UsbError): int {
    match e
    case Io => -1
    case InvalidParam => -2
    case Access => -3
    case NoDevice => -4
    case NotFound => -5
    case Busy => -6
    case Timeout => -7
    case Overflow => -8
    case Pipe => -9
    case Interrupted => -10
    case NoMem => -11
    case NotSupported => -12
    case Other => -99
  }

  /** The guest gets the error libusb meant, and Other for a number that means none. */
  lemma FromRawMeans(code: int, e: UsbError)
    requires !e.Other?
    ensures FromRaw(code) == e <==> code == ErrorNumber(e)
    ensures FromRaw(ErrorNumber(Other)) == Other
  {}

  datatype Reply = Started | Failed(error: UsbError) | Panicked

  datatype TransferResult = TransferResult(data: seq<byte>, packets: seq<IsoDesc>)

  class Host {
    var table: map<nat, TableEntry>
    var heap: map<nat, Native>
    var guest: Guest
    var next: nat

    ghost function State(): State
      reads this
    {
      TransferLifecycle.State(table, heap, guest, next)
    }

    ghost predicate Valid()
      reads this
    {
      Inv(SOURCE_ORDER, State())
    }

    constructor ()
      ensures Valid() && State() == INITIAL
    {
      table, heap, guest, next := map[], map[], Idle, 0;
    }

    method NewTransfer(config: Config) returns (t: nat)
      requires Valid() && guest.Idle?
      modifies this
      ensures Valid()
      ensures t == old(next) && State() == Apply(SOURCE_ORDER, old(State()), New(config))
      ensures table.Keys == old(table).Keys + {t} && table[t].buffer.Some? && !table[t].receiver
      ensures heap == old(heap)[t := Native(config, 0, false, None, NoContext, None, None, [])]
      ensures var buffer, front := table[t].buffer.value, if config.kind.Control? then 8 else 0;
              |buffer| == front + config.bufLen && forall i :: front <= i < |buffer| ==> buffer[i] == 0
    {
      ghost var before := State();
      t := next;
      heap := heap[t := Native(config, 0, false, None, NoContext, None, None, [])];
      table := table[t := TableEntry(Some(InitialBuffer(config)), false)];
      next := next + 1;
      StepKeepsInv(SOURCE_ORDER, before, New(config));
    }

    /** `code` is what libusb_submit_transfer returns. A completed transfer is busy; an OUT transfer
        takes data of exactly its length; then the entry gives up its buffer, to the context if libusb
        takes the transfer, with the OUT data in it, and for good if it does not. */
    method SubmitTransfer(t: nat, data: seq<byte>, code: int) returns (reply: Reply)
      requires Valid() && GuestMayCall(State(), t)
      modifies this
      ensures Valid()
      ensures var n, entry := old(heap)[t], old(table)[t];
              var isIn := if n.config.kind.Control? then n.config.setup.bmRequestType >= 0x80 else n.config.endpoint >= 0x80;
              if n.completed then
                reply == Failed(Busy) && State() == old(State())
              else if !isIn && |data| != n.config.bufLen then
                reply == Failed(InvalidParam) && State() == old(State())
              else if entry.buffer.None? then
                reply == Panicked && State() == old(State()).(guest := Trapped)
              else if code < 0 then
                && reply == Failed(FromRaw(code)) && heap == old(heap) && guest.Idle?
                && table == old(table)[t := TableEntry(None, entry.receiver)]
              else
                && reply == Started && guest.Idle? && table == old(table)[t := TableEntry(None, true)]
                && t in heap && heap == old(heap)[t := n.(context := heap[t].context)] && heap[t].context.InFlight?
                && (isIn ==> heap[t].context.buffer == entry.buffer.value)
                && (!isIn && n.config.kind.Control? && |entry.buffer.value| == 8 + |data| ==>
                      heap[t].context.buffer == entry.buffer.value[..8] + data)
                && (!isIn && !n.config.kind.Control? && |entry.buffer.value| == |data| ==> heap[t].context.buffer == data)
      ensures reply == SubmitReply(old(State()), t, data, code)
      ensures State() == AfterSubmit(old(State()), t, data, code)
      ensures var run := SubmitRun(old(State()), t, data, code);
              IsRun(SOURCE_ORDER, old(State()), run) && State() == Exec(SOURCE_ORDER, old(State()), run)
      ensures Fresh(old(State()), t) ==>
                !RunTouchesFreed(SOURCE_ORDER, old(State()), SubmitRun(old(State()), t, data, code))
    {
      ghost var before := State();
      SubmitRunStates(before, t, data, code);
      RunKeepsInv(SOURCE_ORDER, before, SubmitRun(before, t, data, code));
      var n := heap[t];
      if n.completed {
        return Failed(Busy);
      }
      if RejectsLength(n.config, data) {
        return Failed(InvalidParam);
      }
      var entry := table[t];
      if entry.buffer.None? {
        guest := Trapped;
        return Panicked;
      }
      var buffer := WithData(n.config, entry.buffer.value, data);
      table := table[t := entry.(buffer := None)];
      if code < 0 {
        return Failed(FromRaw(code));
      }
      heap := heap[t := n.(context := InFlight(buffer))];
      table := table[t := table[t].(receiver := true)];
      assert table == before.table[t := TableEntry(None, true)];
      return Started;
    }

    /** The event thread runs the callback, if `between` says that it does. */
    method EventThread(t: nat, between: Option<Completion>)
      requires t in heap && (between.Some? ==> Enabled(State(), Complete(t, between.value)))
      modifies this
      ensures State() == AfterBetween(old(State()), t, between)
    {
      match between {
        case None =>
        case Some(done) => RunCallback(t, done);
      }
    }

    /** cancel_transfer: load, then call. A transfer that ends early ends in the callback, so the
        cancel itself changes nothing; it reports libusb's error, and only for a transfer whose
        flag it found false. It touches freed memory if and only if the callback ran in between. */
    method CancelTransfer(t: nat, code: int, between: Option<Completion>) returns (error: Option<UsbError>)
      requires Valid() && GuestMayCall(State(), t)
      requires between.Some? ==> Enabled(State(), Complete(t, between.value))
      modifies this
      ensures Valid() && State() == AfterBetween(old(State()), t, between)
      ensures error.Some? <==> !old(heap)[t].completed && code < 0
      ensures error.Some? ==> error.value == FromRaw(code)
      ensures var run := CancelRun(old(State()), t, between);
              && IsRun(SOURCE_ORDER, old(State()), run) && State() == Exec(SOURCE_ORDER, old(State()), run)
              && (RunTouchesFreed(SOURCE_ORDER, old(State()), run) <==> between.Some?)
    {
      ghost var before := State();
      CancelRunStates(before, t, between);
      RunKeepsInv(SOURCE_ORDER, before, CancelRun(before, t, between));
      if !heap[t].completed {
        guest := Cancelling(t);
        EventThread(t, between);
        guest := Idle;
        if code < 0 {
          return Some(FromRaw(code));
        }
      }
      return None;
    }

    /** HostTransfer::drop, with its three cases; the middle one is load, then call. */
    method DropTransfer(t: nat, between: Option<Completion>)
      requires Valid() && GuestMayCall(State(), t)
      requires between.Some? ==> Enabled(State(), Complete(t, between.value))
      modifies this
      ensures Valid()
      ensures var run := DropRun(old(State()), t, between);
              && IsRun(SOURCE_ORDER, old(State()), run) && State() == Exec(SOURCE_ORDER, old(State()), run)
              && (RunTouchesFreed(SOURCE_ORDER, old(State()), run) <==> between.Some?)
      ensures t !in table && table == old(table) - {t} && guest.Idle?
      ensures t in heap && (heap[t].frees == 1 || heap[t].context != NoContext)
      ensures between.None? ==> (heap[t].frees == old(heap[t].frees) + 1 <==> !Submitted(old(heap[t])))
    {
      ghost var before := State();
      assert NativeInv(SOURCE_ORDER, before, t);
      DropRunStates(before, t, between);
      RunKeepsInv(SOURCE_ORDER, before, DropRun(before, t, between));
      var entry := table[t];
      table := table - {t};
      if heap[t].completed {
        // the callback has run and freed it
      } else if entry.receiver {
        // in flight: cancelled here, freed by the callback
        guest := Dropping(t);
        EventThread(t, between);
        guest := Idle;
      } else {
        heap := heap[t := heap[t].(frees := heap[t].frees + 1)];
      }
      assert NativeInv(SOURCE_ORDER, State(), t);
    }

    /** transfer_callback, run by the libusb event thread when the device has finished. */
    method TransferCallback(t: nat, done: Completion)
      requires Valid() && Enabled(State(), Complete(t, done))
      modifies this
      ensures Valid()
      ensures IsRun(SOURCE_ORDER, old(State()), CallbackRun(t, done))
      ensures State() == Exec(SOURCE_ORDER, old(State()), CallbackRun(t, done))
      ensures State() == SetNative(old(State()), t, Finished(old(heap)[t], done))
    {
      ghost var before := State();
      CallbackRunState(before, t, done);
      RunKeepsInv(SOURCE_ORDER, before, CallbackRun(t, done));
      RunCallback(t, done);
    }

    /** The callback's own statements, in the source's order. */
    method RunCallback(t: nat, done: Completion)
      requires t in heap && heap[t].context.InFlight?
      requires ConformingCompletion(heap[t].config, heap[t].context.buffer, done)
      modifies this
      ensures State() == SetNative(old(State()), t, Finished(old(heap)[t], done))
    {
      var config := heap[t].config;
      if done.status.Completed? && IsoTransfer(config) {
        var packets: seq<IsoDesc> := [];
        var i := 0;
        while i < config.isoPackets
          invariant 0 <= i <= config.isoPackets && packets == done.iso[..i]
          invariant State() == old(State())
        {
          packets := packets + [done.iso[i]];
          i := i + 1;
        }
        assert packets == done.iso;
        heap := heap[t := heap[t].(isoResults := Some(packets))];
      }
      var result := CallbackOutcome(config, done);
      heap := heap[t := heap[t].(computed := Some(DeliveryOf(result, CallbackPackets(config, done))))];
      heap := heap[t := heap[t].(completed := true)];
      heap := heap[t := heap[t].(channel := Some(result))];
      heap := heap[t := heap[t].(frees := heap[t].frees + 1)];
      heap := heap[t := heap[t].(context := NoContext)];
      assert heap == old(heap)[t := Finished(old(heap)[t], done)];
    }

    /** The half of await_transfer after the channel has delivered. */
    method ResumeAwait(t: nat) returns (r: Result<TransferResult, UsbError>)
      requires t in heap && heap[t].channel.Some? && guest == Awaiting(t)
      modifies this
      ensures State() == Apply(SOURCE_ORDER, old(State()), AwaitResume(t))
      ensures r == ReplyOf(DeliveryOf(old(heap)[t].channel.value, old(heap)[t].isoResults))
      ensures match old(heap)[t].channel.value
              case Err(e) => r == Err(e)
              case Ok(data) =>
                var raw := if old(heap)[t].isoResults.Some? then old(heap)[t].isoResults.value else [];
                && r.Ok? && r.value.data == data && |r.value.packets| == |raw|
                && forall i :: 0 <= i < |raw| ==>
                      && r.value.packets[i].actualLength == raw[i].actualLength
                      && r.value.packets[i].status == if raw[i].status.OtherStatus? then Error else raw[i].status
    {
      var n := heap[t];
      var outcome := n.channel.value;
      guest := Idle;
      if outcome.Err? {
        heap := heap[t := n.(channel := None, delivered := n.delivered + [Delivery(outcome, [])])];
        return Err(outcome.error);
      }
      var packets := if n.isoResults.Some? then GuestPackets(n.isoResults.value) else [];
      heap := heap[t := n.(channel := None, isoResults := None,
                           delivered := n.delivered + [Delivery(outcome, packets)])];
      return Ok(TransferResult(outcome.value, packets));
    }

    /** What a callback that has begun still has to do, in the source's order. */
    method FinishCallback(t: nat)
      requires t in heap && heap[t].context.InCallback? && heap[t].context.done <= 3
      modifies this
      ensures State() == SetNative(old(State()), t, FinishedFrom(old(heap)[t]))
    {
      var context := heap[t].context;
      if context.done < 1 {
        heap := heap[t := heap[t].(completed := true)];
      }
      if context.done < 2 {
        heap := heap[t := heap[t].(channel := Some(context.sending))];
      }
      if context.done < 3 {
        heap := heap[t := heap[t].(frees := heap[t].frees + 1)];
      }
      heap := heap[t := heap[t].(context := NoContext)];
      assert heap == old(heap)[t := FinishedFrom(old(heap)[t])];
    }

    /** The event thread while an await waits. */
    method WaitForCallback(t: nat, done: Completion)
      requires Valid() && t in heap && (heap[t].context.InFlight? ==> Enabled(State(), Complete(t, done)))
      modifies this
      ensures State() == SetNative(old(State()), t, Settle(old(heap)[t], done))
    {
      assert NativeInv(SOURCE_ORDER, State(), t);
      match heap[t].context {
        case NoContext => assert heap == heap[t := heap[t]];
        case InFlight(_) => RunCallback(t, done);
        case InCallback(_, _, _) => FinishCallback(t);
      }
    }

    /** await_transfer. While the call waits, the event thread runs the callback, or what is left
        of one that has begun; `done` is what the device reports if it has yet to begin. */
    method AwaitTransfer(t: nat, done: Completion) returns (r: Result<TransferResult, UsbError>)
      requires Valid() && GuestMayCall(State(), t)
      requires heap[t].context.InFlight? ==> Enabled(State(), Complete(t, done))
      modifies this
      ensures Valid() && guest.Idle? && t in heap && State() == Awaited(old(State()), t, done)
      ensures AwaitFindsNothing(old(heap)[t]) ==> r == Err(NotFound)
      ensures !AwaitFindsNothing(old(heap)[t]) ==>
                heap[t].computed.Some? && r == ReplyOf(heap[t].computed.value)
      ensures var n := old(heap)[t];
              n.context.InFlight? && done.status.Completed? && n.config.kind.Isochronous? && n.config.isoPackets > 0 ==>
                && r.Ok? && r.value.data == done.buffer && |r.value.packets| == |done.iso| == n.config.isoPackets
                && forall i :: 0 <= i < |done.iso| ==>
                      && r.value.packets[i].actualLength == done.iso[i].actualLength
                      && r.value.packets[i].status == if done.iso[i].status.OtherStatus? then Error else done.iso[i].status
      ensures var run := AwaitRun(old(State()), t, done);
              && IsRun(SOURCE_ORDER, old(State()), run) && State() == Exec(SOURCE_ORDER, old(State()), run)
              && !RunTouchesFreed(SOURCE_ORDER, old(State()), run)
    {
      ghost var before := State();
      AwaitFindsReceiverHere(before, t);
      AwaitRunStates(before, t, done);
      RunKeepsInv(SOURCE_ORDER, before, AwaitRun(before, t, done));
      if heap[t].context.InFlight? {
        InFlightDelivers(before, t, done);
      }
      if !table[t].receiver {
        return Err(NotFound);
      }
      StepKeepsInv(SOURCE_ORDER, before, AwaitBegin(t));
      table := table[t := table[t].(receiver := false)];
      guest := Awaiting(t);
      assert State() == Apply(SOURCE_ORDER, before, AwaitBegin(t));
      WaitForCallback(t, done);
      r := ResumeAwait(t);
      assert heap == Awaited(before, t, done).heap;
    }

    /** The guest's usual sequence: allocate, submit, await, drop. It leaves no table entry,
        frees the transfer once, returns what the device reported, and in none of its steps
        reaches freed memory. */
    method Transfer(config: Config, data: seq<byte>, done: Completion)
      returns (r: Result<TransferResult, UsbError>, ghost run: Run)
      requires Valid() && guest.Idle?
      requires if config.kind.Control? then config.setup.bmRequestType >= 0x80 || |data| == config.bufLen
               else config.endpoint >= 0x80 || |data| == config.bufLen
      requires ConformingCompletion(config, WithData(config, InitialBuffer(config), data), done)
      modifies this
      ensures Valid()
      ensures guest.Idle? && old(next) !in table
      ensures old(next) in heap && heap[old(next)].frees == 1 && heap[old(next)].context.NoContext?
      ensures r == ReplyOf(DeliveryOf(CallbackOutcome(config, done), CallbackPackets(config, done)))
      ensures IsReport(config, done, r)
      ensures IsRun(SOURCE_ORDER, old(State()), run) && State() == Exec(SOURCE_ORDER, old(State()), run)
      ensures !RunTouchesFreed(SOURCE_ORDER, old(State()), run)
    {
      ghost var s0 := State();
      var t := NewTransfer(config);
      ghost var s1 := State();
      var reply := SubmitTransfer(t, data, 0);
      ghost var s2 := State();
      assert heap[t] == Native(config, 0, false, None, InFlight(WithData(config, InitialBuffer(config), data)), None, None, []);
      r := AwaitTransfer(t, done);
      ghost var s3 := State();
      assert heap[t] == Consumed(Finished(s2.heap[t], done));
      DropTransfer(t, None);
      ReportOf(config, WithData(config, InitialBuffer(config), data), done);
      ghost var submit, await, drop := SubmitRun(s1, t, data, 0), AwaitRun(s2, t, done), DropRun(s3, t, None);
      run := Then(New(config), Join(submit, Join(await, drop)));
      InSequence(s0, New(config), submit, await, drop);
    }
  }

  /** What the guest should be told of a device's report: the bytes received, the packets one by one
      with an unknown status as an error, zeros for the bytes sent, or the error by its cause. */
  predicate IsReport(c: Config, done: Completion, r: Result<TransferResult, UsbError>) {
    match done.status
    case TimedOut => r == Err(UsbError.Timeout)
    case Cancelled => r == Err(UsbError.Interrupted)
    case Stall => r == Err(UsbError.Pipe)
    case NoDevice => r == Err(UsbError.NoDevice)
    case Overflow => r == Err(UsbError.Overflow)
    case Error => r == Err(UsbError.Io)
    case OtherStatus => r == Err(UsbError.Other)
    case Completed =>
      && r.Ok?
      && if c.kind.Isochronous? && c.isoPackets > 0 then
           && r.value.data == done.buffer && |r.value.packets| == |done.iso| == c.isoPackets
           && forall i :: 0 <= i < |done.iso| ==>
                && r.value.packets[i].actualLength == done.iso[i].actualLength
                && r.value.packets[i].status == if done.iso[i].status.OtherStatus? then Error else done.iso[i].status
         else
           && r.value.packets == []
           && if c.kind.Control? then
                if c.setup.bmRequestType >= 0x80
                then 8 + done.actualLength <= |done.buffer| && r.value.data == done.buffer[8..8 + done.actualLength]
                else r.value.data == []
              else if c.endpoint >= 0x80 then
                done.actualLength <= |done.buffer| && r.value.data == done.buffer[..done.actualLength]
              else
                |r.value.data| == done.actualLength && forall i :: 0 <= i < |r.value.data| ==> r.value.data[i] == 0
  }

  /** And what it is told, when the buffer starts as a submit leaves it. */
  lemma ReportOf(c: Config, before: seq<byte>, done: Completion)
    requires ConformingCompletion(c, before, done)
    requires |before| == |InitialBuffer(c)| && (c.kind.Control? ==> before[..8] == InitialBuffer(c)[..8])
    ensures IsReport(c, done, ReplyOf(DeliveryOf(CallbackOutcome(c, done), CallbackPackets(c, done))))
  {
    if c.kind.Control? {
      assert done.buffer[0] == done.buffer[..8][0] == InitialBuffer(c)[..8][0] == c.setup.bmRequestType;
    }
  }

  function SubmitReply(s: State, t: nat, data: seq<byte>, code: int): Reply
    requires t in s.heap && t in s.table
  {
    if s.heap[t].completed then Failed(Busy)
    else
      match BranchOf(s.heap[t], s.table[t], data, code)
      case BadLength => Failed(InvalidParam)
      case Panics => Panicked
      case Refused => Failed(FromRaw(code))
      case Accepted(_) => Started
  }

  /** The steps of a submit with no callback in between. */
  function SubmitRun(s: State, t: nat, data: seq<byte>, code: int): Run
    requires t in s.heap && t in s.table
  {
    if s.heap[t].completed then Then(SubmitLoad(t), End)
    else
      Then(SubmitLoad(t), Then(SubmitBody(t, data, code),
                               if SubmitReply(s, t, data, code).Started? then Then(SubmitReturn(t), End) else End))
  }

  function AfterBetween(s: State, t: nat, between: Option<Completion>): State
    requires t in s.heap
  {
    match between
    case None => s
    case Some(done) => SetNative(s, t, Finished(s.heap[t], done))
  }

  function Between(t: nat, between: Option<Completion>): Run {
    match between
    case None => End
    case Some(done) => CallbackRun(t, done)
  }

  /** A load, the callback or nothing, and the call. */
  function CancelRun(s: State, t: nat, between: Option<Completion>): Run
    requires t in s.heap
  {
    Then(CancelLoad(t), if s.heap[t].completed then End else Snoc(Between(t, between), CancelCall(t)))
  }

  function DropRun(s: State, t: nat, between: Option<Completion>): Run
    requires t in s.heap && t in s.table
  {
    Then(DropLoad(t),
         if s.heap[t].completed || !s.table[t].receiver then End else Snoc(Between(t, between), DropCall(t)))
  }

  function ReplyOf(d: Delivery): Result<TransferResult, UsbError> {
    match d.outcome
    case Ok(data) => Ok(TransferResult(data, d.packets))
    case Err(e) => Err(e)
  }

  /** No receiver to take: never submitted, or awaited before. */
  predicate AwaitFindsNothing(n: Native) {
    !TransferLifecycle.Submitted(n) || n.delivered != []
  }

  function Finished(n: Native, done: Completion): Native {
    var outcome := CallbackOutcome(n.config, done);
    var packets := CallbackPackets(n.config, done);
    n.(context := NoContext, completed := true, frees := n.frees + 1,
       isoResults := if packets.Some? then packets else n.isoResults,
       channel := Some(outcome), computed := Some(DeliveryOf(outcome, packets)))
  }

  /** The same for a callback that has begun, and has its later actions still to do. */
  function FinishedFrom(n: Native): Native
    requires n.context.InCallback?
  {
    var done := n.context.done;
    n.(context := NoContext, completed := n.completed || done == 0,
       channel := if done < 2 then Some(n.context.sending) else n.channel,
       frees := if done < 3 then n.frees + 1 else n.frees)
  }

  /** The transfer once its callback, if it still has one, has run to its end. */
  function Settle(n: Native, done: Completion): Native {
    match n.context
    case NoContext => n
    case InFlight(_) => Finished(n, done)
    case InCallback(_, _, _) => FinishedFrom(n)
  }

  function SettleRun(n: Native, t: nat, done: Completion): Run {
    match n.context
    case NoContext => End
    case InFlight(_) => CallbackRun(t, done)
    case InCallback(_, _, acted) => RemainingRun(t, acted)
  }

  function Consumed(n: Native): Native
    requires n.channel.Some?
  {
    n.(channel := None,
       isoResults := if n.channel.value.Ok? then None else n.isoResults,
       delivered := n.delivered + [DeliveryOf(n.channel.value, n.isoResults)])
  }

  /** An await that has no receiver to take ends at once; any other waits for the callback. */
  function AwaitRun(s: State, t: nat, done: Completion): Run
    requires t in s.heap
  {
    Then(AwaitBegin(t),
         if AwaitFindsNothing(s.heap[t]) then End else Snoc(SettleRun(s.heap[t], t, done), AwaitResume(t)))
  }

  /** The state an await leaves. */
  function Awaited(s: State, t: nat, done: Completion): State
    requires t in s.heap && t in s.table
  {
    var n := Settle(s.heap[t], done);
    if AwaitFindsNothing(s.heap[t]) then s
    else
      SetNative(s, t, if n.channel.Some? then Consumed(n) else n)
        .(table := s.table[t := s.table[t].(receiver := false)])
  }

  lemma SetTwice(s: State, t: nat, n: Native, n': Native)
    ensures SetNative(SetNative(s, t, n), t, n') == SetNative(s, t, n')
  {
    assert s.heap[t := n][t := n'] == s.heap[t := n'];
  }

  /** An await of a transfer in flight finds its receiver and is told what the device reports. */
  lemma InFlightDelivers(s: State, t: nat, done: Completion)
    requires Inv(SOURCE_ORDER, s) && GuestMayCall(s, t) && Enabled(s, Complete(t, done))
    ensures !AwaitFindsNothing(s.heap[t])
    ensures var n, after := s.heap[t], Awaited(s, t, done).heap[t];
            && after.computed == Some(DeliveryOf(CallbackOutcome(n.config, done), CallbackPackets(n.config, done)))
            && (done.status.Completed? && n.config.kind.Isochronous? && n.config.isoPackets > 0 ==>
                  IsReport(n.config, done, ReplyOf(after.computed.value)))
  {
    assert NativeInv(SOURCE_ORDER, s, t);
  }

  lemma {:induction false} RemainingState(s: State, t: nat)
    requires t in s.heap && s.heap[t].context.InCallback? && s.heap[t].context.done <= 3
    ensures var n := s.heap[t];
            && IsRun(SOURCE_ORDER, s, RemainingRun(t, n.context.done))
            && Exec(SOURCE_ORDER, s, RemainingRun(t, n.context.done)) == SetNative(s, t, FinishedFrom(n))
            && (RunTouchesFreed(SOURCE_ORDER, s, RemainingRun(t, n.context.done)) <==>
                  n.context.done < 3 && n.frees > 0)
    decreases 3 - s.heap[t].context.done
  {
    var o, n := SOURCE_ORDER, s.heap[t];
    var done := n.context.done;
    if done == 3 {
      RunThen(o, s, DropContext(t), End);
    } else {
      var n1 := Perform(n, o[done]);
      RemainingState(SetNative(s, t, n1), t);
      SetTwice(s, t, n1, FinishedFrom(n));
      RunThen(o, s, Act(t), RemainingRun(t, done + 1));
    }
  }

  lemma CallbackRunState(s: State, t: nat, done: Completion)
    requires Enabled(s, Complete(t, done))
    ensures IsRun(SOURCE_ORDER, s, CallbackRun(t, done))
    ensures Exec(SOURCE_ORDER, s, CallbackRun(t, done)) == SetNative(s, t, Finished(s.heap[t], done))
    ensures RunTouchesFreed(SOURCE_ORDER, s, CallbackRun(t, done)) <==> s.heap[t].frees > 0
  {
    var s1 := ApplyComplete(s, t, done);
    RemainingState(s1, t);
    SetTwice(s, t, s1.heap[t], Finished(s.heap[t], done));
    RunThen(SOURCE_ORDER, s, Complete(t, done), ActionsRun(t));
  }

  /** The second half of a call, with or without the callback before it. */
  lemma BetweenThenUse(s: State, t: nat, between: Option<Completion>, use: Label)
    requires t in s.heap && s.heap[t].frees == 0
    requires between.Some? ==> Enabled(s, Complete(t, between.value))
    requires (use == CancelCall(t) && s.guest == Cancelling(t)) || (use == DropCall(t) && s.guest == Dropping(t))
    ensures var run := Snoc(Between(t, between), use);
            && IsRun(SOURCE_ORDER, s, run)
            && Exec(SOURCE_ORDER, s, run) == AfterBetween(s, t, between).(guest := Idle)
            && (RunTouchesFreed(SOURCE_ORDER, s, run) <==> between.Some?)
  {
    if between.Some? {
      CallbackRunState(s, t, between.value);
    } else {
      assert IsRun(SOURCE_ORDER, s, End) && Exec(SOURCE_ORDER, s, End) == s;
    }
    RunSnoc(SOURCE_ORDER, s, Between(t, between), use);
  }

  /** A transfer in flight is not completed and its receiver is in the table. */
  lemma InFlightUncompleted(s: State, t: nat)
    requires Inv(SOURCE_ORDER, s) && GuestMayCall(s, t)
    ensures !s.heap[t].completed ==> s.heap[t].frees == 0
    ensures s.heap[t].context.InFlight? ==> !s.heap[t].completed && s.table[t].receiver
  {
    assert NativeInv(SOURCE_ORDER, s, t);
    if !s.heap[t].completed {
      LoadSeesUnfreed(SOURCE_ORDER, s, t);
    }
  }

  lemma CancelRunStates(s: State, t: nat, between: Option<Completion>)
    requires Inv(SOURCE_ORDER, s) && GuestMayCall(s, t)
    requires between.Some? ==> Enabled(s, Complete(t, between.value))
    ensures var run := CancelRun(s, t, between);
            && IsRun(SOURCE_ORDER, s, run) && Exec(SOURCE_ORDER, s, run) == AfterBetween(s, t, between)
            && (RunTouchesFreed(SOURCE_ORDER, s, run) <==> between.Some?)
  {
    InFlightUncompleted(s, t);
    var s1 := Apply(SOURCE_ORDER, s, CancelLoad(t));
    if !s.heap[t].completed {
      BetweenThenUse(s1, t, between, CancelCall(t));
    }
    RunThen(SOURCE_ORDER, s, CancelLoad(t), CancelRun(s, t, between).rest);
  }

  lemma DropRunStates(s: State, t: nat, between: Option<Completion>)
    requires Inv(SOURCE_ORDER, s) && GuestMayCall(s, t)
    requires between.Some? ==> Enabled(s, Complete(t, between.value))
    ensures var run, dropped := DropRun(s, t, between), s.(table := s.table - {t});
            && IsRun(SOURCE_ORDER, s, run)
            && Exec(SOURCE_ORDER, s, run)
               == (if s.heap[t].completed || s.table[t].receiver then AfterBetween(dropped, t, between)
                   else SetNative(dropped, t, s.heap[t].(frees := s.heap[t].frees + 1)))
            && (RunTouchesFreed(SOURCE_ORDER, s, run) <==> between.Some?)
  {
    InFlightUncompleted(s, t);
    var s1 := Apply(SOURCE_ORDER, s, DropLoad(t));
    if !s.heap[t].completed && s.table[t].receiver {
      BetweenThenUse(s1, t, between, DropCall(t));
    }
    RunThen(SOURCE_ORDER, s, DropLoad(t), DropRun(s, t, between).rest);
  }

  lemma AwaitFindsReceiverHere(s: State, t: nat)
    requires Inv(SOURCE_ORDER, s) && GuestMayCall(s, t)
    ensures s.table[t].receiver <==> !AwaitFindsNothing(s.heap[t])
  {
    assert NativeInv(SOURCE_ORDER, s, t);
  }

  /** The event thread's part in an await reaches no freed memory. */
  lemma SettleRunState(s: State, t: nat, done: Completion)
    requires Inv(SOURCE_ORDER, s) && t in s.heap && (s.heap[t].context.InFlight? ==> Enabled(s, Complete(t, done)))
    ensures var run := SettleRun(s.heap[t], t, done);
            && IsRun(SOURCE_ORDER, s, run) && !RunTouchesFreed(SOURCE_ORDER, s, run)
            && Exec(SOURCE_ORDER, s, run) == SetNative(s, t, Settle(s.heap[t], done))
            && Inv(SOURCE_ORDER, SetNative(s, t, Settle(s.heap[t], done)))
  {
    assert NativeInv(SOURCE_ORDER, s, t);
    match s.heap[t].context {
      case NoContext =>
        assert s.heap[t := s.heap[t]] == s.heap;
      case InFlight(_) =>
        CallbackRunState(s, t, done);
      case InCallback(_, _, acted) =>
        RemainingState(s, t);
        assert FreeTransfer in SOURCE_ORDER[..acted] ==> acted == 3;
    }
    RunKeepsInv(SOURCE_ORDER, s, SettleRun(s.heap[t], t, done));
  }

  /** From the receiver taken to the result returned, with the rest of the callback in between. */
  lemma WaitThenResume(s: State, t: nat, done: Completion)
    requires Inv(SOURCE_ORDER, s) && t in s.heap && s.guest == Awaiting(t)
    requires s.heap[t].context.InFlight? ==> Enabled(s, Complete(t, done))
    ensures var run, n := Snoc(SettleRun(s.heap[t], t, done), AwaitResume(t)), Settle(s.heap[t], done);
            && n.channel.Some? && n.computed == Some(DeliveryOf(n.channel.value, n.isoResults))
            && IsRun(SOURCE_ORDER, s, run) && !RunTouchesFreed(SOURCE_ORDER, s, run)
            && Exec(SOURCE_ORDER, s, run) == SetNative(s, t, Consumed(n)).(guest := Idle)
  {
    var n := Settle(s.heap[t], done);
    SettleRunState(s, t, done);
    assert NativeInv(SOURCE_ORDER, SetNative(s, t, n), t);
    RunSnoc(SOURCE_ORDER, s, SettleRun(s.heap[t], t, done), AwaitResume(t));
    SetTwice(s, t, n, Consumed(n));
  }

  /** The await steps. */
  lemma AwaitRunStates(s: State, t: nat, done: Completion)
    requires Inv(SOURCE_ORDER, s) && GuestMayCall(s, t)
    requires s.heap[t].context.InFlight? ==> Enabled(s, Complete(t, done))
    ensures var run := AwaitRun(s, t, done);
            && IsRun(SOURCE_ORDER, s, run) && !RunTouchesFreed(SOURCE_ORDER, s, run)
            && Exec(SOURCE_ORDER, s, run) == Awaited(s, t, done)
    ensures !AwaitFindsNothing(s.heap[t]) ==>
              var n := Settle(s.heap[t], done);
              n.channel.Some? && n.computed == Some(DeliveryOf(n.channel.value, n.isoResults))
  {
    AwaitFindsReceiverHere(s, t);
    if s.table[t].receiver {
      StepKeepsInv(SOURCE_ORDER, s, AwaitBegin(t));
      WaitThenResume(Apply(SOURCE_ORDER, s, AwaitBegin(t)), t, done);
    }
    RunThen(SOURCE_ORDER, s, AwaitBegin(t), AwaitRun(s, t, done).rest);
  }

  /** A step and three runs, one after the other. */
  lemma InSequence(s: State, l: Label, a: Run, b: Run, c: Run)
    requires Enabled(s, l) && IsRun(SOURCE_ORDER, Apply(SOURCE_ORDER, s, l), a)
    requires IsRun(SOURCE_ORDER, Exec(SOURCE_ORDER, Apply(SOURCE_ORDER, s, l), a), b)
    requires IsRun(SOURCE_ORDER, Exec(SOURCE_ORDER, Exec(SOURCE_ORDER, Apply(SOURCE_ORDER, s, l), a), b), c)
    ensures var o, run := SOURCE_ORDER, Then(l, Join(a, Join(b, c)));
            var s1 := Apply(o, s, l);
            var s2 := Exec(o, s1, a);
            var s3 := Exec(o, s2, b);
            && IsRun(o, s, run) && Exec(o, s, run) == Exec(o, s3, c)
            && (RunTouchesFreed(o, s, run) <==>
                  || TouchesFreed(o, s, l) || RunTouchesFreed(o, s1, a)
                  || RunTouchesFreed(o, s2, b) || RunTouchesFreed(o, s3, c))
  {
    var o := SOURCE_ORDER;
    var s1 := Apply(o, s, l);
    RunJoin(o, Exec(o, s1, a), b, c);
    RunJoin(o, s1, a, Join(b, c));
    RunThen(o, s, l, Join(a, Join(b, c)));
  }

  lemma SubmitRunStates(s: State, t: nat, data: seq<byte>, code: int)
    requires Inv(SOURCE_ORDER, s) && GuestMayCall(s, t)
    ensures var run := SubmitRun(s, t, data, code);
            IsRun(SOURCE_ORDER, s, run) && Exec(SOURCE_ORDER, s, run) == AfterSubmit(s, t, data, code)
    ensures Fresh(s, t) ==> !RunTouchesFreed(SOURCE_ORDER, s, SubmitRun(s, t, data, code))
  {
    var o, run := SOURCE_ORDER, SubmitRun(s, t, data, code);
    var s1 := Apply(o, s, SubmitLoad(t));
    if s.heap[t].completed {
      RunThen(o, s, SubmitLoad(t), End);
    } else {
      var s2 := Apply(o, s1, SubmitBody(t, data, code));
      if SubmitReply(s, t, data, code).Started? {
        RunThen(o, s2, SubmitReturn(t), End);
      }
      RunThen(o, s1, SubmitBody(t, data, code), run.rest.rest);
      RunThen(o, s, SubmitLoad(t), run.rest);
    }
  }

  /** The state a submit leaves. */
  function AfterSubmit(s: State, t: nat, data: seq<byte>, code: int): State
    requires t in s.heap && t in s.table
  {
    if s.heap[t].completed then s
    else
      match BranchOf(s.heap[t], s.table[t], data, code)
      case BadLength => s
      case Panics => s.(guest := Trapped)
      case Refused => s.(table := s.table[t := s.table[t].(buffer := None)], guest := Idle)
      case Accepted(buffer) =>
        SetNative(s, t, s.heap[t].(context := InFlight(buffer)))
          .(table := s.table[t := TableEntry(None, true)])
  }
}
