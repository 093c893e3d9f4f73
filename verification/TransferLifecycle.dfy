/** The life of one libusb transfer between guest calls and the libusb event thread
    (usb-wasi-host/src/main.rs), as interleaved atomic steps.

    The callback is split into the steps another thread can observe: it computes the
    result and stores the per-packet list, then performs three actions in a given
    order, then drops its context. `SOURCE_ORDER` is the order the code uses; the other
    orders are kept so that the theorems can say which of them are safe.

    No lock joins a guest call's load of `completed` to what the call does next with the
    transfer, so submit, cancel and drop are split there: the event thread may run in between. */
module TransferLifecycle {
  import opened UsbBase

  // ----- what a transfer is configured with (new_transfer) -----

  datatype TransferKind = Control | Isochronous | Bulk | Interrupt

  datatype TransferSetup = TransferSetup(bmRequestType: byte, bRequest: byte, wValue: u16, wIndex: u16)

  datatype Config = Config(kind: TransferKind, endpoint: byte, setup: TransferSetup, bufLen: u32, isoPackets: nat)

  predicate DirectionIn(c: Config) {
    if c.kind.Control? then c.setup.bmRequestType >= 0x80 else c.endpoint >= 0x80
  }

  predicate IsoTransfer(c: Config) {
    c.kind.Isochronous? && c.isoPackets > 0
  }

  /** The eight setup bytes in front of a control buffer, and zeros elsewhere. */
  function InitialBuffer(c: Config): (b: seq<byte>)
    ensures |b| == if c.kind.Control? then 8 + c.bufLen else c.bufLen
  {
    var data: seq<byte> := seq(c.bufLen, _ => 0);
    if c.kind.Control? then
      [c.setup.bmRequestType, c.setup.bRequest,
       c.setup.wValue % 0x100, c.setup.wValue / 0x100,
       c.setup.wIndex % 0x100, c.setup.wIndex / 0x100,
       c.bufLen % 0x100, c.bufLen / 0x100 % 0x100] + data
    else
      data
  }

  /** Length of packet slot `i`: equal shares, the last slot also takes the remainder. */
  function SlotLength(bufLen: nat, count: nat, i: nat): nat
    requires i < count
  {
    if i == count - 1 then bufLen / count + bufLen % count else bufLen / count
  }

  // ----- what the device reports back (libusb) -----

  datatype Status = Completed | TimedOut | Cancelled | Stall | NoDevice | Overflow | Error | OtherStatus

  datatype IsoDesc = IsoDesc(actualLength: nat, status: Status)

  datatype Completion = Completion(status: Status, actualLength: nat, buffer: seq<byte>, iso: seq<IsoDesc>)

  /** What the code relies on libusb for: the buffer keeps its size, reported lengths fit
      the data part or the packet's slot, OUT data and a setup packet are left alone. */
  predicate ConformingCompletion(c: Config, before: seq<byte>, done: Completion) {
    && |done.buffer| == |before|
    && done.actualLength <= c.bufLen
    && (c.kind.Control? ==> |before| >= 8 && done.buffer[..8] == before[..8])
    && (!DirectionIn(c) ==> done.buffer == before)
    && (IsoTransfer(c) ==>
          && |done.iso| == c.isoPackets
          && forall i :: 0 <= i < |done.iso| ==> done.iso[i].actualLength <= SlotLength(c.bufLen, c.isoPackets, i))
  }

  type Outcome = Result<seq<byte>, UsbError>

  function StatusError(s: Status): UsbError
    requires !s.Completed?
  {
    match s
    case TimedOut => UsbError.Timeout
    case Cancelled => UsbError.Interrupted
    case Stall => UsbError.Pipe
    case NoDevice => UsbError.NoDevice
    case Overflow => UsbError.Overflow
    case Error => UsbError.Io
    case OtherStatus => UsbError.Other
  }

  /** The value the callback sends. */
  function CallbackOutcome(c: Config, done: Completion): Outcome {
    if !done.status.Completed? then
      Err(StatusError(done.status))
    else if IsoTransfer(c) then
      Ok(done.buffer)
    else if c.kind.Control? then
      if |done.buffer| >= 8 + done.actualLength && done.buffer[0] >= 0x80 && done.actualLength > 0
      then Ok(done.buffer[8..8 + done.actualLength])
      else Ok([])
    else if c.endpoint >= 0x80 then
      if done.actualLength <= |done.buffer| then Ok(done.buffer[..done.actualLength]) else Ok([])
    else
      Ok(seq(done.actualLength, _ => 0))
  }

  /** The per-packet list the callback stores before it sends, if any. */
  function CallbackPackets(c: Config, done: Completion): Option<seq<IsoDesc>> {
    if done.status.Completed? && IsoTransfer(c) then Some(done.iso) else None
  }

  // ----- shared state -----

  datatype Action = StoreCompleted | SendResult | FreeTransfer

  type Order = seq<Action>

  predicate IsOrder(o: Order) {
    |o| == 3 && StoreCompleted in o && SendResult in o && FreeTransfer in o
  }

  const SOURCE_ORDER: Order := [StoreCompleted, SendResult, FreeTransfer]

  /** Who holds the TransferContext, which owns the data buffer once submitted. */
  datatype Context =
    | NoContext
    | InFlight(buffer: seq<byte>)
    | InCallback(buffer: seq<byte>, sending: Outcome, done: nat)

  /** What one `await_transfer` returned to the guest. */
  datatype Delivery = Delivery(outcome: Outcome, packets: seq<IsoDesc>)

  /** The libusb_transfer and everything reachable from it by Arc or channel. `computed`
      and `delivered` record history: what the callback computed, what await returned. */
  datatype Native = Native(
    config: Config,
    frees: nat,
    completed: bool,
    isoResults: Option<seq<IsoDesc>>,
    context: Context,
    channel: Option<Outcome>,
    computed: Option<Delivery>,
    delivered: seq<Delivery>)

  /** The UsbTransfer in the resource table. */
  datatype TableEntry = TableEntry(buffer: Option<seq<byte>>, receiver: bool)

  /** Where the guest's one thread of host calls stands. In the first three busy states the call
      has read `completed == false` and not yet touched the transfer again. */
  datatype Guest =
    | Idle
    | Checked(t: nat)
    | Cancelling(t: nat)
    | Dropping(t: nat)
    | Submitting(t: nat)
    | Awaiting(t: nat)
    | Trapped

  datatype State = State(table: map<nat, TableEntry>, heap: map<nat, Native>, guest: Guest, next: nat)

  const INITIAL: State := State(map[], map[], Idle, 0)

  // ----- steps -----

  /** Return codes and completions are the environment's choice, carried by the label. */
  datatype Label =
    | New(config: Config)
    | SubmitLoad(t: nat)
    | SubmitBody(t: nat, data: seq<byte>, code: int)
    | SubmitReturn(t: nat)
    | CancelLoad(t: nat)
    | CancelCall(t: nat)
    | AwaitBegin(t: nat)
    | AwaitResume(t: nat)
    | DropLoad(t: nat)
    | DropCall(t: nat)
    | Complete(t: nat, completion: Completion)
    | Act(t: nat)
    | DropContext(t: nat)

  predicate GuestMayCall(s: State, t: nat) {
    s.guest.Idle? && t in s.table && t in s.heap
  }

  ghost predicate Enabled(s: State, l: Label) {
    match l
    case New(_) => s.guest.Idle?
    case SubmitLoad(t) => GuestMayCall(s, t)
    case SubmitBody(t, _, _) => s.guest == Checked(t) && t in s.table && t in s.heap
    case SubmitReturn(t) => s.guest == Submitting(t) && t in s.table
    case CancelLoad(t) => GuestMayCall(s, t)
    case CancelCall(t) => s.guest == Cancelling(t) && t in s.heap
    case AwaitBegin(t) => GuestMayCall(s, t)
    case AwaitResume(t) => s.guest == Awaiting(t) && t in s.heap && s.heap[t].channel.Some?
    case DropLoad(t) => GuestMayCall(s, t)
    case DropCall(t) => s.guest == Dropping(t) && t in s.heap
    case Complete(t, done) =>
      && t in s.heap && s.heap[t].context.InFlight?
      && ConformingCompletion(s.heap[t].config, s.heap[t].context.buffer, done)
    case Act(t) => t in s.heap && s.heap[t].context.InCallback? && s.heap[t].context.done < 3
    case DropContext(t) => t in s.heap && s.heap[t].context.InCallback? && s.heap[t].context.done == 3
  }

  /** The branch submit_transfer takes once it has found `completed` false. `Panics` is the failed
      `expect` on the buffer. */
  datatype SubmitBranch = BadLength | Panics | Refused | Accepted(buffer: seq<byte>)

  predicate RejectsLength(c: Config, data: seq<byte>) {
    !DirectionIn(c) && |data| != c.bufLen
  }

  /** OUT data lands behind the setup packet of a control transfer, else at the start. */
  function WithData(c: Config, buffer: seq<byte>, data: seq<byte>): seq<byte> {
    if DirectionIn(c) then buffer
    else if c.kind.Control? then
      if |buffer| == 8 + |data| then buffer[..8] + data else buffer
    else
      if |buffer| == |data| then data else buffer
  }

  function BranchOf(n: Native, e: TableEntry, data: seq<byte>, code: int): SubmitBranch {
    if RejectsLength(n.config, data) then BadLength
    else if e.buffer.None? then Panics
    else if code < 0 then Refused
    else Accepted(WithData(n.config, e.buffer.value, data))
  }

  /** The packet list as the guest sees it: an unknown status is reported as an error. */
  function GuestPackets(raw: seq<IsoDesc>): seq<IsoDesc> {
    seq(|raw|, i requires 0 <= i < |raw| => if raw[i].status.OtherStatus? then raw[i].(status := Error) else raw[i])
  }

  function DeliveryOf(outcome: Outcome, packets: Option<seq<IsoDesc>>): Delivery {
    Delivery(outcome, if outcome.Ok? && packets.Some? then GuestPackets(packets.value) else [])
  }

  function Perform(n: Native, a: Action): Native
    requires n.context.InCallback?
  {
    var n' := n.(context := n.context.(done := n.context.done + 1));
    match a
    case StoreCompleted => n'.(completed := true)
    case SendResult => n'.(channel := Some(n.context.sending))
    case FreeTransfer => n'.(frees := n.frees + 1)
  }

  function SetNative(s: State, t: nat, n: Native): State {
    s.(heap := s.heap[t := n])
  }

  function ApplySubmit(s: State, t: nat, data: seq<byte>, code: int): State
    requires t in s.table && t in s.heap
  {
    var e := s.table[t];
    match BranchOf(s.heap[t], e, data, code)
    case BadLength => s.(guest := Idle)
    case Panics => s.(guest := Trapped)
    case Refused => s.(table := s.table[t := e.(buffer := None)], guest := Idle)
    case Accepted(buffer) =>
      SetNative(s, t, s.heap[t].(context := InFlight(buffer)))
        .(table := s.table[t := e.(buffer := None)], guest := Submitting(t))
  }

  /** The first half of a call that leaves a completed transfer alone. */
  function Load(s: State, t: nat, next: Guest): State
    requires t in s.heap
  {
    if s.heap[t].completed then s else s.(guest := next)
  }

  /** The entry goes first. Then a completed transfer is left alone, one with a receiver is about
      to be cancelled, and any other is freed here. */
  function ApplyDropLoad(s: State, t: nat): State
    requires t in s.table && t in s.heap
  {
    var s' := s.(table := s.table - {t});
    if s.heap[t].completed then s'
    else if s.table[t].receiver then s'.(guest := Dropping(t))
    else SetNative(s', t, s.heap[t].(frees := s.heap[t].frees + 1))
  }

  function ApplyAwaitResume(s: State, t: nat): State
    requires t in s.heap && s.heap[t].channel.Some?
  {
    var n := s.heap[t];
    var outcome := n.channel.value;
    SetNative(s, t, n.(channel := None,
                       isoResults := if outcome.Ok? then None else n.isoResults,
                       delivered := n.delivered + [DeliveryOf(outcome, n.isoResults)]))
      .(guest := Idle)
  }

  function ApplyComplete(s: State, t: nat, done: Completion): State
    requires t in s.heap && s.heap[t].context.InFlight?
  {
    var n := s.heap[t];
    var outcome := CallbackOutcome(n.config, done);
    var packets := CallbackPackets(n.config, done);
    SetNative(s, t, n.(context := InCallback(done.buffer, outcome, 0),
                       isoResults := if packets.Some? then packets else n.isoResults,
                       computed := Some(DeliveryOf(outcome, packets))))
  }

  ghost function Apply(o: Order, s: State, l: Label): State
    requires IsOrder(o) && Enabled(s, l)
  {
    match l
    case New(config) =>
      s.(table := s.table[s.next := TableEntry(Some(InitialBuffer(config)), false)],
         heap := s.heap[s.next := Native(config, 0, false, None, NoContext, None, None, [])],
         next := s.next + 1)
    case SubmitLoad(t) => Load(s, t, Checked(t))
    case SubmitBody(t, data, code) => ApplySubmit(s, t, data, code)
    case SubmitReturn(t) => s.(table := s.table[t := s.table[t].(receiver := true)], guest := Idle)
    case CancelLoad(t) => Load(s, t, Cancelling(t))
    case CancelCall(t) => s.(guest := Idle)
    case AwaitBegin(t) =>
      if s.table[t].receiver
      then s.(table := s.table[t := s.table[t].(receiver := false)], guest := Awaiting(t))
      else s
    case AwaitResume(t) => ApplyAwaitResume(s, t)
    case DropLoad(t) => ApplyDropLoad(s, t)
    case DropCall(t) => s.(guest := Idle)
    case Complete(t, done) => ApplyComplete(s, t, done)
    case Act(t) => SetNative(s, t, Perform(s.heap[t], o[s.heap[t].context.done]))
    case DropContext(t) => SetNative(s, t, s.heap[t].(context := NoContext))
  }

  /** True when the data buffer of `t` has been freed: neither the entry nor a context owns it. */
  predicate BufferGone(s: State, t: nat)
    requires t in s.heap
  {
    s.heap[t].context.NoContext? && (t in s.table ==> s.table[t].buffer.None?)
  }

  /** The step reads, writes or frees a transfer or buffer that has been freed. */
  ghost predicate TouchesFreed(o: Order, s: State, l: Label)
    requires IsOrder(o) && Enabled(s, l)
  {
    match l
    case SubmitLoad(t) => s.heap[t].frees > 0
    case SubmitBody(t, data, _) =>
      || s.heap[t].frees > 0
      || (!DirectionIn(s.heap[t].config) && !RejectsLength(s.heap[t].config, data) && BufferGone(s, t))
    case CancelCall(t) => s.heap[t].frees > 0
    case DropLoad(t) => !s.heap[t].completed && !s.table[t].receiver && s.heap[t].frees > 0
    case DropCall(t) => s.heap[t].frees > 0
    case Complete(t, _) => s.heap[t].frees > 0
    case Act(t) => o[s.heap[t].context.done].FreeTransfer? && s.heap[t].frees > 0
    case _ => false
  }

  // ----- runs -----

  datatype Run = End | Then(first: Label, rest: Run)

  ghost predicate IsRun(o: Order, s: State, r: Run)
    requires IsOrder(o)
    decreases r
  {
    r.Then? ==> Enabled(s, r.first) && IsRun(o, Apply(o, s, r.first), r.rest)
  }

  ghost function Exec(o: Order, s: State, r: Run): State
    requires IsOrder(o) && IsRun(o, s, r)
    decreases r
  {
    if r.End? then s else Exec(o, Apply(o, s, r.first), r.rest)
  }

  ghost predicate RunTouchesFreed(o: Order, s: State, r: Run)
    requires IsOrder(o) && IsRun(o, s, r)
    decreases r
  {
    r.Then? && (TouchesFreed(o, s, r.first) || RunTouchesFreed(o, Apply(o, s, r.first), r.rest))
  }

  predicate Submits(r: Run, t: nat) {
    r.Then? && ((r.first.SubmitLoad? && r.first.t == t) || Submits(r.rest, t))
  }

  /** The guest never submits the same transfer twice. */
  predicate SubmitsOnce(r: Run) {
    r.Then? ==> (r.first.SubmitLoad? ==> !Submits(r.rest, r.first.t)) && SubmitsOnce(r.rest)
  }

  // ----- overlaps -----

  /** The transfer whose flag the running call has read as false. */
  function Loaded(g: Guest): Option<nat> {
    match g
    case Checked(t) => Some(t)
    case Cancelling(t) => Some(t)
    case Dropping(t) => Some(t)
    case _ => None
  }

  /** The second half of such a call, which uses the transfer. */
  predicate IsUse(l: Label) {
    l.SubmitBody? || l.CancelCall? || l.DropCall?
  }

  /** The callback frees the transfer between the two halves of a guest call. */
  ghost predicate Overlaps(o: Order, s: State, l: Label)
    requires IsOrder(o) && Enabled(s, l)
  {
    l.Act? && o[s.heap[l.t].context.done].FreeTransfer? && Loaded(s.guest) == Some(l.t)
  }

  /** Whether the call now running has been overlapped. */
  ghost predicate OverlappedAfter(o: Order, s: State, l: Label, overlapped: bool)
    requires IsOrder(o) && Enabled(s, l)
  {
    !IsUse(l) && (overlapped || Overlaps(o, s, l))
  }

  /** Some call of the run is overlapped and then uses its transfer. */
  ghost predicate HitsOverlap(o: Order, s: State, r: Run, overlapped: bool)
    requires IsOrder(o) && IsRun(o, s, r)
    decreases r
  {
    r.Then? && ((IsUse(r.first) && overlapped)
                || HitsOverlap(o, Apply(o, s, r.first), r.rest, OverlappedAfter(o, s, r.first, overlapped)))
  }

  // ----- the invariant -----

  predicate Done(o: Order, n: Native, a: Action) {
    if n.context.InCallback? then n.context.done <= |o| && a in o[..n.context.done]
    else n.computed.Some?
  }

  predicate Submitted(n: Native) {
    n.context.InFlight? || n.computed.Some?
  }

  function Count(b: bool): nat { if b then 1 else 0 }

  /** Number of places the oneshot receiver of `t` can be: in its table entry, in a running
      submit or await, or used up by a delivery. */
  function Receivers(s: State, t: nat): nat
    requires t in s.table && t in s.heap
  {
    Count(s.table[t].receiver) + Count(s.guest == Submitting(t)) + Count(s.guest == Awaiting(t))
    + |s.heap[t].delivered|
  }

  predicate NativeInv(o: Order, s: State, t: nat)
    requires t in s.heap
  {
    var n := s.heap[t];
    // history and flags agree with how far the callback has come
    && (n.context.InFlight? ==> n.computed.None?)
    && (n.context.InCallback? ==>
          && n.context.done <= 3
          && n.computed.Some? && n.computed.value.outcome == n.context.sending)
    && (n.completed <==> Done(o, n, StoreCompleted))
    // the transfer is freed by the callback, or by the drop of one never submitted
    && (Submitted(n) ==> n.frees == Count(Done(o, n, FreeTransfer)))
    && (!Submitted(n) ==> n.frees == Count(t !in s.table))
    // the result is in the channel until it is delivered, with its packet list beside it
    && (if Done(o, n, SendResult) then
          || (n.delivered == [] && n.channel == Some(n.computed.value.outcome))
          || (n.delivered == [n.computed.value] && n.channel == None)
        else n.delivered == [] && n.channel == None)
    && (n.computed.Some? && n.delivered == [] ==>
          n.computed.value == DeliveryOf(n.computed.value.outcome, n.isoResults))
    && (!n.computed.Some? ==> n.isoResults.None?)
    // the buffer leaves the entry when the context takes it
    && (t in s.table && Submitted(n) ==> s.table[t].buffer.None? && Receivers(s, t) == 1)
    && (t in s.table && !Submitted(n) ==> Receivers(s, t) == 0)
    && (t !in s.table ==> s.guest != Submitting(t) && s.guest != Awaiting(t))
  }

  /** The call the guest is in is about a transfer it owns, or, for a drop, just gave up. */
  predicate GuestInv(s: State) {
    match s.guest
    case Idle => true
    case Trapped => true
    case Dropping(t) => t !in s.table && t in s.heap && Submitted(s.heap[t])
    case _ => s.guest.t in s.table
  }

  predicate Inv(o: Order, s: State) {
    && IsOrder(o) && o[0] == StoreCompleted
    && s.table.Keys <= s.heap.Keys
    && (forall t :: t in s.heap ==> t < s.next)
    && GuestInv(s)
    && (forall t {:trigger NativeInv(o, s, t)} :: t in s.heap ==> NativeInv(o, s, t))
  }

  lemma DoneNext(o: Order, done: nat, a: Action)
    requires IsOrder(o) && done < 3
    ensures a in o[..done + 1] <==> a in o[..done] || a == o[done]
    ensures o[done] !in o[..done]
  {
    assert o[..done + 1] == o[..done] + [o[done]];
  }

  lemma AllDone(o: Order)
    requires IsOrder(o)
    ensures forall a :: a in o[..3]
  {
    assert o[..3] == o;
    forall a: Action ensures a in o[..3] {
      match a { case StoreCompleted => case SendResult => case FreeTransfer => }
    }
  }

  lemma NewKeepsNative(o: Order, s: State, c: Config, u: nat)
    requires Inv(o, s) && Enabled(s, New(c)) && u in Apply(o, s, New(c)).heap
    ensures NativeInv(o, Apply(o, s, New(c)), u)
  {
    if u in s.heap { assert NativeInv(o, s, u); }
  }

  lemma SubmitKeepsNative(o: Order, s: State, t: nat, data: seq<byte>, code: int, u: nat)
    requires Inv(o, s) && Enabled(s, SubmitBody(t, data, code)) && u in s.heap
    ensures NativeInv(o, ApplySubmit(s, t, data, code), u)
  {
    assert NativeInv(o, s, u) && NativeInv(o, s, t);
    match BranchOf(s.heap[t], s.table[t], data, code) {
      case Accepted(_) =>
      case _ =>
    }
  }

  lemma SubmitReturnKeepsNative(o: Order, s: State, t: nat, u: nat)
    requires Inv(o, s) && Enabled(s, SubmitReturn(t)) && u in s.heap
    ensures NativeInv(o, Apply(o, s, SubmitReturn(t)), u)
  {
    assert NativeInv(o, s, u);
  }

  lemma AwaitBeginKeepsNative(o: Order, s: State, t: nat, u: nat)
    requires Inv(o, s) && Enabled(s, AwaitBegin(t)) && u in s.heap
    ensures NativeInv(o, Apply(o, s, AwaitBegin(t)), u)
  {
    assert NativeInv(o, s, u);
  }

  lemma AwaitResumeKeepsNative(o: Order, s: State, t: nat, u: nat)
    requires Inv(o, s) && Enabled(s, AwaitResume(t)) && u in s.heap
    ensures NativeInv(o, ApplyAwaitResume(s, t), u)
  {
    assert NativeInv(o, s, u);
    if u == t {
      assert s.heap[t].computed.Some?;
    }
  }

  lemma LoadKeepsNative(o: Order, s: State, t: nat, g: Guest, u: nat)
    requires Inv(o, s) && s.guest.Idle? && t in s.heap && u in s.heap && Loaded(g) == Some(t)
    ensures NativeInv(o, Load(s, t, g), u)
  {
    assert NativeInv(o, s, u);
  }

  lemma UseKeepsNative(o: Order, s: State, u: nat)
    requires Inv(o, s) && Loaded(s.guest).Some? && u in s.heap
    ensures NativeInv(o, s.(guest := Idle), u)
  {
    assert NativeInv(o, s, u);
  }

  lemma DropKeepsNative(o: Order, s: State, t: nat, u: nat)
    requires Inv(o, s) && Enabled(s, DropLoad(t)) && u in s.heap
    ensures NativeInv(o, ApplyDropLoad(s, t), u)
  {
    assert NativeInv(o, s, u);
  }

  lemma CompleteKeepsNative(o: Order, s: State, t: nat, done: Completion, u: nat)
    requires Inv(o, s) && Enabled(s, Complete(t, done)) && u in s.heap
    ensures NativeInv(o, ApplyComplete(s, t, done), u)
  {
    assert NativeInv(o, s, u);
  }

  lemma ActKeepsNative(o: Order, s: State, t: nat, u: nat)
    requires Inv(o, s) && Enabled(s, Act(t)) && u in s.heap
    ensures NativeInv(o, Apply(o, s, Act(t)), u)
  {
    assert NativeInv(o, s, u);
    if u == t {
      var d := s.heap[u].context.done;
      DoneNext(o, d, StoreCompleted);
      DoneNext(o, d, SendResult);
      DoneNext(o, d, FreeTransfer);
      match o[d] {
        case StoreCompleted =>
        case SendResult =>
        case FreeTransfer =>
      }
    }
  }

  lemma DropContextKeepsNative(o: Order, s: State, t: nat, u: nat)
    requires Inv(o, s) && Enabled(s, DropContext(t)) && u in s.heap
    ensures NativeInv(o, Apply(o, s, DropContext(t)), u)
  {
    assert NativeInv(o, s, u);
    AllDone(o);
  }

  lemma StepKeepsGuest(o: Order, s: State, l: Label)
    requires Inv(o, s) && Enabled(s, l)
    ensures GuestInv(Apply(o, s, l))
  {
    match l {
      case DropLoad(t) => assert NativeInv(o, s, t);
      case Act(t) =>
      case DropContext(t) => assert NativeInv(o, s, t);
      case Complete(t, done) =>
      case _ =>
    }
  }

  lemma StepKeepsNative(o: Order, s: State, l: Label, u: nat)
    requires Inv(o, s) && Enabled(s, l) && u in Apply(o, s, l).heap
    ensures NativeInv(o, Apply(o, s, l), u)
  {
    match l {
      case New(c) => NewKeepsNative(o, s, c, u);
      case SubmitLoad(t) => LoadKeepsNative(o, s, t, Checked(t), u);
      case SubmitBody(t, data, code) => SubmitKeepsNative(o, s, t, data, code, u);
      case SubmitReturn(t) => SubmitReturnKeepsNative(o, s, t, u);
      case CancelLoad(t) => LoadKeepsNative(o, s, t, Cancelling(t), u);
      case CancelCall(t) => UseKeepsNative(o, s, u);
      case AwaitBegin(t) => AwaitBeginKeepsNative(o, s, t, u);
      case AwaitResume(t) => AwaitResumeKeepsNative(o, s, t, u);
      case DropLoad(t) => DropKeepsNative(o, s, t, u);
      case DropCall(t) => UseKeepsNative(o, s, u);
      case Complete(t, done) => CompleteKeepsNative(o, s, t, done, u);
      case Act(t) => ActKeepsNative(o, s, t, u);
      case DropContext(t) => DropContextKeepsNative(o, s, t, u);
    }
  }

  lemma StepKeepsShape(o: Order, s: State, l: Label)
    requires Inv(o, s) && Enabled(s, l)
    ensures var s' := Apply(o, s, l);
            s'.table.Keys <= s'.heap.Keys && forall t :: t in s'.heap ==> t < s'.next
  {}

  /** Every step keeps the invariant, for both orders that store `completed` first. */
  lemma StepKeepsInv(o: Order, s: State, l: Label)
    requires Inv(o, s) && Enabled(s, l)
    ensures Inv(o, Apply(o, s, l))
  {
    var s' := Apply(o, s, l);
    StepKeepsShape(o, s, l);
    StepKeepsGuest(o, s, l);
    forall u | u in s'.heap ensures NativeInv(o, s', u) {
      StepKeepsNative(o, s, l, u);
    }
  }
}
