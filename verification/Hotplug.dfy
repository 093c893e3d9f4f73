/** Device references, the hotplug queue and the device filter (usb-wasi-host/src/usb_backend.rs
    and the device resource code of usb-wasi-host/src/main.rs), as interleaved steps of guest
    calls and the libusb event thread. */
module Hotplug {
  import opened UsbBase

  datatype DeviceId = DeviceId(vendor: u16, product: u16)

  /** A libusb device: its address in memory and the ids its descriptor reports. */
  datatype Device = Device(ptr: nat, id: DeviceId)

  datatype Policy = Allowed(devices: seq<DeviceId>) | Denied(devices: seq<DeviceId>)

  predicate IsAllowed(p: Policy, id: DeviceId) {
    match p
    case Allowed(devices) => id in devices
    case Denied(devices) => id !in devices
  }

  datatype EventCode = Arrived | Left | OtherCode

  datatype Event = Event(left: bool, device: Device)

  /** The references the host holds on each device. */
  type Refs = map<Device, int>

  function Held(refs: Refs, d: Device): int {
    if d in refs then refs[d] else 0
  }

  /** libusb_ref_device. */
  function Ref(refs: Refs, d: Device): Refs {
    refs[d := Held(refs, d) + 1]
  }

  /** libusb_unref_device. */
  function Unref(refs: Refs, d: Device): Refs {
    refs[d := Held(refs, d) - 1]
  }

  function RefEach(refs: Refs, ds: seq<Device>): Refs {
    if ds == [] then refs else Ref(RefEach(refs, ds[..|ds| - 1]), ds[|ds| - 1])
  }

  function Count(ds: seq<Device>, d: Device): nat {
    if ds == [] then 0 else Count(ds[..|ds| - 1], d) + if ds[|ds| - 1] == d then 1 else 0
  }

  lemma {:induction false} RefEachHeld(refs: Refs, ds: seq<Device>, d: Device)
    ensures Held(RefEach(refs, ds), d) == Held(refs, d) + Count(ds, d)
  {
    if ds == [] {
    } else {
      RefEachHeld(refs, ds[..|ds| - 1], d);
    }
  }

  lemma {:induction false} CountPositive(ds: seq<Device>, k: nat)
    requires k < |ds|
    ensures Count(ds, ds[k]) >= 1
  {
    if k == |ds| - 1 {
    } else {
      CountPositive(ds[..|ds| - 1], k);
    }
  }

  /** `refs` are the references the host holds; `table` is the resource table, which the
      device drop never shrinks, and `live` marks the entries the guest still owns. `callback` is
      an event between its libusb_ref_device and its push. `polled` is what the guest was given. */
  datatype State = State(
    refs: Refs,
    table: seq<Device>,
    live: seq<bool>,
    queue: seq<Event>,
    callback: Option<Event>,
    polled: seq<Event>)

  const INITIAL: State := State(map[], [], [], [], None, [])

  datatype Listed = Listed(device: Device, described: bool)

  datatype Label =
    | CallbackEnter(device: Device, code: EventCode, described: bool)
    | CallbackPush
    | Poll
    | List(found: seq<Listed>)
    | DropDevice(handle: nat)

  /** libusb runs callbacks one at a time on the event thread. */
  predicate Enabled(s: State, l: Label) {
    match l
    case CallbackEnter(_, _, _) => s.callback.None?
    case CallbackPush => s.callback.Some?
    case DropDevice(h) => h < |s.live| && h < |s.table| && s.live[h]
    case _ => true
  }

  /** The event hotplug_cb makes of a call, if it does not return early. */
  function EventOf(p: Policy, device: Device, code: EventCode, described: bool): Option<Event> {
    if !described || !IsAllowed(p, device.id) || code.OtherCode? then None
    else Some(Event(code.Left?, device))
  }

  /** What list_devices keeps. */
  function Kept(p: Policy, found: seq<Listed>): seq<Device> {
    if found == [] then []
    else
      var last := found[|found| - 1];
      Kept(p, found[..|found| - 1])
      + if last.described && IsAllowed(p, last.device.id) then [last.device] else []
  }

  function Devices(events: seq<Event>): (r: seq<Device>)
    ensures |r| == |events|
  {
    seq(|events|, i requires 0 <= i < |events| => events[i].device)
  }

  /** Pushing resources for `devices`, which the guest then owns. */
  function Give(s: State, devices: seq<Device>): State {
    s.(table := s.table + devices, live := s.live + seq(|devices|, _ => true))
  }

  function Apply(p: Policy, s: State, l: Label): State
    requires Enabled(s, l)
  {
    match l
    case CallbackEnter(device, code, described) =>
      var event := EventOf(p, device, code, described);
      if event.None? then s else s.(refs := Ref(s.refs, device), callback := event)
    case CallbackPush => s.(queue := s.queue + [s.callback.value], callback := None)
    case Poll => Give(s, Devices(s.queue)).(queue := [], polled := s.polled + s.queue)
    case List(found) =>
      var kept := Kept(p, found);
      Give(s, kept).(refs := RefEach(s.refs, kept))
    case DropDevice(h) => s.(refs := Unref(s.refs, s.table[h]), live := s.live[h := false])
  }

  // ----- runs -----

  predicate IsRun(p: Policy, ls: seq<Label>)
    decreases |ls|, 0
  {
    ls == [] || (IsRun(p, ls[..|ls| - 1]) && Enabled(Exec(p, ls[..|ls| - 1]), ls[|ls| - 1]))
  }

  function Exec(p: Policy, ls: seq<Label>): State
    requires IsRun(p, ls)
    decreases |ls|, 1
  {
    if ls == [] then INITIAL else Apply(p, Exec(p, ls[..|ls| - 1]), ls[|ls| - 1])
  }

  // ----- references -----

  /** How many of the resources the guest owns stand for `d`. */
  function Owned(table: seq<Device>, live: seq<bool>, d: Device): nat {
    if table == [] || |live| != |table| then 0
    else
      var n := |table| - 1;
      Owned(table[..n], live[..n], d) + if live[n] && table[n] == d then 1 else 0
  }

  function Queued(queue: seq<Event>, d: Device): nat {
    Count(Devices(queue), d)
  }

  function InCallback(callback: Option<Event>, d: Device): nat {
    if callback.Some? && callback.value.device == d then 1 else 0
  }

  predicate Conserved(s: State, d: Device) {
    && |s.live| == |s.table|
    && Held(s.refs, d) == Owned(s.table, s.live, d) + Queued(s.queue, d) + InCallback(s.callback, d)
  }

  lemma {:induction false} OwnedAppend(table: seq<Device>, live: seq<bool>, more: seq<Device>, d: Device)
    requires |live| == |table|
    ensures Owned(table + more, live + seq(|more|, _ => true), d) == Owned(table, live, d) + Count(more, d)
  {
    if more == [] {
      assert table + more == table;
      assert live + seq(0, _ => true) == live;
    } else {
      var n := |more| - 1;
      var all := table + more;
      var flags := live + seq(|more|, _ => true);
      OwnedAppend(table, live, more[..n], d);
      assert all[..|all| - 1] == table + more[..n];
      assert flags[..|all| - 1] == live + seq(n, _ => true);
    }
  }

  lemma {:induction false} OwnedDrop(table: seq<Device>, live: seq<bool>, h: nat, d: Device)
    requires |live| == |table| && h < |live| && live[h]
    ensures Owned(table, live, d) == Owned(table, live[h := false], d) + if table[h] == d then 1 else 0
  {
    var n := |table| - 1;
    if h < n {
      OwnedDrop(table[..n], live[..n], h, d);
      assert live[h := false][..n] == live[..n][h := false];
    } else {
      assert live[h := false][..n] == live[..n];
    }
  }

  lemma StepConserves(p: Policy, s: State, l: Label, d: Device)
    requires Conserved(s, d) && Enabled(s, l)
    ensures Conserved(Apply(p, s, l), d)
  {
    match l {
      case CallbackEnter(_, _, _) =>
      case CallbackPush =>
        var more := Devices(s.queue + [s.callback.value]);
        assert more[..|s.queue|] == Devices(s.queue);
      case Poll =>
        OwnedAppend(s.table, s.live, Devices(s.queue), d);
        assert Devices([]) == [];
      case List(found) =>
        RefEachHeld(s.refs, Kept(p, found), d);
        OwnedAppend(s.table, s.live, Kept(p, found), d);
      case DropDevice(h) => OwnedDrop(s.table, s.live, h, d);
    }
  }

  /** Over every run and for each device, the references the host holds are one for each resource
      the guest owns, one for each queued event, and one for an event about to be queued. */
  lemma {:induction false} ReferencesConserved(p: Policy, ls: seq<Label>, d: Device)
    requires IsRun(p, ls)
    ensures Conserved(Exec(p, ls), d)
  {
    if ls != [] {
      ReferencesConserved(p, ls[..|ls| - 1], d);
      StepConserves(p, Exec(p, ls[..|ls| - 1]), ls[|ls| - 1], d);
    } else {
      assert Devices([]) == [];
    }
  }

  /** So no device the guest or the queue can still reach has lost its last reference: the drop
      that returns a reference always finds one to return. */
  lemma ReachableDevicesReferenced(p: Policy, ls: seq<Label>, h: nat)
    requires IsRun(p, ls)
    ensures var s := Exec(p, ls);
            && (Enabled(s, DropDevice(h)) ==> Held(s.refs, s.table[h]) >= 1)
            && (h < |s.queue| ==> Held(s.refs, s.queue[h].device) >= 1)
  {
    var s := Exec(p, ls);
    if Enabled(s, DropDevice(h)) {
      ReferencesConserved(p, ls, s.table[h]);
      OwnedDrop(s.table, s.live, h, s.table[h]);
    }
    if h < |s.queue| {
      ReferencesConserved(p, ls, s.queue[h].device);
      CountPositive(Devices(s.queue), h);
    }
  }

  /** Once the guest owns nothing and no event waits, the host holds no reference. */
  lemma NothingLeaks(p: Policy, ls: seq<Label>, d: Device)
    requires IsRun(p, ls)
    requires var s := Exec(p, ls);
             s.queue == [] && s.callback.None? && forall h :: 0 <= h < |s.live| ==> !s.live[h]
    ensures Held(Exec(p, ls).refs, d) == 0
  {
    var s := Exec(p, ls);
    assert Devices([]) == [];
    ReferencesConserved(p, ls, d);
    NothingOwned(s.table, s.live, d);
  }

  lemma {:induction false} NothingOwned(table: seq<Device>, live: seq<bool>, d: Device)
    requires |live| == |table| && forall h :: 0 <= h < |live| ==> !live[h]
    ensures Owned(table, live, d) == 0
  {
    if table == [] {
    } else {
      NothingOwned(table[..|table| - 1], live[..|live| - 1], d);
    }
  }

  // ----- events -----

  /** The allowed arrive and leave events of a run, in callback order. */
  function AllowedEvents(p: Policy, ls: seq<Label>): seq<Event> {
    if ls == [] then []
    else
      var l := ls[|ls| - 1];
      AllowedEvents(p, ls[..|ls| - 1])
      + if l.CallbackEnter? then AsEvents(EventOf(p, l.device, l.code, l.described)) else []
  }

  function AsEvents(e: Option<Event>): seq<Event> {
    match e
    case None => []
    case Some(event) => [event]
  }

  /** However callbacks and polls interleave, what was polled, then the queue, then the event in
      the callback, are exactly the allowed events in order, each once. */
  lemma {:induction false} EventsDeliveredInOrder(p: Policy, ls: seq<Label>)
    requires IsRun(p, ls)
    ensures var s := Exec(p, ls);
            s.polled + s.queue + AsEvents(s.callback) == AllowedEvents(p, ls)
  {
    if ls == [] {
    } else {
      EventsDeliveredInOrder(p, ls[..|ls| - 1]);
    }
  }

  /** The callbacks the guest should hear of: the device is described and passes the filter, and it
      arrived or left. */
  predicate Reportable(p: Policy, l: Label) {
    && l.CallbackEnter? && l.described && (l.code == Arrived || l.code == Left)
    && if p.Allowed? then l.device.id in p.devices else l.device.id !in p.devices
  }

  /** Event `e` says what callback `l` was called for. */
  predicate Tells(e: Event, l: Label) {
    l.CallbackEnter? && e.device == l.device && (e.left <==> l.code == Left)
  }

  lemma {:induction false} AllowedEventsAt(p: Policy, ls: seq<Label>) returns (at: seq<nat>)
    ensures |at| == |AllowedEvents(p, ls)|
    ensures forall k :: 0 <= k < |at| ==>
              at[k] < |ls| && Reportable(p, ls[at[k]]) && Tells(AllowedEvents(p, ls)[k], ls[at[k]])
    ensures forall j, k :: 0 <= j < k < |at| ==> at[j] < at[k]
    ensures forall i :: 0 <= i < |ls| && Reportable(p, ls[i]) ==> i in at
  {
    if ls == [] {
      at := [];
    } else {
      var n := |ls| - 1;
      at := AllowedEventsAt(p, ls[..n]);
      if Reportable(p, ls[n]) {
        at := at + [n];
      }
    }
  }

  /** The same without the model's own events: the `k`-th event, of those polled, queued or in the
      callback, tells of the `k`-th reportable callback, which is label `at[k]`. */
  lemma EventsAreCallbacks(p: Policy, ls: seq<Label>) returns (at: seq<nat>)
    requires IsRun(p, ls)
    ensures var s := Exec(p, ls);
            var events := s.polled + s.queue + (if s.callback.Some? then [s.callback.value] else []);
            && |at| == |events|
            && forall k :: 0 <= k < |at| ==> at[k] < |ls| && Reportable(p, ls[at[k]]) && Tells(events[k], ls[at[k]])
    ensures forall j, k :: 0 <= j < k < |at| ==> at[j] < at[k]
    ensures forall i :: 0 <= i < |ls| && Reportable(p, ls[i]) ==> i in at
  {
    at := AllowedEventsAt(p, ls);
    EventsDeliveredInOrder(p, ls);
  }

  // ----- the filter -----

  predicate OnlyAllowed(p: Policy, s: State) {
    && (forall h :: 0 <= h < |s.table| ==> IsAllowed(p, s.table[h].id))
    && (forall k :: 0 <= k < |s.queue| ==> IsAllowed(p, s.queue[k].device.id))
    && (s.callback.Some? ==> IsAllowed(p, s.callback.value.device.id))
  }

  lemma {:induction false} KeptAllowed(p: Policy, found: seq<Listed>)
    ensures forall d :: d in Kept(p, found) ==> IsAllowed(p, d.id)
  {
    if found == [] {
    } else {
      KeptAllowed(p, found[..|found| - 1]);
    }
  }

  lemma StepKeepsAllowed(p: Policy, s: State, l: Label)
    requires OnlyAllowed(p, s) && Enabled(s, l)
    ensures OnlyAllowed(p, Apply(p, s, l))
  {
    if l.List? {
      var kept := Kept(p, l.found);
      KeptAllowed(p, l.found);
      assert forall k :: 0 <= k < |kept| ==> kept[k] in kept;
    }
  }

  /** Every device handed to the guest, by listing or by polling, passes the filter: it is in the list
      of allowed devices, or not in the list of denied ones. */
  lemma {:induction false} GuestSeesOnlyAllowed(p: Policy, ls: seq<Label>)
    requires IsRun(p, ls)
    ensures OnlyAllowed(p, Exec(p, ls))
    ensures forall h :: 0 <= h < |Exec(p, ls).table| ==>
              var id := Exec(p, ls).table[h].id; if p.Allowed? then id in p.devices else id !in p.devices
    ensures forall k :: 0 <= k < |Exec(p, ls).queue| ==>
              var id := Exec(p, ls).queue[k].device.id; if p.Allowed? then id in p.devices else id !in p.devices
  {
    if ls == [] {
    } else {
      GuestSeesOnlyAllowed(p, ls[..|ls| - 1]);
      StepKeepsAllowed(p, Exec(p, ls[..|ls| - 1]), ls[|ls| - 1]);
    }
  }

  /** What listing should keep: the device is described and passes the filter. */
  predicate Wanted(p: Policy, found: Listed) {
    found.described && if p.Allowed? then found.device.id in p.devices else found.device.id !in p.devices
  }

  /** Listing keeps exactly the described devices that pass the filter, in the order the system reports
      them: the `k`-th device kept was found at `at[k]`. */
  lemma {:induction false} KeptInOrder(p: Policy, found: seq<Listed>) returns (at: seq<nat>)
    ensures |at| == |Kept(p, found)|
    ensures forall k :: 0 <= k < |at| ==>
              at[k] < |found| && Wanted(p, found[at[k]]) && Kept(p, found)[k] == found[at[k]].device
    ensures forall j, k :: 0 <= j < k < |at| ==> at[j] < at[k]
    ensures forall i :: 0 <= i < |found| && Wanted(p, found[i]) ==> i in at
  {
    if found == [] {
      at := [];
    } else {
      var n := |found| - 1;
      at := KeptInOrder(p, found[..n]);
      if Wanted(p, found[n]) {
        at := at + [n];
      }
    }
  }

  // ----- the calls -----

  class Backend {
    const policy: Policy
    var refs: Refs
    var table: seq<Device>
    var live: seq<bool>
    var queue: seq<Event>
    ghost var polled: seq<Event>

    constructor (policy: Policy)
      ensures this.policy == policy && Now() == INITIAL
    {
      this.policy := policy;
      refs, table, live, queue, polled := map[], [], [], [], [];
    }

    ghost function Now(): State
      reads this
    {
      State(refs, table, live, queue, None, polled)
    }

    /** hotplug_cb, start to end. */
    method HotplugCallback(device: Device, code: EventCode, described: bool)
      modifies this
      ensures var entered := Apply(policy, old(Now()), CallbackEnter(device, code, described));
              Now() == if entered.callback.Some? then Apply(policy, entered, CallbackPush) else entered
      ensures var reported := described && (code == Arrived || code == Left)
                              && (if policy.Allowed? then device.id in policy.devices else device.id !in policy.devices);
              && queue == old(queue) + (if reported then [Event(code == Left, device)] else [])
              && Held(refs, device) == old(Held(refs, device)) + (if reported then 1 else 0)
    {
      if !described {
        return;
      }
      if !IsAllowed(policy, device.id) {
        return;
      }
      var left := false;
      match code {
        case Arrived => left := false;
        case Left => left := true;
        case OtherCode => return;
      }
      refs := Ref(refs, device);
      queue := queue + [Event(left, device)];
    }

    /** A resource for each device, in order. */
    method PushResources(devices: seq<Device>) returns (handles: seq<nat>)
      modifies this`table, this`live
      ensures Now() == Give(old(Now()), devices)
      ensures |handles| == |devices|
      ensures forall k :: 0 <= k < |handles| ==> handles[k] == |old(table)| + k
    {
      ghost var before := Now();
      handles := [];
      var k := 0;
      while k < |devices|
        invariant 0 <= k <= |devices| && |handles| == k
        invariant Now() == Give(before, devices[..k])
        invariant forall i :: 0 <= i < k ==> handles[i] == |before.table| + i
      {
        handles := handles + [|table|];
        table := table + [devices[k]];
        live := live + [true];
        k := k + 1;
      }
      assert devices[..k] == devices;
    }

    /** poll_events of the backend: the queue is drained from the front. */
    method DrainQueue() returns (events: seq<Event>)
      modifies this`queue
      ensures events == old(queue) && queue == []
    {
      events := [];
      while queue != []
        invariant events + queue == old(queue)
        decreases |queue|
      {
        events := events + [queue[0]];
        queue := queue[1..];
      }
    }

    method PollEvents() returns (events: seq<Event>, handles: seq<nat>)
      modifies this
      ensures Now() == Apply(policy, old(Now()), Poll)
      ensures events == old(queue) && queue == [] && |handles| == |events|
      ensures forall k :: 0 <= k < |handles| ==>
                handles[k] == |old(table)| + k && handles[k] < |table| && table[handles[k]] == events[k].device
    {
      ghost var before := Now();
      events := DrainQueue();
      assert Now() == before.(queue := []);
      handles := PushResources(Devices(events));
      assert forall k :: 0 <= k < |handles| ==> table[handles[k]] == Devices(events)[k];
      polled := polled + events;
    }

    /** list_devices of the backend: a reference for each device kept. */
    method ListBackend(found: seq<Listed>) returns (devices: seq<Device>)
      modifies this`refs
      ensures devices == Kept(policy, found) && refs == RefEach(old(refs), devices)
    {
      devices := [];
      var i := 0;
      while i < |found|
        invariant 0 <= i <= |found| && devices == Kept(policy, found[..i])
        invariant refs == RefEach(old(refs), devices)
      {
        assert found[..i + 1][..i] == found[..i];
        assert (devices + [found[i].device])[..|devices|] == devices;
        if found[i].described && IsAllowed(policy, found[i].device.id) {
          devices := devices + [found[i].device];
          refs := Ref(refs, found[i].device);
        }
        i := i + 1;
      }
      assert found[..i] == found;
    }

    method ListDevices(found: seq<Listed>) returns (handles: seq<nat>)
      modifies this
      ensures Now() == Apply(policy, old(Now()), List(found))
      ensures |handles| == |Kept(policy, found)|
      ensures forall k :: 0 <= k < |handles| ==>
                handles[k] == |old(table)| + k && handles[k] < |table| && table[handles[k]] == Kept(policy, found)[k]
    {
      ghost var before := Now();
      var devices := ListBackend(found);
      assert Now() == before.(refs := RefEach(before.refs, devices));
      handles := PushResources(devices);
      assert forall k :: 0 <= k < |handles| ==> table[handles[k]] == devices[k];
    }

    /** HostUsbDevice::drop: one reference is returned; the table entry stays. */
    method DropDevice(handle: nat)
      requires Enabled(Now(), Label.DropDevice(handle))
      modifies this
      ensures Now() == Apply(policy, old(Now()), Label.DropDevice(handle))
      ensures table == old(table) && live == old(live)[handle := false]
      ensures Held(refs, table[handle]) == old(Held(refs, table[handle])) - 1
    {
      refs := Unref(refs, table[handle]);
      live := live[handle := false];
    }
  }
}
