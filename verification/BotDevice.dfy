/** A Bulk-Only device as the transports meet it: it takes a command wrapper, moves exactly the
    requested bytes in pieces of its own choosing, then sends thirteen bytes of status. A conforming
    device sends its own status wrapper; `foreign` makes it send any other thirteen bytes. */
module BotDevice {
  import opened UsbBase
  import opened BulkOnlyCodec
  import opened BlockDisk

  datatype Phase =
    | Waiting
    | Sending(data: seq<byte>, status: seq<byte>)
    | Receiving(command: Cbw, got: seq<byte>)
    | Halted

  class Device {
    const geometry: Geometry
    var disk: seq<byte>
    var phase: Phase
    var foreign: Option<seq<byte>>

    constructor (g: Geometry, content: seq<byte>)
      requires ValidDisk(g, content)
      ensures Valid() && geometry == g && disk == content && phase == Waiting && foreign == None
    {
      geometry, disk, phase, foreign := g, content, Waiting, None;
    }

    ghost predicate Valid()
      reads this
    {
      && ValidDisk(geometry, disk)
      && (phase.Receiving? ==> Sendable(phase.command) && |phase.got| < phase.command.length)
      && (phase.Sending? ==> |phase.status| > 0)
      && ValidStatus(foreign)
    }

    /** What the device will answer the next commands with. */
    method AnswerWith(status: Option<seq<byte>>)
      requires Valid() && ValidStatus(status)
      modifies this`foreign
      ensures Valid() && foreign == status
    {
      foreign := status;
    }

    /** A command wrapper on the OUT pipe. */
    method AcceptCommand(bytes: seq<byte>) returns (written: Option<nat>)
      requires Valid() && phase == Waiting
      modifies this`phase, this`disk
      ensures Valid()
      ensures DecodeCbw(bytes).None? ==> written.None? && phase == Waiting && disk == old(disk)
      ensures DecodeCbw(bytes).Some? ==>
                && written == Some(31)
                && (phase, disk) == AfterCommand(geometry, foreign, old(disk), DecodeCbw(bytes).value)
    {
      var command := DecodeCbw(bytes);
      if command.None? {
        return None;
      }
      var c := command.value;
      if c.directionIn {
        var reply := AnswerIn(geometry, disk, c.block, c.length);
        phase := Sending(reply.data, StatusFor(foreign, c.tag, reply.status));
      } else if c.length == 0 {
        var reply := AnswerOut(geometry, disk, c.block, []);
        disk := reply.disk;
        phase := Sending([], StatusFor(foreign, c.tag, reply.status));
      } else {
        phase := Receiving(c, []);
      }
      return Some(31);
    }

    /** One bulk OUT transfer in the data phase: at least one byte is taken, perhaps not all. */
    method TakeData(bytes: seq<byte>) returns (written: Option<nat>)
      requires Valid() && bytes != []
      modifies this`phase, this`disk
      ensures Valid()
      ensures !old(phase).Receiving? ==> written.None? && phase == old(phase) && disk == old(disk)
      ensures old(phase).Receiving? ==>
                && written.Some?
                && 1 <= written.value <= |bytes|
                && |old(phase).got| + written.value <= old(phase).command.length
                && (phase, disk) == AfterData(geometry, foreign, old(disk), old(phase).command,
                                              old(phase).got + bytes[..written.value])
    {
      if !phase.Receiving? {
        return None;
      }
      var c := phase.command;
      var room := c.length - |phase.got|;
      var n: nat :| 1 <= n <= |bytes| && n <= room;
      var got := phase.got + bytes[..n];
      if |got| == c.length {
        var reply := AnswerOut(geometry, disk, c.block, got);
        disk := reply.disk;
        phase := Sending([], StatusFor(foreign, c.tag, reply.status));
      } else {
        phase := Receiving(c, got);
      }
      return Some(n);
    }

    /** One bulk IN transfer for at most `max` bytes: some of what is due, at least one byte. A
        transfer never runs from the data into the status. */
    method Send(max: nat) returns (bytes: Option<seq<byte>>)
      requires Valid() && max > 0
      modifies this`phase
      ensures Valid()
      ensures !old(phase).Sending? ==> bytes.None? && phase == old(phase)
      ensures old(phase).Sending? ==>
                && bytes.Some?
                && 1 <= |bytes.value| <= max
                && |bytes.value| <= |Due(old(phase))|
                && bytes.value == Due(old(phase))[..|bytes.value|]
                && phase == AfterSend(old(phase), |bytes.value|)
    {
      if !phase.Sending? {
        return None;
      }
      var due := Due(phase);
      var n: nat :| 1 <= n <= max && n <= |due|;
      phase := AfterSend(phase, n);
      return Some(due[..n]);
    }

    /** A host OUT transfer of the whole data phase, as one call. A packet outside a data phase,
        such as the empty one, is not a valid command wrapper: the device halts until a reset
        (section 6.6.1). */
    method TakeWhole(bytes: seq<byte>) returns (ok: bool)
      requires Valid()
      requires phase.Receiving? ==> phase.got == [] && |bytes| == phase.command.length
      modifies this`phase, this`disk
      ensures Valid() && ok == old(phase).Receiving?
      ensures ok ==> (phase, disk) == AfterData(geometry, foreign, old(disk), old(phase).command, bytes)
      ensures !ok ==> phase == Halted && disk == old(disk)
    {
      if !phase.Receiving? {
        phase := Halted;
        return false;
      }
      var c := phase.command;
      var reply := AnswerOut(geometry, disk, c.block, bytes);
      disk := reply.disk;
      phase := Sending([], StatusFor(foreign, c.tag, reply.status));
      return true;
    }

    /** A host transfer of exactly `length` bytes, as one call: libusb gathers the pieces. */
    method SendWhole(length: nat) returns (bytes: Option<seq<byte>>)
      requires Valid()
      requires phase.Sending? && length == |Due(phase)|
      modifies this`phase
      ensures Valid()
      ensures bytes == Some(Due(old(phase))) && phase == AfterSend(old(phase), length)
    {
      bytes := Some(Due(phase));
      phase := AfterSend(phase, length);
    }
  }

  predicate ValidStatus(foreign: Option<seq<byte>>) {
    foreign.Some? ==> |foreign.value| == 13
  }

  /** The thirteen bytes that answer a command. */
  function StatusFor(foreign: Option<seq<byte>>, tag: u32, status: byte): (r: seq<byte>)
    requires ValidStatus(foreign)
    ensures |r| == 13
  {
    if foreign.Some? then foreign.value else EncodeCsw(tag, 0, status)
  }

  function AfterCommand(g: Geometry, foreign: Option<seq<byte>>, disk: seq<byte>, c: Cbw): (Phase, seq<byte>)
    requires ValidDisk(g, disk) && ValidStatus(foreign)
  {
    if c.directionIn then
      var reply := AnswerIn(g, disk, c.block, c.length);
      (Sending(reply.data, StatusFor(foreign, c.tag, reply.status)), disk)
    else if c.length == 0 then
      var reply := AnswerOut(g, disk, c.block, []);
      (Sending([], StatusFor(foreign, c.tag, reply.status)), reply.disk)
    else
      (Receiving(c, []), disk)
  }

  function AfterData(g: Geometry, foreign: Option<seq<byte>>, disk: seq<byte>, c: Cbw, got: seq<byte>): (Phase, seq<byte>)
    requires ValidDisk(g, disk) && ValidStatus(foreign)
  {
    if |got| == c.length then
      var reply := AnswerOut(g, disk, c.block, got);
      (Sending([], StatusFor(foreign, c.tag, reply.status)), reply.disk)
    else
      (Receiving(c, got), disk)
  }

  /** What the next IN transfer draws from: the rest of the data, then the status. */
  function Due(p: Phase): seq<byte>
    requires p.Sending?
  {
    if p.data != [] then p.data else p.status
  }

  function AfterSend(p: Phase, n: nat): Phase
    requires p.Sending? && n <= |Due(p)|
  {
    if p.data != [] then Sending(p.data[n..], p.status)
    else if n == |p.status| then Waiting
    else Sending([], p.status[n..])
  }
}
