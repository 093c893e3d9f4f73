/** The two transports over one device: the native one moves data in whatever pieces the device
    chooses (benchmarks/usb-bench-rs/src/bulk_only/native.rs), the WASM one asks for each phase
    in a single transfer (wasm.rs). Both are proved against the same functions of the disk and of
    the thirteen status bytes the device sends, whatever these are. */
module BulkTransport {
  import opened UsbBase
  import opened BulkOnlyCodec
  import opened BlockDisk
  import opened BotDevice

  datatype BotError = Csw(error: CswError) | Stalled

  type InResult = Result<seq<byte>, BotError>
  type OutResult = Result<(), BotError>

  /** What the host makes of a status wrapper. */
  function Verdict(status: seq<byte>, tag: u32): Option<BotError> {
    match ValidateCsw(status, tag)
    case None => None
    case Some(e) => Some(Csw(e))
  }

  /** What an IN command returns, given its tag and what the device answers with. */
  function InJudged(g: Geometry, disk: seq<byte>, foreign: Option<seq<byte>>, tag: u32, block: seq<byte>, length: nat)
    : InResult
    requires ValidDisk(g, disk) && ValidStatus(foreign)
  {
    var reply := AnswerIn(g, disk, block, length);
    match Verdict(StatusFor(foreign, tag, reply.status), tag)
    case None => Ok(reply.data)
    case Some(e) => Err(e)
  }

  /** What an OUT command returns. */
  function OutJudged(g: Geometry, disk: seq<byte>, foreign: Option<seq<byte>>, tag: u32, block: seq<byte>, data: seq<byte>)
    : OutResult
    requires ValidDisk(g, disk) && ValidStatus(foreign)
  {
    match Verdict(StatusFor(foreign, tag, AnswerOut(g, disk, block, data).status), tag)
    case None => Ok(())
    case Some(e) => Err(e)
  }

  /** What an IN command to a conforming device returns: no tag appears in it. */
  function InOutcome(g: Geometry, disk: seq<byte>, block: seq<byte>, length: nat): InResult
    requires ValidDisk(g, disk)
  {
    var reply := AnswerIn(g, disk, block, length);
    if reply.status == GOOD then Ok(reply.data) else Err(Csw(CommandFailed(reply.status)))
  }

  function OutOutcome(g: Geometry, disk: seq<byte>, block: seq<byte>, data: seq<byte>): OutResult
    requires ValidDisk(g, disk)
  {
    var reply := AnswerOut(g, disk, block, data);
    if reply.status == GOOD then Ok(()) else Err(Csw(CommandFailed(reply.status)))
  }

  /** A conforming device's own status wrapper is judged by its status alone. */
  lemma ConformingIn(g: Geometry, disk: seq<byte>, tag: u32, block: seq<byte>, length: nat)
    requires ValidDisk(g, disk)
    ensures InJudged(g, disk, None, tag, block, length) == InOutcome(g, disk, block, length)
  {
    AcceptsOwnSuccess(tag, 0, AnswerIn(g, disk, block, length).status, tag);
  }

  lemma ConformingOut(g: Geometry, disk: seq<byte>, tag: u32, block: seq<byte>, data: seq<byte>)
    requires ValidDisk(g, disk)
    ensures OutJudged(g, disk, None, tag, block, data) == OutOutcome(g, disk, block, data)
  {
    AcceptsOwnSuccess(tag, 0, AnswerOut(g, disk, block, data).status, tag);
  }

  datatype Kind = Native | Wasm

  class Transport {
    const kind: Kind
    const device: Device
    var tag: u32
    ghost var commands: nat

    constructor (kind: Kind, device: Device)
      requires device.Valid() && device.phase == Waiting
      ensures Valid() && this.kind == kind && this.device == device && commands == 0 && tag == 1
    {
      this.kind, this.device, tag, commands := kind, device, 1, 0;
    }

    /** The tag is the one the count of commands sent so far calls for. */
    ghost predicate Tagged()
      reads this
    {
      tag == TagOf(commands)
    }

    ghost predicate Valid()
      reads this, device
    {
      device.Valid() && device.phase == Waiting && Tagged()
    }

    ghost predicate Conforming()
      reads this, device
    {
      Valid() && device.foreign.None?
    }

    method NextTag() returns (t: u32)
      requires Tagged()
      modifies this
      ensures Tagged() && commands == old(commands) + 1 && t == TagOf(old(commands))
    {
      t := tag;
      tag := (tag + 1) % TWO_TO_THE_32;
      commands := commands + 1;
      TagWraps(old(commands));
    }

    method WriteCbw(t: u32, length: u32, directionIn: bool, block: seq<byte>) returns (ok: bool)
      requires device.Valid() && device.phase == Waiting && 1 <= |block| <= 16
      modifies device`phase, device`disk
      ensures device.Valid() && ok
      ensures (device.phase, device.disk)
           == AfterCommand(device.geometry, device.foreign, old(device.disk), Cbw(t, length, directionIn, block))
    {
      var cbw := BuildCbw(t, length, directionIn, block);
      CbwRoundTrip(Cbw(t, length, directionIn, block));
      var n := device.AcceptCommand(cbw[..]);
      ok := n == Some(31);
    }

    /** read_csw: thirteen bytes in as many pieces as it takes, then the checks. */
    method ReadCsw(expectedTag: u32, ghost whole: seq<byte>) returns (error: Option<BotError>)
      requires device.Valid() && device.phase == Sending([], whole) && |whole| == 13
      modifies device`phase
      ensures device.Valid() && device.phase == Waiting
      ensures error == Verdict(whole, expectedTag)
    {
      var csw: seq<byte> := [];
      while |csw| < 13
        invariant |csw| <= 13 && csw == whole[..|csw|]
        invariant device.Valid()
        invariant device.phase == if |csw| == 13 then Waiting else Sending([], whole[|csw|..])
      {
        var piece := device.Send(13 - |csw|);
        if piece.None? {
          return Some(Stalled);
        }
        csw := csw + piece.value;
      }
      assert csw == whole;
      var e := ValidateCsw(csw, expectedTag);
      return if e.None? then None else Some(Csw(e.value));
    }

    /** The native data phase: read into the buffer until it is full or the device stops. */
    method ReadDataNative(length: nat, ghost all: seq<byte>) returns (data: seq<byte>, stalled: bool)
      requires device.Valid() && device.phase.Sending? && device.phase.data == all && |all| == length
      modifies device`phase
      ensures device.Valid()
      ensures !stalled && data == all && device.phase == Sending([], old(device.phase).status)
    {
      var buffer := new byte[length](_ => 0);
      var total := 0;
      stalled := false;
      while total < length
        invariant 0 <= total <= length && buffer[..total] == all[..total]
        invariant device.Valid()
        invariant device.phase == Sending(all[total..], old(device.phase).status)
      {
        var piece := device.Send(length - total);
        if piece.None? {
          return [], true;
        }
        var n := |piece.value|;
        if n == 0 {
          break;
        }
        forall i | 0 <= i < n { buffer[total + i] := piece.value[i]; }
        assert buffer[..total + n] == buffer[..total] + piece.value;
        total := total + n;
      }
      data := buffer[..total];
    }

    /** The native OUT data phase: write until all is taken, or the device takes no more because
        the command announced less. */
    method WriteDataNative(data: seq<byte>, ghost command: Cbw) returns (stalled: bool)
      requires device.Valid() && command.length <= |data|
      requires if command.length > 0 then device.phase == Receiving(command, []) else device.phase.Sending?
      modifies device`phase, device`disk
      ensures device.Valid() && (stalled <==> command.length < |data|)
      ensures command.length > 0 ==>
                (device.phase, device.disk)
                == AfterData(device.geometry, device.foreign, old(device.disk), command, data[..command.length])
      ensures command.length == 0 ==> device.disk == old(device.disk) && device.phase == old(device.phase)
    {
      var offset := 0;
      ghost var due: nat := command.length;
      stalled := false;
      assert data[..0] == [];
      while offset < |data|
        invariant 0 <= offset <= due && device.Valid()
        invariant offset < due ==> device.phase == Receiving(command, data[..offset]) && device.disk == old(device.disk)
        invariant offset == due > 0 ==>
                    (device.phase, device.disk)
                    == AfterData(device.geometry, device.foreign, old(device.disk), command, data[..due])
        invariant due == 0 ==> device.disk == old(device.disk) && device.phase == old(device.phase)
        decreases |data| - offset
      {
        var n := device.TakeData(data[offset..]);
        if n.None? || n.value == 0 {
          return true;
        }
        assert data[..offset] + data[offset..][..n.value] == data[..offset + n.value];
        offset := offset + n.value;
      }
    }

    method CommandInNative(block: seq<byte>, length: u32) returns (r: InResult)
      requires Valid() && 1 <= |block| <= 16
      modifies this, device`phase, device`disk
      ensures Valid() && commands == old(commands) + 1 && device.disk == old(device.disk)
      ensures r == InJudged(device.geometry, device.disk, device.foreign, TagOf(old(commands)), block, length)
    {
      var t := NextTag();
      ghost var reply := AnswerIn(device.geometry, device.disk, block, length);
      var ok := WriteCbw(t, length, true, block);
      var data, stalled := ReadDataNative(length, reply.data);
      if stalled {
        return Err(Stalled);
      }
      var error := ReadCsw(t, StatusFor(device.foreign, t, reply.status));
      return if error.Some? then Err(error.value) else Ok(data);
    }

    /** The WASM form: one transfer for the data, one for the status. */
    method CommandInWasm(block: seq<byte>, length: u32) returns (r: InResult)
      requires Valid() && 1 <= |block| <= 16
      modifies this, device`phase, device`disk
      ensures Valid() && commands == old(commands) + 1 && device.disk == old(device.disk)
      ensures r == InJudged(device.geometry, device.disk, device.foreign, TagOf(old(commands)), block, length)
    {
      var t := NextTag();
      ghost var reply := AnswerIn(device.geometry, device.disk, block, length);
      var ok := WriteCbw(t, length, true, block);
      var data := [];
      if length > 0 {
        var whole := device.SendWhole(length);
        if whole.None? {
          return Err(Stalled);
        }
        data := whole.value;
      }
      var error := ReadCswWasm(t, StatusFor(device.foreign, t, reply.status));
      return if error.Some? then Err(error.value) else Ok(data);
    }

    method ReadCswWasm(expectedTag: u32, ghost whole: seq<byte>) returns (error: Option<BotError>)
      requires device.Valid() && device.phase == Sending([], whole) && |whole| == 13
      modifies device`phase
      ensures device.Valid() && device.phase == Waiting
      ensures error == Verdict(whole, expectedTag)
    {
      var csw := device.SendWhole(13);
      if csw.None? {
        return Some(Stalled);
      }
      var e := ValidateCsw(csw.value, expectedTag);
      return if e.None? then None else Some(Csw(e.value));
    }

    /** The length field is the data length cut to 32 bits. Data that does not fit it is more than
        the device takes: the command fails with the device out of step. */
    method CommandOutNative(block: seq<byte>, data: Option<seq<byte>>) returns (r: OutResult)
      requires Valid() && 1 <= |block| <= 16
      modifies this, device`phase, device`disk
      ensures device.Valid() && Tagged() && commands == old(commands) + 1
      ensures device.disk
           == AnswerOut(device.geometry, old(device.disk), block, Announced(BytesOf(data))).disk
      ensures |BytesOf(data)| < TWO_TO_THE_32 ==>
                && Valid()
                && r == OutJudged(device.geometry, old(device.disk), device.foreign, TagOf(old(commands)), block, BytesOf(data))
      ensures |BytesOf(data)| >= TWO_TO_THE_32 ==> r == Err(Stalled) && device.phase.Sending?
    {
      var t := NextTag();
      var bytes := BytesOf(data);
      var length: u32 := |bytes| % TWO_TO_THE_32;
      ghost var reply := AnswerOut(device.geometry, device.disk, block, Announced(bytes));
      AnnouncedWhole(bytes);
      var ok := WriteCbw(t, length, false, block);
      if data.Some? && bytes != [] {
        var stalled := WriteDataNative(bytes, Cbw(t, length, false, block));
        if stalled {
          return Err(Stalled);
        }
      }
      var error := ReadCsw(t, StatusFor(device.foreign, t, reply.status));
      return if error.Some? then Err(error.value) else Ok(());
    }

    /** The WASM form submits the data as one transfer, also when it is empty. A slice of a 32-bit
        address space is shorter than 2^32 bytes. */
    method CommandOutWasm(block: seq<byte>, data: Option<seq<byte>>) returns (r: OutResult)
      requires Valid() && 1 <= |block| <= 16 && |BytesOf(data)| < TWO_TO_THE_32
      modifies this, device`phase, device`disk
      ensures device.Valid() && Tagged() && commands == old(commands) + 1
      ensures device.disk == AnswerOut(device.geometry, old(device.disk), block, BytesOf(data)).disk
      ensures data != Some([]) ==>
                && Valid()
                && r == OutJudged(device.geometry, old(device.disk), device.foreign, TagOf(old(commands)), block, BytesOf(data))
      ensures data == Some([]) ==> device.phase == Halted && r == Err(Stalled)
    {
      var t := NextTag();
      var length: u32 := |BytesOf(data)|;
      ghost var reply := AnswerOut(device.geometry, device.disk, block, BytesOf(data));
      var ok := WriteCbw(t, length, false, block);
      if data.Some? {
        ok := device.TakeWhole(data.value);
        if !ok {
          return Err(Stalled);
        }
      }
      var error := ReadCswWasm(t, StatusFor(device.foreign, t, reply.status));
      return if error.Some? then Err(error.value) else Ok(());
    }

    /** BulkTransport::command_in, on either target. */
    method CommandIn(block: seq<byte>, length: u32) returns (r: InResult)
      requires Valid() && 1 <= |block| <= 16
      modifies this, device`phase, device`disk
      ensures Valid() && commands == old(commands) + 1 && device.disk == old(device.disk)
      ensures r == InJudged(device.geometry, device.disk, device.foreign, TagOf(old(commands)), block, length)
      ensures device.foreign.None? ==> r == InOutcome(device.geometry, device.disk, block, length)
    {
      ConformingIn(device.geometry, device.disk, TagOf(commands), block, length);
      match kind {
        case Native => r := CommandInNative(block, length);
        case Wasm => r := CommandInWasm(block, length);
      }
    }

    /** BulkTransport::command_out, on either target. */
    method CommandOut(block: seq<byte>, data: Option<seq<byte>>) returns (r: OutResult)
      requires Valid() && 1 <= |block| <= 16 && Addressable(kind, BytesOf(data))
      modifies this, device`phase, device`disk
      ensures device.Valid() && Tagged() && commands == old(commands) + 1
      ensures device.disk == AnswerOut(device.geometry, old(device.disk), block, Announced(BytesOf(data))).disk
      ensures InStep(kind, data) ==>
                && Valid()
                && r == OutJudged(device.geometry, old(device.disk), device.foreign, TagOf(old(commands)), block, BytesOf(data))
                && (device.foreign.None? ==> r == OutOutcome(device.geometry, old(device.disk), block, BytesOf(data)))
      ensures !InStep(kind, data) ==> r == Err(Stalled) && device.phase != Waiting
    {
      ConformingOut(device.geometry, device.disk, TagOf(commands), block, BytesOf(data));
      AnnouncedWhole(BytesOf(data));
      match kind {
        case Native => r := CommandOutNative(block, data);
        case Wasm => r := CommandOutWasm(block, data);
      }
    }
  }

  /** The bytes a 32-bit length field announces. */
  function Announced(bytes: seq<byte>): seq<byte> {
    bytes[..|bytes| % TWO_TO_THE_32]
  }

  lemma AnnouncedWhole(bytes: seq<byte>)
    ensures |bytes| < TWO_TO_THE_32 ==> Announced(bytes) == bytes
  {}

  predicate Addressable(kind: Kind, bytes: seq<byte>) {
    kind.Wasm? ==> |bytes| < TWO_TO_THE_32
  }

  /** The OUT commands after which host and device are still in step. On the others the transports
      differ: the WASM one sends an empty data phase as an empty packet where the native loop sends
      nothing, and only the native one can be given more bytes than the length field holds. */
  predicate InStep(kind: Kind, data: Option<seq<byte>>) {
    match kind
    case Native => |BytesOf(data)| < TWO_TO_THE_32
    case Wasm => data != Some([])
  }

  function BytesOf(data: Option<seq<byte>>): seq<byte> {
    match data
    case None => []
    case Some(bytes) => bytes
  }
}
