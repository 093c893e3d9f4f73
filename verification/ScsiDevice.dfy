/** The SCSI layer (benchmarks/usb-bench-rs/src/mass_storage.rs) over either transport, and its
    refinement of a flat block array over any sequence of operations. */
module ScsiDevice {
  import opened UsbBase
  import opened BulkOnlyCodec
  import opened BlockDisk
  import opened BulkTransport

  type DiskResult = Result<seq<byte>, BotError>

  /** The flat view: a read of blocks that exist returns them, any other fails with status 1. */
  function FlatRead(g: Geometry, disk: seq<byte>, lba: nat, count: nat): DiskResult
    requires ValidDisk(g, disk)
  {
    if InRange(g, lba, count) then Ok(ReadRange(g, disk, lba, count)) else Err(Csw(CommandFailed(1)))
  }

  function FlatWrite(g: Geometry, disk: seq<byte>, lba: nat, count: nat, data: seq<byte>): (r: seq<byte>)
    requires ValidDisk(g, disk) && |data| == count * g.blockSize
    ensures ValidDisk(g, r)
  {
    if InRange(g, lba, count) then WriteRange(g, disk, lba, data, count) else disk
  }

  /** The number of blocks READ CAPACITY leaves the host with: one fewer than exist when the last
      block address is already the largest 32-bit value. */
  function ReportedBlocks(g: Geometry): nat {
    if g.numBlocks == TWO_TO_THE_32 then TWO_TO_THE_32 - 1 else g.numBlocks
  }

  datatype ScsiError = Transport(error: BotError) | WrongLength | BadCapacity

  class Scsi {
    const transport: Transport
    const blockSize: u32
    const numBlocks: u32
    const totalBytes: nat

    constructor (transport: Transport, blockSize: u32, numBlocks: u32)
      ensures this.transport == transport && this.blockSize == blockSize
      ensures this.numBlocks == numBlocks && totalBytes == numBlocks * blockSize
    {
      this.transport, this.blockSize, this.numBlocks := transport, blockSize, numBlocks;
      totalBytes := numBlocks * blockSize;
    }

    ghost predicate Valid()
      reads this, transport, transport.device
    {
      transport.Conforming() && blockSize == transport.device.geometry.blockSize
    }

    /** The length write_blocks asks for: a product of usize, which is 32 bits wide on wasm. */
    function Expected(count: u16): nat {
      UsizeLength(transport.kind, count * blockSize)
    }

    /** The length is a product of u32, which wraps in the release build. A read whose length
        does not fit asks the device for too little, and the device reports a phase error. */
    method ReadBlocks(lba: u32, count: u16) returns (r: Result<seq<byte>, ScsiError>)
      requires Valid()
      modifies transport, transport.device`phase, transport.device`disk
      ensures Valid() && transport.device.disk == old(transport.device.disk)
      ensures r == ReadReply(transport.device.geometry, transport.device.disk, lba, count)
    {
      var transferLength: u32 := count * blockSize % TWO_TO_THE_32;
      var cdb := BlockCommand(0x28, lba, count);
      ReadOutcome(transport.device.geometry, transport.device.disk, lba, count, count * blockSize);
      var data := transport.CommandIn(cdb, transferLength);
      match data {
        case Ok(bytes) => return Ok(bytes);
        case Err(e) => return Err(ScsiError.Transport(e));
      }
    }

    /** Data of the right length is written if the blocks exist and the length fits. Otherwise the
        disk is unchanged, and the host can go on unless it sent an empty data phase on wasm, or
        4 GiB or more natively. */
    method WriteBlocks(lba: u32, count: u16, data: seq<byte>) returns (r: Result<(), ScsiError>)
      requires Valid() && Addressable(transport.kind, data)
      modifies transport, transport.device`phase, transport.device`disk
      ensures transport.device.Valid()
      ensures InStep(transport.kind, Some(data)) || |data| != Expected(count) ==> Valid()
      ensures transport.device.disk == AfterWrite(transport.device.geometry, old(transport.device.disk), lba, count, data)
      ensures r == if |data| != Expected(count) then Err(WrongLength)
                   else if !InStep(transport.kind, Some(data)) then Err(ScsiError.Transport(Stalled))
                   else WriteReply(transport.device.geometry, lba, count)
    {
      var expected := Expected(count);
      ExpectedUnlessWritten(transport.device.geometry, transport.device.disk, transport.kind, lba, count, expected, data);
      if |data| != expected {
        return Err(WrongLength);
      }
      var cdb := BlockCommand(0x2A, lba, count);
      WriteOutcome(transport.device.geometry, transport.device.disk, transport.kind, lba, count,
                   count * blockSize, data);
      var written := transport.CommandOut(cdb, Some(data));
      match written {
        case Ok(_) => return Ok(());
        case Err(e) => return Err(ScsiError.Transport(e));
      }
    }

    /** Read, then write the same bytes back: the disk is never changed. */
    method ReadWriteBlocks(lba: u32, count: u16) returns (r: Result<seq<byte>, ScsiError>)
      requires Valid()
      modifies transport, transport.device`phase, transport.device`disk
      ensures transport.device.Valid() && transport.device.disk == old(transport.device.disk)
      ensures transport.kind.Native? || count > 0 ==>
                Valid() && r == ReadReply(transport.device.geometry, transport.device.disk, lba, count)
      ensures transport.kind.Wasm? && count == 0 ==> r.Err?
    {
      var data := ReadBlocks(lba, count);
      if data.Err? {
        return data;
      }
      WriteBackIsIdentity(transport.device.geometry, transport.device.disk, lba, count);
      ProductPositive(count, blockSize);
      var written := WriteBlocks(lba, count, data.value);
      match written {
        case Err(e) => return Err(e);
        case Ok(_) => return data;
      }
    }
  }

  function ReadReply(g: Geometry, disk: seq<byte>, lba: nat, count: nat): (r: Result<seq<byte>, ScsiError>)
    requires ValidDisk(g, disk)
    ensures r.Err? ==> r.error.Transport?
  {
    match FlatRead(g, disk, lba, count)
    case Err(e) => Err(ScsiError.Transport(e))
    case Ok(data) =>
      if |data| < TWO_TO_THE_32 then Ok(data) else Err(ScsiError.Transport(Csw(CommandFailed(2))))
  }

  function WriteReply(g: Geometry, lba: nat, count: nat): (r: Result<(), ScsiError>)
    ensures r.Err? ==> r.error.Transport?
  {
    if !InRange(g, lba, count) then Err(ScsiError.Transport(Csw(CommandFailed(1))))
    else if count * g.blockSize < TWO_TO_THE_32 then Ok(())
    else Err(ScsiError.Transport(Csw(CommandFailed(2))))
  }

  /** What the device does with a WRITE (10). */
  lemma WriteAnswer(g: Geometry, disk: seq<byte>, lba: u32, count: u16, data: seq<byte>)
    requires ValidDisk(g, disk)
    ensures var answer := AnswerOut(g, disk, BlockCommand(0x2A, lba, count), data);
            if |data| == count * g.blockSize
            then answer == OutReply(FlatWrite(g, disk, lba, count, data), if InRange(g, lba, count) then GOOD else FAILED)
            else answer == OutReply(disk, if InRange(g, lba, count) then PHASE_ERROR else FAILED)
  {
    BlockCommandRoundTrip(0x2A, lba, count);
  }

  /** The disk after a write is asked for: only all the blocks' bytes, if their length fits, are written. */
  function AfterWrite(g: Geometry, disk: seq<byte>, lba: nat, count: nat, data: seq<byte>): (r: seq<byte>)
    requires ValidDisk(g, disk)
    ensures ValidDisk(g, r)
  {
    if |data| == count * g.blockSize && |data| < TWO_TO_THE_32 then FlatWrite(g, disk, lba, count, data) else disk
  }

  /** A product of usize: 32 bits wide on wasm. */
  function UsizeLength(kind: Kind, n: nat): nat {
    if kind.Native? then n else n % TWO_TO_THE_32
  }

  lemma ExpectedUnlessWritten(g: Geometry, disk: seq<byte>, kind: Kind, lba: u32, count: u16, expected: nat,
                              data: seq<byte>)
    requires ValidDisk(g, disk) && expected == UsizeLength(kind, count * g.blockSize)
    ensures |data| != expected ==> AfterWrite(g, disk, lba, count, data) == disk
  {}

  lemma ReadOutcome(g: Geometry, disk: seq<byte>, lba: u32, count: u16, n: nat)
    requires ValidDisk(g, disk) && n == count * g.blockSize
    ensures InOutcome(g, disk, BlockCommand(0x28, lba, count), n % TWO_TO_THE_32)
         == match ReadReply(g, disk, lba, count) case Ok(data) => Ok(data) case Err(e) => Err(e.error)
  {
    BlockCommandRoundTrip(0x28, lba, count);
  }

  /** A write of the length the code asks for, `n` being the bytes of the blocks. */
  lemma WriteOutcome(g: Geometry, disk: seq<byte>, kind: Kind, lba: u32, count: u16, n: nat, data: seq<byte>)
    requires ValidDisk(g, disk) && n == count * g.blockSize && |data| == UsizeLength(kind, n)
    ensures var block := BlockCommand(0x2A, lba, count);
            && AnswerOut(g, disk, block, Announced(data)).disk == AfterWrite(g, disk, lba, count, data)
            && (InStep(kind, Some(data)) ==>
                  OutOutcome(g, disk, block, data)
                  == match WriteReply(g, lba, count) case Ok(_) => Ok(()) case Err(e) => Err(e.error))
  {
    WriteAnswer(g, disk, lba, count, Announced(data));
    WriteAnswer(g, disk, lba, count, data);
    AnnouncedWhole(data);
  }

  lemma ProductPositive(a: nat, b: nat)
    requires b > 0
    ensures a * b == 0 <==> a == 0
  {
    if a > 0 { assert a * b >= b; }
  }

  /** ScsiDevice::new: TEST UNIT READY, whose failure is ignored, then READ CAPACITY (10). */
  method Open(transport: Transport) returns (r: Result<Scsi, ScsiError>)
    requires transport.Conforming()
    modifies transport, transport.device`phase, transport.device`disk
    ensures transport.Conforming() && transport.device.disk == old(transport.device.disk)
    ensures r.Ok? && fresh(r.value) && r.value.transport == transport && r.value.Valid()
    ensures r.value.numBlocks == ReportedBlocks(transport.device.geometry)
    ensures r.value.totalBytes <= |transport.device.disk|
    ensures r.value.totalBytes == |transport.device.disk| <==> transport.device.geometry.numBlocks < TWO_TO_THE_32
  {
    var ready := transport.CommandOut(TEST_UNIT_READY, None);
    ghost var g := transport.device.geometry;
    var data := transport.CommandIn(READ_CAPACITY_10, 8);
    assert data == Ok(CapacityData(g));
    match data {
      case Err(e) => return Err(ScsiError.Transport(e));
      case Ok(_) =>
    }
    if |data.value| < 8 {
      return Err(BadCapacity);
    }
    var lastLba, blockSize := FromBe32(data.value[0..4]), FromBe32(data.value[4..8]);
    assert data.value[0..4] == Be32(g.numBlocks - 1) && data.value[4..8] == Be32(g.blockSize);
    Be32RoundTrip(g.numBlocks - 1);
    Be32RoundTrip(g.blockSize);
    if blockSize == 0 {
      return Err(BadCapacity);
    }
    var numBlocks: u32 := if lastLba == TWO_TO_THE_32 - 1 then lastLba else lastLba + 1;
    CapacityBytes(g, transport.device.disk);
    var scsi := new Scsi(transport, blockSize, numBlocks);
    return Ok(scsi);
  }

  lemma CapacityBytes(g: Geometry, disk: seq<byte>)
    requires ValidDisk(g, disk)
    ensures ReportedBlocks(g) * g.blockSize <= |disk|
    ensures ReportedBlocks(g) * g.blockSize == |disk| <==> g.numBlocks < TWO_TO_THE_32
  {
    if g.numBlocks == TWO_TO_THE_32 {
      assert |disk| == ReportedBlocks(g) * g.blockSize + g.blockSize;
    }
  }

  // ----- any sequence of operations -----

  datatype Op = ReadOp(lba: u32, count: u16) | WriteOp(lba: u32, count: u16, data: seq<byte>)

  datatype Reply = Data(data: seq<byte>) | Done | Failed

  /** One operation on the flat array; more than the length field can hold is refused. */
  function FlatStep(g: Geometry, disk: seq<byte>, op: Op): (r: (seq<byte>, Reply))
    requires ValidDisk(g, disk)
    ensures ValidDisk(g, r.0)
  {
    var usable := InRange(g, op.lba, op.count) && op.count * g.blockSize < TWO_TO_THE_32;
    match op
    case ReadOp(lba, count) => (disk, if usable then Data(ReadRange(g, disk, lba, count)) else Failed)
    case WriteOp(lba, count, data) =>
      if usable && |data| == count * g.blockSize then (WriteRange(g, disk, lba, data, count), Done)
      else (disk, Failed)
  }

  /** A write after which host and device are out of step: an empty one on wasm, one of 4 GiB or more
      natively. */
  predicate Halts(g: Geometry, kind: Kind, op: Op) {
    && op.WriteOp? && !InStep(kind, Some(op.data))
    && |op.data| == UsizeLength(kind, op.count * g.blockSize)
  }

  function FlatRun(g: Geometry, disk: seq<byte>, ops: seq<Op>): (r: (seq<byte>, seq<Reply>))
    requires ValidDisk(g, disk)
    ensures ValidDisk(g, r.0)
  {
    if ops == [] then (disk, [])
    else
      var before := FlatRun(g, disk, ops[..|ops| - 1]);
      var last := FlatStep(g, before.0, ops[|ops| - 1]);
      (last.0, before.1 + [last.1])
  }

  /** A write, as the layer performs it, against the flat array. */
  lemma WriteStep(g: Geometry, kind: Kind, disk: seq<byte>, op: Op, n: nat)
    requires ValidDisk(g, disk) && op.WriteOp? && n == op.count * g.blockSize
    ensures var after := AfterWrite(g, disk, op.lba, op.count, op.data);
            var done := |op.data| == UsizeLength(kind, n) && WriteReply(g, op.lba, op.count).Ok?;
            && (!Halts(g, kind, op) ==> FlatStep(g, disk, op) == (after, if done then Done else Failed))
            && (Halts(g, kind, op) ==> after == disk)
  {
    if Halts(g, kind, op) && |op.data| == n && n < TWO_TO_THE_32 && InRange(g, op.lba, op.count) {
      ProductPositive(op.count, g.blockSize);
      RangeInDisk(g, disk, op.lba, op.count);
    }
  }

  /** One operation; `halted` when host and device are out of step after it. */
  method Perform(scsi: Scsi, op: Op) returns (reply: Reply, halted: bool)
    requires scsi.Valid() && (op.WriteOp? ==> Addressable(scsi.transport.kind, op.data))
    modifies scsi.transport, scsi.transport.device`phase, scsi.transport.device`disk
    ensures scsi.transport.device.Valid()
    ensures halted <==> Halts(scsi.transport.device.geometry, scsi.transport.kind, op)
    ensures !halted ==>
              && scsi.Valid()
              && (scsi.transport.device.disk, reply)
                 == FlatStep(scsi.transport.device.geometry, old(scsi.transport.device.disk), op)
    ensures halted ==> reply == Failed && scsi.transport.device.disk == old(scsi.transport.device.disk)
  {
    match op {
      case ReadOp(lba, count) =>
        var r := scsi.ReadBlocks(lba, count);
        return if r.Ok? then Data(r.value) else Failed, false;
      case WriteOp(lba, count, data) =>
        WriteStep(scsi.transport.device.geometry, scsi.transport.kind, scsi.transport.device.disk, op,
                  count * scsi.blockSize);
        var outOfStep := |data| == scsi.Expected(count) && !InStep(scsi.transport.kind, Some(data));
        var r := scsi.WriteBlocks(lba, count, data);
        return if r.Ok? then Done else Failed, outOfStep;
    }
  }

  /** Either transport, however the device splits its data, gives the replies and leaves the disk
      of the flat array, up to the first write that leaves host and device out of step; that write
      fails and leaves the disk alone. */
  method Session(scsi: Scsi, ops: seq<Op>) returns (replies: seq<Reply>, ghost done: nat)
    requires scsi.Valid()
    requires forall k :: 0 <= k < |ops| && ops[k].WriteOp? ==> Addressable(scsi.transport.kind, ops[k].data)
    modifies scsi.transport, scsi.transport.device`phase, scsi.transport.device`disk
    ensures done <= |ops| && scsi.transport.device.Valid()
    ensures forall k :: 0 <= k < done ==> !Halts(scsi.transport.device.geometry, scsi.transport.kind, ops[k])
    ensures var flat := FlatRun(scsi.transport.device.geometry, old(scsi.transport.device.disk), ops[..done]);
            && scsi.transport.device.disk == flat.0
            && replies == flat.1 + if done < |ops| then [Failed] else []
    ensures if done < |ops| then Halts(scsi.transport.device.geometry, scsi.transport.kind, ops[done]) else scsi.Valid()
  {
    replies, done := [], 0;
    var k := 0;
    while k < |ops|
      invariant 0 <= k <= |ops| && done == k && scsi.Valid()
      invariant forall i :: 0 <= i < k ==> !Halts(scsi.transport.device.geometry, scsi.transport.kind, ops[i])
      invariant (scsi.transport.device.disk, replies)
             == FlatRun(scsi.transport.device.geometry, old(scsi.transport.device.disk), ops[..k])
    {
      assert ops[..k + 1][..k] == ops[..k];
      var reply, halted := Perform(scsi, ops[k]);
      replies := replies + [reply];
      if halted {
        return;
      }
      k := k + 1;
      done := k;
    }
    assert ops[..k] == ops;
  }

  /** The write the flat array accepts. */
  predicate Accepts(g: Geometry, op: Op) {
    && op.WriteOp? && InRange(g, op.lba, op.count)
    && |op.data| == op.count * g.blockSize && op.count * g.blockSize < TWO_TO_THE_32
  }

  /** Byte `x` after a run: what the last write covering it put there, else what it was. */
  function ByteAfter(g: Geometry, disk: seq<byte>, ops: seq<Op>, x: nat): byte
    requires ValidDisk(g, disk) && x < |disk|
  {
    if ops == [] then disk[x]
    else
      var op := ops[|ops| - 1];
      if Accepts(g, op) && op.lba * g.blockSize <= x < op.lba * g.blockSize + |op.data|
      then op.data[x - op.lba * g.blockSize]
      else ByteAfter(g, disk, ops[..|ops| - 1], x)
  }

  /** Every byte read or left on the disk is the latest one written there. */
  lemma {:induction false} LastWriteWins(g: Geometry, disk: seq<byte>, ops: seq<Op>, x: nat)
    requires ValidDisk(g, disk) && x < |disk|
    ensures FlatRun(g, disk, ops).0[x] == ByteAfter(g, disk, ops, x)
  {
    if ops == [] {
    } else {
      LastWriteWins(g, disk, ops[..|ops| - 1], x);
      var before := FlatRun(g, disk, ops[..|ops| - 1]).0;
      var op := ops[|ops| - 1];
      if Accepts(g, op) {
        WriteRangeAt(g, before, op.lba, op.data, op.count, x);
      }
    }
  }

  lemma ReadReturnsLastWrites(g: Geometry, disk: seq<byte>, ops: seq<Op>, lba: u32, count: u16, i: nat)
    requires ValidDisk(g, disk)
    ensures var reply := FlatStep(g, FlatRun(g, disk, ops).0, ReadOp(lba, count)).1;
            && (reply.Data? <==> InRange(g, lba, count) && count * g.blockSize < TWO_TO_THE_32)
            && (reply.Data? ==> |reply.data| == count * g.blockSize)
            && (reply.Data? && i < |reply.data| ==>
                  && lba * g.blockSize + i < |disk|
                  && reply.data[i] == ByteAfter(g, disk, ops, lba * g.blockSize + i))
  {
    if InRange(g, lba, count) && i < count * g.blockSize {
      RangeInDisk(g, disk, lba, count);
      LastWriteWins(g, disk, ops, lba * g.blockSize + i);
    }
  }
}
