/** A disk as a flat byte array, and the SCSI commands the code sends to it. */
module BlockDisk {
  import opened UsbBase
  import opened BulkOnlyCodec

  datatype Geometry = Geometry(blockSize: nat, numBlocks: nat)

  /** What READ CAPACITY (10) can report: a last block address and a block size in 32 bits. */
  predicate ValidGeometry(g: Geometry) {
    0 < g.blockSize < TWO_TO_THE_32 && 0 < g.numBlocks <= TWO_TO_THE_32
  }

  predicate ValidDisk(g: Geometry, disk: seq<byte>) {
    ValidGeometry(g) && |disk| == g.numBlocks * g.blockSize
  }

  predicate InRange(g: Geometry, lba: nat, count: nat) {
    lba + count <= g.numBlocks
  }

  lemma RangeInDisk(g: Geometry, disk: seq<byte>, lba: nat, count: nat)
    requires ValidDisk(g, disk) && InRange(g, lba, count)
    ensures 0 <= lba * g.blockSize <= lba * g.blockSize + count * g.blockSize <= |disk|
  {
    assert (lba + count) * g.blockSize <= g.numBlocks * g.blockSize;
    assert (lba + count) * g.blockSize == lba * g.blockSize + count * g.blockSize;
  }

  function ReadRange(g: Geometry, disk: seq<byte>, lba: nat, count: nat): (r: seq<byte>)
    requires ValidDisk(g, disk) && InRange(g, lba, count)
    ensures |r| == count * g.blockSize
  {
    RangeInDisk(g, disk, lba, count);
    disk[lba * g.blockSize..lba * g.blockSize + count * g.blockSize]
  }

  function WriteRange(g: Geometry, disk: seq<byte>, lba: nat, data: seq<byte>, count: nat): (r: seq<byte>)
    requires ValidDisk(g, disk) && InRange(g, lba, count) && |data| == count * g.blockSize
    ensures |r| == |disk|
  {
    RangeInDisk(g, disk, lba, count);
    disk[..lba * g.blockSize] + data + disk[lba * g.blockSize + count * g.blockSize..]
  }

  /** A write changes exactly the bytes of its blocks. */
  lemma WriteRangeAt(g: Geometry, disk: seq<byte>, lba: nat, data: seq<byte>, count: nat, x: nat)
    requires ValidDisk(g, disk) && InRange(g, lba, count) && |data| == count * g.blockSize && x < |disk|
    ensures WriteRange(g, disk, lba, data, count)[x]
         == if lba * g.blockSize <= x < lba * g.blockSize + |data| then data[x - lba * g.blockSize] else disk[x]
  {
    RangeInDisk(g, disk, lba, count);
  }

  /** Writing back what was read changes nothing. */
  lemma WriteBackIsIdentity(g: Geometry, disk: seq<byte>, lba: nat, count: nat)
    requires ValidDisk(g, disk) && InRange(g, lba, count)
    ensures WriteRange(g, disk, lba, ReadRange(g, disk, lba, count), count) == disk
  {
    RangeInDisk(g, disk, lba, count);
  }

  // ----- command blocks -----

  const TEST_UNIT_READY: seq<byte> := [0, 0, 0, 0, 0, 0]
  const READ_CAPACITY_10: seq<byte> := [0x25, 0, 0, 0, 0, 0, 0, 0, 0, 0]

  /** READ (10) and WRITE (10). */
  function BlockCommand(opcode: byte, lba: u32, count: u16): (cb: seq<byte>)
    ensures |cb| == 10
  {
    [opcode, 0] + Be32(lba) + [0] + Be16(count) + [0]
  }

  datatype Command = Ready | Capacity | Read(lba: nat, count: nat) | Write(lba: nat, count: nat) | Unknown

  function ParseCommand(cb: seq<byte>): Command {
    if cb == [0, 0, 0, 0, 0, 0] then Ready
    else if cb == [0x25, 0, 0, 0, 0, 0, 0, 0, 0, 0] then Capacity
    else if |cb| == 10 && cb[0] == 0x28 then Read(FromBe32(cb[2..6]), FromBe16(cb[7..9]))
    else if |cb| == 10 && cb[0] == 0x2A then Write(FromBe32(cb[2..6]), FromBe16(cb[7..9]))
    else Unknown
  }

  lemma BlockCommandRoundTrip(opcode: byte, lba: u32, count: u16)
    requires opcode == 0x28 || opcode == 0x2A
    ensures ParseCommand(BlockCommand(opcode, lba, count))
         == if opcode == 0x28 then Read(lba, count) else Write(lba, count)
    ensures var cb := BlockCommand(opcode, lba, count);
            && cb[0] == opcode && cb[1] == 0 && cb[6] == 0 && cb[9] == 0
            && lba as int == 0x100_0000 * cb[2] as int + 0x1_0000 * cb[3] as int + 0x100 * cb[4] as int + cb[5] as int
            && count as int == 0x100 * cb[7] as int + cb[8] as int
  {
    var cb := BlockCommand(opcode, lba, count);
    assert cb[2..6] == Be32(lba);
    assert cb[7..9] == Be16(count);
    Be32RoundTrip(lba);
    Be16RoundTrip(count);
  }

  // ----- a conforming device's answers -----

  const GOOD: byte := 0
  const FAILED: byte := 1
  const PHASE_ERROR: byte := 2

  datatype InReply = InReply(data: seq<byte>, status: byte)

  function CapacityData(g: Geometry): (r: seq<byte>)
    requires ValidGeometry(g)
    ensures |r| == 8
  {
    Be32(g.numBlocks - 1) + Be32(g.blockSize)
  }

  /** The data phase a device with data for the host intends to send. */
  function Intended(g: Geometry, disk: seq<byte>, cb: seq<byte>): Option<seq<byte>>
    requires ValidDisk(g, disk)
  {
    match ParseCommand(cb)
    case Capacity => Some(CapacityData(g))
    case Read(lba, count) => if InRange(g, lba, count) then Some(ReadRange(g, disk, lba, count)) else None
    case _ => None
  }

  /** Data IN: the device always sends the length the host asked for, padded when the command
      fails, and says in the status whether the data counts (cases of section 6.7). */
  function AnswerIn(g: Geometry, disk: seq<byte>, cb: seq<byte>, length: nat): (r: InReply)
    requires ValidDisk(g, disk)
    ensures |r.data| == length
  {
    var intended := Intended(g, disk, cb);
    if intended.None? then InReply(Zeros(length), FAILED)
    else if |intended.value| != length then InReply(Zeros(length), PHASE_ERROR)
    else InReply(intended.value, GOOD)
  }

  datatype OutReply = OutReply(disk: seq<byte>, status: byte)

  /** Data OUT or no data: the device takes all the host sends, then answers. */
  function AnswerOut(g: Geometry, disk: seq<byte>, cb: seq<byte>, data: seq<byte>): (r: OutReply)
    requires ValidDisk(g, disk)
    ensures ValidDisk(g, r.disk)
  {
    match ParseCommand(cb)
    case Ready => OutReply(disk, if data == [] then GOOD else PHASE_ERROR)
    case Write(lba, count) =>
      if !InRange(g, lba, count) then OutReply(disk, FAILED)
      else if |data| != count * g.blockSize then OutReply(disk, PHASE_ERROR)
      else OutReply(WriteRange(g, disk, lba, data, count), GOOD)
    case _ => OutReply(disk, FAILED)
  }
}
