/** Byte-granular reads over 512-byte-style blocks, and a window on one partition
    (benchmarks/usb-native/src/readlot.rs). */
module PartitionReader {
  import opened UsbBase
  import opened BlockDisk
  import opened BulkTransport

  // ----- block arithmetic -----

  /** Blocks touched by `len` bytes from `start`. */
  function Span(start: nat, len: nat, blockLen: nat): nat
    requires blockLen > 0 && len > 0
  {
    SpanPositive(start, len, blockLen);
    (start + len - 1) / blockLen - start / blockLen + 1
  }

  lemma DivBounds(x: nat, b: nat)
    requires b > 0
    ensures x / b * b <= x < x / b * b + b && x == x / b * b + x % b && 0 <= x % b < b
  {
    assert x == b * (x / b) + x % b;
  }

  lemma FewerThanOne(k: int, b: nat)
    requires b > 0 && k * b < b
    ensures k <= 0
  {
    assert k > 0 ==> k * b >= b;
  }

  lemma DivMonotone(x: nat, y: nat, b: nat)
    requires b > 0 && x <= y
    ensures x / b <= y / b
  {
    DivBounds(x, b);
    DivBounds(y, b);
    FewerThanOne(x / b - y / b, b);
  }

  lemma MulMonotone(x: nat, y: nat, b: nat)
    requires x <= y
    ensures x * b <= y * b
  {}

  lemma SpanPositive(start: nat, len: nat, blockLen: nat)
    requires blockLen > 0 && len > 0
    ensures start / blockLen <= (start + len - 1) / blockLen
  {
    DivMonotone(start, start + len - 1, blockLen);
  }

  /** The blocks of the span exist, their first fits 32 bits, and the bytes lie inside them. */
  lemma SpanOnDisk(g: Geometry, disk: seq<byte>, start: nat, len: nat)
    requires ValidDisk(g, disk) && len > 0 && start + len <= |disk|
    ensures var lba, span := start / g.blockSize, Span(start, len, g.blockSize);
            && lba < TWO_TO_THE_32 && lba + span <= g.numBlocks
            && lba * g.blockSize + start % g.blockSize == start
            && start % g.blockSize + len <= span * g.blockSize
            && (span - 1) * g.blockSize < start % g.blockSize + len
  {
    var b := g.blockSize;
    var lba, last := start / b, (start + len - 1) / b;
    SpanPositive(start, len, b);
    DivBounds(start, b);
    DivBounds(start + len - 1, b);
    if last >= g.numBlocks {
      MulMonotone(g.numBlocks, last, b);
      assert false;
    }
    assert (last - lba + 1) * b == last * b - lba * b + b;
    assert (last - lba) * b == last * b - lba * b;
  }

  // ----- the mass storage reader -----

  datatype ReadOutcome = Filled(n: nat) | UnexpectedEof | UsbFailure | Panic

  const TWO_TO_THE_16: int := 0x1_0000

  class UsbMassStorage {
    const transport: Transport
    const blockLength: u32
    const size: nat
    var seekPosition: nat

    constructor (transport: Transport, blockLength: u32, size: nat)
      ensures this.transport == transport && this.blockLength == blockLength && this.size == size
      ensures seekPosition == 0
    {
      this.transport, this.blockLength, this.size, seekPosition := transport, blockLength, size, 0;
    }

    /** The capacity is the device's. */
    ghost predicate Valid()
      reads this, transport, transport.device
    {
      && transport.Conforming()
      && blockLength == transport.device.geometry.blockSize
      && size == |transport.device.disk|
    }

    /** The length field is the buffer's length cut to 32 bits: a longer read asks the device for too
        little, and the device reports a phase error. */
    method Read10(lba: u32, count: u16) returns (r: Result<seq<byte>, BotError>)
      requires Valid()
      modifies transport, transport.device`phase, transport.device`disk
      ensures Valid() && transport.device.disk == old(transport.device.disk)
      ensures r.Ok? <==> InRange(transport.device.geometry, lba, count) && count * blockLength < TWO_TO_THE_32
      ensures r.Ok? ==> r.value == ReadRange(transport.device.geometry, transport.device.disk, lba, count)
    {
      var cdb := BlockCommand(0x28, lba, count);
      ReadAnswer(transport.device.geometry, transport.device.disk, lba, count, count * blockLength);
      r := transport.CommandIn(cdb, count * blockLength % TWO_TO_THE_32);
    }

    /** Read::read into the first `limit` bytes of `buf`. The block count is cut to 16 bits: a command
        for 4 GiB or more fails on the device, and a request that spans more than 65535 blocks panics
        in the copy behind it. */
    method ReadInto(buf: array<byte>, limit: nat) returns (r: ReadOutcome)
      requires Valid() && limit <= buf.Length
      modifies this, transport, transport.device`phase, transport.device`disk, buf
      ensures Valid() && transport.device.disk == old(transport.device.disk)
      ensures buf[limit..] == old(buf[limit..])
      ensures r == if limit == 0 then Filled(0)
                   else if old(seekPosition) + limit > size then UnexpectedEof
                   else ReadResult(old(seekPosition), limit, blockLength)
      ensures seekPosition == old(seekPosition) + if r.Filled? then limit else 0
      ensures limit > 0 && r.Filled? ==>
                buf[..limit] == transport.device.disk[old(seekPosition)..old(seekPosition) + limit]
    {
      if limit == 0 {
        return Filled(0);
      }
      var startAddr, endAddr := seekPosition, seekPosition + limit;
      if endAddr > size {
        return UnexpectedEof;
      }
      var blockAddr, blocksNeeded, offset, available := PlanRead(startAddr, limit);
      var data := Read10(blockAddr, blocksNeeded);
      if data.Err? {
        return UsbFailure;
      }
      if available < offset || available - offset < limit {
        return Panic;
      }
      CopyFrom(buf, data.value[offset..offset + limit]);
      seekPosition := seekPosition + limit;
      return Filled(limit);
    }

    /** The block command for a byte range, its count cut to 16 bits, and where in the bytes it
        brings back the range starts. */
    method PlanRead(startAddr: nat, len: nat)
      returns (blockAddr: u32, blocksNeeded: u16, offset: nat, available: nat)
      requires Valid() && len > 0 && startAddr + len <= size
      ensures InRange(transport.device.geometry, blockAddr, blocksNeeded)
      ensures available == blocksNeeded * blockLength
      ensures ReadResult(startAddr, len, blockLength) == PlanResult(available, offset, len)
      ensures offset + len <= available ==>
                ReadRange(transport.device.geometry, transport.device.disk, blockAddr, blocksNeeded)[offset..offset + len]
                == transport.device.disk[startAddr..startAddr + len]
    {
      AddressFits(transport.device.geometry, transport.device.disk, startAddr);
      blockAddr := startAddr / blockLength;
      blocksNeeded := Span(startAddr, len, blockLength) % TWO_TO_THE_16;
      offset := startAddr % blockLength;
      available := blocksNeeded * blockLength;
      ReadPlan(transport.device.geometry, transport.device.disk, startAddr, len, blockAddr, blocksNeeded, offset, available);
    }

    method SeekStart(offset: nat)
      modifies this
      ensures seekPosition == offset
    {
      seekPosition := offset;
    }
  }

  /** The end of UsbMassStorage::new: TEST UNIT READY, then the capacity, which here counts every
      block of the device. */
  method Open(transport: Transport) returns (r: Result<UsbMassStorage, BotError>)
    requires transport.Conforming()
    modifies transport, transport.device`phase, transport.device`disk
    ensures transport.device.disk == old(transport.device.disk)
    ensures r.Ok? && fresh(r.value) && r.value.Valid() && r.value.transport == transport && r.value.seekPosition == 0
  {
    ghost var g := transport.device.geometry;
    var ready := transport.CommandOut(TEST_UNIT_READY, None);
    match ready {
      case Err(e) => return Err(e);
      case Ok(_) =>
    }
    var data := transport.CommandIn(READ_CAPACITY_10, 8);
    CapacityDecodes(g);
    match data {
      case Err(e) => return Err(e);
      case Ok(bytes) =>
        var lastLba: nat := FromBe32(bytes[0..4]);
        var blockLength := FromBe32(bytes[4..8]);
        var storage := new UsbMassStorage(transport, blockLength, (lastLba + 1) * blockLength);
        return Ok(storage);
    }
  }

  lemma CapacityDecodes(g: Geometry)
    requires ValidGeometry(g)
    ensures var bytes := CapacityData(g);
            FromBe32(bytes[0..4]) == g.numBlocks - 1 && FromBe32(bytes[4..8]) == g.blockSize
  {
    Be32RoundTrip(g.numBlocks - 1);
    Be32RoundTrip(g.blockSize);
    assert CapacityData(g)[0..4] == Be32(g.numBlocks - 1);
    assert CapacityData(g)[4..8] == Be32(g.blockSize);
  }

  lemma ReadAnswer(g: Geometry, disk: seq<byte>, lba: u32, count: u16, n: nat)
    requires ValidDisk(g, disk) && n == count * g.blockSize
    ensures var r := InOutcome(g, disk, BlockCommand(0x28, lba, count), n % TWO_TO_THE_32);
            && (r.Ok? <==> InRange(g, lba, count) && n < TWO_TO_THE_32)
            && (r.Ok? ==> r.value == ReadRange(g, disk, lba, count))
  {
    BlockCommandRoundTrip(0x28, lba, count);
  }

  /** What reading `len` bytes that the device has comes to. */
  function ReadResult(start: nat, len: nat, blockLen: nat): ReadOutcome
    requires len > 0 && blockLen > 0
  {
    var span := Span(start, len, blockLen);
    if span % TWO_TO_THE_16 * blockLen >= TWO_TO_THE_32 then UsbFailure
    else if span > 0xFFFF then Panic
    else Filled(len)
  }

  /** The same, from what the plan fetches. */
  function PlanResult(available: nat, offset: nat, len: nat): ReadOutcome {
    if available >= TWO_TO_THE_32 then UsbFailure else if offset + len > available then Panic else Filled(len)
  }

  /** buf.copy_from_slice. */
  method CopyFrom(buf: array<byte>, source: seq<byte>)
    requires |source| <= buf.Length
    modifies buf
    ensures buf[..|source|] == source && buf[|source|..] == old(buf[|source|..])
  {
    forall i | 0 <= i < |source| { buf[i] := source[i]; }
  }

  lemma TruncatedSpanTooShort(span: nat, blockLen: nat, offset: nat, len: nat)
    requires blockLen > 0 && span > 0xFFFF && (span - 1) * blockLen < offset + len
    ensures span % TWO_TO_THE_16 * blockLen < offset + len
  {
    MulMonotone(span % TWO_TO_THE_16, span - 1, blockLen);
  }

  lemma SliceOfSlice<T>(s: seq<T>, a: nat, b: nat, i: nat, j: nat)
    requires a <= b <= |s| && i <= j <= b - a
    ensures s[a..b][i..j] == s[a + i..a + j]
  {
    var inner, outer := s[a..b][i..j], s[a + i..a + j];
    forall k | 0 <= k < j - i ensures inner[k] == outer[k] {}
  }

  lemma SliceOfBlocks(g: Geometry, disk: seq<byte>, lba: nat, count: nat, offset: nat, len: nat)
    requires ValidDisk(g, disk) && InRange(g, lba, count) && offset + len <= count * g.blockSize
    ensures lba * g.blockSize + offset + len <= |disk|
    ensures ReadRange(g, disk, lba, count)[offset..offset + len]
         == disk[lba * g.blockSize + offset..lba * g.blockSize + offset + len]
  {
    RangeInDisk(g, disk, lba, count);
    var a := lba * g.blockSize;
    SliceOfSlice(disk, a, a + count * g.blockSize, offset, offset + len);
  }

  /** What the block command for a byte range brings back: the range itself, or, when the block
      count is cut to 16 bits, too few bytes for it. */
  lemma ReadPlan(g: Geometry, disk: seq<byte>, start: nat, len: nat, lba: nat, count: nat, offset: nat, available: nat)
    requires ValidDisk(g, disk) && len > 0 && start + len <= |disk|
    requires lba == start / g.blockSize && count == Span(start, len, g.blockSize) % TWO_TO_THE_16
    requires offset == start % g.blockSize && available == count * g.blockSize
    ensures lba < TWO_TO_THE_32 && InRange(g, lba, count)
    ensures ReadResult(start, len, g.blockSize) == PlanResult(available, offset, len)
    ensures offset + len <= available ==> ReadRange(g, disk, lba, count)[offset..offset + len] == disk[start..start + len]
  {
    var span := Span(start, len, g.blockSize);
    SpanOnDisk(g, disk, start, len);
    if span <= 0xFFFF {
      SliceOfBlocks(g, disk, lba, span, offset, len);
    } else {
      TruncatedSpanTooShort(span, g.blockSize, offset, len);
    }
  }

  /** A start inside the capacity has a block address of 32 bits. */
  lemma AddressFits(g: Geometry, disk: seq<byte>, start: nat)
    requires ValidDisk(g, disk) && start < |disk|
    ensures 0 <= start / g.blockSize < TWO_TO_THE_32
  {
    SpanOnDisk(g, disk, start, 1);
  }

  // ----- the partition window -----

  class IoSlice {
    const inner: UsbMassStorage
    const start: nat
    const end: nat
    var position: nat

    ghost predicate Valid()
      reads this, inner, inner.transport, inner.transport.device
    {
      inner.Valid() && start < end && start <= position <= end
    }

    constructor (inner: UsbMassStorage, start: nat, end: nat)
      requires inner.Valid() && start < end
      ensures Valid() && this.inner == inner && this.start == start && this.end == end && position == start
    {
      this.inner, this.start, this.end, position := inner, start, end, start;
    }

    /** Read::read. */
    method Read(buf: array<byte>) returns (r: ReadOutcome)
      requires Valid()
      modifies this, inner, inner.transport, inner.transport.device`phase, inner.transport.device`disk, buf
      ensures Valid() && inner.transport.device.disk == old(inner.transport.device.disk)
      ensures var max := if buf.Length < end - old(position) then buf.Length else end - old(position);
              && r == (if max == 0 then Filled(0)
                       else if old(position) + max > inner.size then UnexpectedEof
                       else ReadResult(old(position), max, inner.blockLength))
              && position == old(position) + (if r.Filled? then max else 0)
              && (r.Filled? && max > 0 ==>
                    buf[..max] == inner.transport.device.disk[old(position)..old(position) + max])
    {
      if position >= end {
        return Filled(0);
      }
      var max := WindowBytes(position, end, buf.Length);
      inner.SeekStart(position);
      r := inner.ReadInto(buf, max);
      if r.Filled? {
        position := position + r.n;
      }
    }

    /** One read with a buffer of any size whose read spans at most 65535 blocks and less than
        4 GiB. */
    method ReadSome() returns (r: Option<seq<byte>>)
      requires Valid()
      modifies this, inner, inner.transport, inner.transport.device`phase, inner.transport.device`disk
      ensures Valid() && inner.transport.device.disk == old(inner.transport.device.disk)
      ensures old(position) == end ==> r == Some([])
      ensures old(position) < end ==>
                if r.None? then end > inner.size
                else
                  && old(position) < position <= inner.size
                  && r.value == inner.transport.device.disk[old(position)..position]
    {
      SomeSizeFits(position, end, inner.blockLength);
      var size: nat :| size > 0 && SpanFits(position, end, size, inner.blockLength);
      assert SpanFits(position, end, size, inner.blockLength);
      var buf := new byte[size];
      var outcome := Read(buf);
      match outcome {
        case Filled(n) => return Some(buf[..n]);
        case _ => return None;
      }
    }

    /** Seek::seek: an address outside the window is refused, and `start + offset` that overflows u64
        panics in a build with overflow checks. */
    method Seek(pos: SeekFrom, checked: bool) returns (r: SeekOutcome)
      requires Valid() && ValidSeek(pos) && end <= U64_MAX
      modifies this, inner
      ensures Valid() && r == SeekResult(start, end, old(position), pos, checked)
      ensures match pos
              case Start(offset) =>
                r == if checked && start + offset > 0xFFFF_FFFF_FFFF_FFFF then Overflowed
                     else if start + offset <= end then At(offset) else Refused
              case End(delta) => r == if delta == 0 || end == 0xFFFF_FFFF_FFFF_FFFF then At(end - start) else Refused
              case Current(delta) =>
                var asked := old(position) + delta;
                r == if start <= asked <= end then At(asked - start)
                     else if (asked < 0 && start == 0) || (asked > end == 0xFFFF_FFFF_FFFF_FFFF)
                     then At(if asked < 0 then 0 else end - start)
                     else Refused
      ensures r.At? ==> position == start + r.offset && inner.seekPosition == position
      ensures !r.At? ==> position == old(position) && inner.seekPosition == old(inner.seekPosition)
    {
      if checked && Overflows(start, pos) {
        return Overflowed;
      }
      var newPos := Target(start, end, position, pos);
      if newPos < start || newPos > end {
        return Refused;
      }
      position := newPos;
      inner.SeekStart(position);
      return At(position - start);
    }

    /** Reads until one returns 0: exactly the partition's bytes come out if the device holds
        them all, and the copy fails otherwise, however the reads are sized. */
    method CopyAll() returns (out: Option<seq<byte>>)
      requires Valid() && position == start
      modifies this, inner, inner.transport, inner.transport.device`phase, inner.transport.device`disk
      ensures Valid() && inner.transport.device.disk == old(inner.transport.device.disk)
      ensures out == if end <= inner.size then Some(inner.transport.device.disk[start..end]) else None
    {
      var copied: seq<byte> := [];
      ghost var disk := inner.transport.device.disk;
      while true
        invariant Valid() && inner.transport.device.disk == disk
        invariant position > start ==> position <= inner.size && copied == disk[start..position]
        invariant position == start ==> copied == []
        decreases end - position
      {
        ghost var before := position;
        var r := ReadSome();
        if r.None? {
          return None;
        }
        if r.value == [] {
          return Some(copied);
        }
        assert disk[start..position] == disk[start..before] + disk[before..position];
        copied := copied + r.value;
      }
    }
  }

  function WindowBytes(position: nat, end: nat, size: nat): nat {
    if position >= end then 0 else if end - position < size then end - position else size
  }

  /** A buffer of `size` bytes keeps the next read within 65535 blocks and 4 GiB. */
  predicate SpanFits(position: nat, end: nat, size: nat, blockLen: nat)
    requires blockLen > 0
  {
    var max := WindowBytes(position, end, size);
    max > 0 ==> ReadResult(position, max, blockLen) == Filled(max)
  }

  /** What such a buffer is. */
  lemma SpanFitsIff(position: nat, end: nat, size: nat, blockLen: nat)
    requires 0 < blockLen < TWO_TO_THE_32 && position <= end
    ensures var max := if size < end - position then size else end - position;
            SpanFits(position, end, size, blockLen) <==>
            max == 0 || (Span(position, max, blockLen) <= 0xFFFF
                         && Span(position, max, blockLen) * blockLen < 0x1_0000_0000)
  {
    var max := WindowBytes(position, end, size);
    if max > 0 && Span(position, max, blockLen) <= 0xFFFF {
      SpanPositive(position, max, blockLen);
      assert Span(position, max, blockLen) % TWO_TO_THE_16 == Span(position, max, blockLen);
    }
  }

  lemma SomeSizeFits(position: nat, end: nat, blockLen: nat)
    requires 0 < blockLen < TWO_TO_THE_32
    ensures SpanFits(position, end, 1, blockLen)
  {}

  // ----- seeking in the window -----

  const U64_MAX: nat := 0xFFFF_FFFF_FFFF_FFFF

  datatype SeekFrom = Start(offset: nat) | End(delta: int) | Current(delta: int)

  /** Offsets are u64 from the start and i64 otherwise. */
  predicate ValidSeek(pos: SeekFrom) {
    match pos
    case Start(offset) => offset <= U64_MAX
    case _ => -0x8000_0000_0000_0000 <= pos.delta < 0x8000_0000_0000_0000
  }

  datatype SeekOutcome = At(offset: nat) | Refused | Overflowed

  predicate Overflows(start: nat, pos: SeekFrom) {
    pos.Start? && start + pos.offset > U64_MAX
  }

  /** The address the code computes: a u64 sum, which wraps without overflow checks; a saturating
      sum with an offset from the end that `as u64` has made positive; a saturating signed sum. */
  function Target(start: nat, end: nat, position: nat, pos: SeekFrom): int {
    match pos
    case Start(offset) => (start + offset) % (U64_MAX + 1)
    case End(delta) =>
      var unsigned := if delta < 0 then delta + U64_MAX + 1 else delta;
      if end + unsigned > U64_MAX then U64_MAX else end + unsigned
    case Current(delta) =>
      if position + delta < 0 then 0 else if position + delta > U64_MAX then U64_MAX else position + delta
  }

  /** The address the offset asks for. */
  function Asked(start: nat, end: nat, position: nat, pos: SeekFrom): int {
    match pos
    case Start(offset) => start + offset
    case End(delta) => end + delta
    case Current(delta) => position + delta
  }

  /** An address in the window is met, any other refused. */
  function InWindow(start: nat, end: nat, address: int): SeekOutcome {
    if start <= address <= end then At(address - start) else Refused
  }

  /** What seek does, in a build with overflow checks or without. */
  function SeekResult(start: nat, end: nat, position: nat, pos: SeekFrom, checked: bool): SeekOutcome {
    if checked && Overflows(start, pos) then Overflowed
    else InWindow(start, end, Target(start, end, position, pos))
  }

  /** Seeking meets what the offset asks for, or refuses it, except in five families: backwards
      from the end every address inside the window is refused; backwards from the current position
      past address 0 a window that starts there is rewound; with overflow checks an offset from the
      start that takes the sum past u64 panics; and in a window that ends at the last u64 address the
      saturating sums land on that end, for every other offset from the end and for every offset from
      the current position that goes past it. Without checks the sum that wraps ends up in front of
      the window and is refused, as it should be. */
  lemma SeekMeetsRequestIff(start: nat, end: nat, position: nat, pos: SeekFrom, checked: bool)
    requires start <= position <= end <= U64_MAX && ValidSeek(pos)
    ensures SeekResult(start, end, position, pos, checked)
         == InWindow(start, end, Asked(start, end, position, pos))
       <==> && !(pos.End? && pos.delta < 0 && start <= end + pos.delta)
            && !(pos.Current? && position + pos.delta < 0 && start == 0)
            && !(checked && pos.Start? && start + pos.offset > 0xFFFF_FFFF_FFFF_FFFF)
            && !(end == 0xFFFF_FFFF_FFFF_FFFF && pos.End? && pos.delta != 0)
            && !(end == 0xFFFF_FFFF_FFFF_FFFF && pos.Current? && position + pos.delta > 0xFFFF_FFFF_FFFF_FFFF)
  {
    match pos {
      case Start(offset) =>
        if start + offset > U64_MAX {
          assert (start + offset) % (U64_MAX + 1) == start + offset - (U64_MAX + 1);
        }
      case End(delta) =>
      case Current(delta) =>
    }
  }

  /** One byte back from the end of a window is refused. */
  lemma BackFromEndRefused(checked: bool)
    ensures SeekResult(0, 100, 0, End(-1), checked) == Refused
    ensures InWindow(0, 100, Asked(0, 100, 0, End(-1))) == At(99)
  {}

  /** Eleven bytes back from position 10 rewinds a window that starts at address 0. */
  lemma BackPastZeroRewinds(checked: bool)
    ensures SeekResult(0, 100, 10, Current(-11), checked) == At(0)
    ensures InWindow(0, 100, Asked(0, 100, 10, Current(-11))) == Refused
  {}

  /** The largest offset in a window that starts at 1. */
  lemma LargestOffsetPanics()
    ensures SeekResult(1, 100, 1, Start(U64_MAX), true) == Overflowed
    ensures SeekResult(1, 100, 1, Start(U64_MAX), false) == Refused
  {}

  /** Five bytes past the end of a window up to the last u64 address lands on its end. */
  lemma PastLastAddressSaturates(checked: bool)
    ensures SeekResult(0, U64_MAX, 0, End(5), checked) == At(U64_MAX)
    ensures SeekResult(0, U64_MAX, U64_MAX, Current(5), checked) == At(U64_MAX)
    ensures InWindow(0, U64_MAX, Asked(0, U64_MAX, 0, End(5))) == Refused
    ensures InWindow(0, U64_MAX, Asked(0, U64_MAX, U64_MAX, Current(5))) == Refused
  {}
}
