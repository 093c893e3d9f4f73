/** Isochronous transfers as one flat buffer: the host cuts the buffer into packet slots
    (usb-wasi-host/src/main.rs, new_transfer), libusb fills the slots, the callback returns the
    buffer whole, and the guest cuts it again at a fixed stride
    (usb-wasi-guest/examples/webcam/src/webcam.rs). */
module IsoFlatBuffer {
  import opened UsbBase
  import opened TransferLifecycle

  // ----- the host's split -----

  /** Where libusb places packet `i`: after the slots before it. */
  function SlotStart(bufLen: nat, count: nat, i: nat): nat
    requires i <= count
  {
    if i == 0 then 0 else SlotStart(bufLen, count, i - 1) + SlotLength(bufLen, count, i - 1)
  }

  lemma {:induction false} SlotStartIsMultiple(bufLen: nat, count: nat, i: nat)
    requires i < count
    ensures SlotStart(bufLen, count, i) == i * (bufLen / count)
  {
    if i == 0 {
    } else {
      SlotStartIsMultiple(bufLen, count, i - 1);
      assert i * (bufLen / count) == (i - 1) * (bufLen / count) + bufLen / count;
    }
  }

  /** The slots cover the buffer exactly. */
  lemma SlotsCoverBuffer(bufLen: nat, count: nat)
    requires count > 0
    ensures SlotStart(bufLen, count, count) == bufLen
  {
    SlotStartIsMultiple(bufLen, count, count - 1);
    var base := bufLen / count;
    assert count * base == (count - 1) * base + base;
    assert bufLen == count * base + bufLen % count;
  }

  /** The loop of new_transfer that fills the packet descriptors. */
  method ConfigurePackets(bufLen: nat, descriptors: array<nat>)
    requires descriptors.Length > 0
    modifies descriptors
    ensures forall i :: 0 <= i < descriptors.Length ==>
              descriptors[i] == SlotLength(bufLen, descriptors.Length, i)
    ensures Sum(descriptors[..]) == bufLen
  {
    var count := descriptors.Length;
    var baseLen := bufLen / count;
    var rem := bufLen % count;
    var i := 0;
    while i < count
      invariant 0 <= i <= count
      invariant forall k :: 0 <= k < i ==> descriptors[k] == SlotLength(bufLen, count, k)
    {
      descriptors[i] := if i == count - 1 then baseLen + rem else baseLen;
      i := i + 1;
    }
    SumOfSlots(bufLen, count, descriptors[..]);
  }

  function Sum(s: seq<nat>): nat {
    if s == [] then 0 else Sum(s[..|s| - 1]) + s[|s| - 1]
  }

  lemma {:induction false} SumIsSlotStart(bufLen: nat, count: nat, s: seq<nat>)
    requires |s| <= count
    requires forall i :: 0 <= i < |s| ==> s[i] == SlotLength(bufLen, count, i)
    ensures Sum(s) == SlotStart(bufLen, count, |s|)
  {
    if s == [] {
    } else {
      SumIsSlotStart(bufLen, count, s[..|s| - 1]);
    }
  }

  lemma SumOfSlots(bufLen: nat, count: nat, s: seq<nat>)
    requires |s| == count > 0
    requires forall i :: 0 <= i < |s| ==> s[i] == SlotLength(bufLen, count, i)
    ensures Sum(s) == bufLen
  {
    SumIsSlotStart(bufLen, count, s);
    SlotsCoverBuffer(bufLen, count);
  }

  // ----- what a completed transfer holds -----

  /** Every received packet lies at the start of its slot. */
  ghost predicate Arranged(buffer: seq<byte>, received: seq<seq<byte>>) {
    var count := |received|;
    && count > 0
    && forall i :: 0 <= i < count ==> PacketInSlot(buffer, received, i)
  }

  predicate PacketInSlot(buffer: seq<byte>, received: seq<seq<byte>>, i: nat)
    requires i < |received|
  {
    var start := SlotStart(|buffer|, |received|, i);
    && |received[i]| <= SlotLength(|buffer|, |received|, i)
    && start + |received[i]| <= |buffer|
    && buffer[start..start + |received[i]|] == received[i]
  }

  // ----- the guest's cut -----

  /** One iteration of the guest's packet loop: an empty packet is skipped, a slice that would
      start behind the end of the data panics. */
  datatype Slice = Skipped | Bytes(bytes: seq<byte>) | OutOfBounds

  function Min(a: int, b: int): int {
    if a <= b then a else b
  }

  function GuestSlice(data: seq<byte>, stride: nat, i: nat, actualLength: nat): Slice {
    if actualLength == 0 then Skipped
    else
      var offset := i * stride;
      var end := Min(offset + Min(actualLength, stride), |data|);
      if offset <= end then Bytes(data[offset..end]) else OutOfBounds
  }

  /** The loop panics exactly when a packet that received something starts behind the end of the data. */
  lemma SlicePanicsIff(data: seq<byte>, stride: nat, i: nat, actualLength: nat)
    ensures GuestSlice(data, stride, i, actualLength) == OutOfBounds <==> actualLength > 0 && i * stride > |data|
    ensures GuestSlice(data, stride, i, actualLength) == Skipped <==> actualLength == 0
  {
    assert i * stride >= 0;
  }

  predicate SliceIsPacket(data: seq<byte>, stride: nat, received: seq<seq<byte>>, i: nat)
    requires i < |received|
  {
    GuestSlice(data, stride, i, |received[i]|) == if received[i] == [] then Skipped else Bytes(received[i])
  }

  /** With `count * stride` bytes, slot `i` starts at `i * stride`, every guest slice is in
      bounds, and slice `i` is exactly packet `i`. */
  lemma SlicesAreExact(buffer: seq<byte>, stride: nat, received: seq<seq<byte>>, i: nat)
    requires Arranged(buffer, received) && |buffer| == |received| * stride && i < |received|
    ensures SlotStart(|buffer|, |received|, i) == i * stride
    ensures SliceIsPacket(buffer, stride, received, i)
  {
    var count := |received|;
    DivideExactly(count, stride);
    SlotStartIsMultiple(|buffer|, count, i);
    assert PacketInSlot(buffer, received, i);
  }

  lemma DivideExactly(count: nat, stride: nat)
    requires count > 0
    ensures count * stride / count == stride && count * stride % count == 0
  {
    QuotientUnique(count * stride, count, stride, 0);
  }

  lemma QuotientUnique(n: nat, d: nat, q: nat, r: nat)
    requires d > 0 && n == d * q + r && r < d
    ensures n / d == q && n % d == r
  {
    assert d * (n / d - q) == r - n % d;
    assert n / d == q by {
      NoMultipleBetween(d, n / d - q);
    }
  }

  lemma NoMultipleBetween(d: int, x: int)
    requires d > 0 && -d < d * x < d
    ensures x == 0
  {
    assert x > 0 ==> d * x >= d;
    assert x < 0 ==> d * x <= -d;
  }

  // ----- exactly when the two cuts agree -----

  /** The guest's cut is right for every way the slots can be filled. */
  ghost predicate CutsAgree(bufLen: nat, count: nat, stride: nat)
    requires count > 0
  {
    forall buffer: seq<byte>, received: seq<seq<byte>>, i: nat ::
      Arranged(buffer, received) && |buffer| == bufLen && |received| == count && i < count ==>
        SliceIsPacket(buffer, stride, received, i)
  }

  /** Only packet `i` received something: `length` bytes, all ones. */
  function OnlyPacket(count: nat, i: nat, length: nat): (r: seq<seq<byte>>)
    ensures |r| == count
  {
    seq(count, k => if k == i then seq(length, _ => 1) else [])
  }

  function OnesAt(n: nat, start: nat, length: nat): (b: seq<byte>)
    ensures |b| == n
  {
    seq(n, k => if start <= k < start + length then 1 else 0)
  }

  lemma OnlyPacketArranged(bufLen: nat, count: nat, i: nat, length: nat)
    requires i < count && length <= SlotLength(bufLen, count, i)
    ensures Arranged(OnesAt(bufLen, SlotStart(bufLen, count, i), length), OnlyPacket(count, i, length))
  {
    var start := SlotStart(bufLen, count, i);
    var buffer := OnesAt(bufLen, start, length);
    var received := OnlyPacket(count, i, length);
    forall k | 0 <= k < count ensures PacketInSlot(buffer, received, k) {
      SlotInBuffer(bufLen, count, k);
      if k == i {
        assert buffer[start..start + length] == received[i];
      } else {
        assert received[k] == [];
      }
    }
  }

  lemma {:induction false} SlotEndsBefore(bufLen: nat, count: nat, i: nat, j: nat)
    requires i < j <= count
    ensures SlotStart(bufLen, count, i) + SlotLength(bufLen, count, i) <= SlotStart(bufLen, count, j)
  {
    if i == j - 1 {
    } else {
      SlotEndsBefore(bufLen, count, i, j - 1);
    }
  }

  lemma SlotInBuffer(bufLen: nat, count: nat, i: nat)
    requires i < count
    ensures SlotStart(bufLen, count, i) + SlotLength(bufLen, count, i) <= bufLen
  {
    SlotsCoverBuffer(bufLen, count);
    SlotEndsBefore(bufLen, count, i, count);
  }

  /** A wrong stride: one byte in slot 1 is not where the guest looks. */
  lemma WrongStrideMisses(bufLen: nat, count: nat, stride: nat)
    requires count > 1 && bufLen >= count && stride != bufLen / count
    ensures !CutsAgree(bufLen, count, stride)
  {
    var base := bufLen / count;
    assert base >= 1 by { BasePositive(bufLen, count); }
    SlotStartIsMultiple(bufLen, count, 1);
    OnlyPacketArranged(bufLen, count, 1, 1);
    var buffer, received := OnesAt(bufLen, base, 1), OnlyPacket(count, 1, 1);
    assert received[1] == [1];
    assert !SliceIsPacket(buffer, stride, received, 1) by {
      if stride < bufLen && stride > 0 {
        assert GuestSlice(buffer, stride, 1, 1) == Bytes(buffer[stride..stride + 1]);
        assert buffer[stride..stride + 1][0] == 0;
      }
    }
  }

  lemma BasePositive(bufLen: nat, count: nat)
    requires 0 < count <= bufLen
    ensures bufLen / count >= 1
  {
  }

  /** A last slot longer than the stride is cut short. */
  lemma LongLastSlotIsCut(bufLen: nat, count: nat, stride: nat)
    requires count > 0 && SlotLength(bufLen, count, count - 1) > stride
    ensures !CutsAgree(bufLen, count, stride)
  {
    var i := count - 1;
    var length := SlotLength(bufLen, count, i);
    OnlyPacketArranged(bufLen, count, i, length);
    var buffer, received := OnesAt(bufLen, SlotStart(bufLen, count, i), length), OnlyPacket(count, i, length);
    assert |received[i]| == length;
    LongPacketIsCut(buffer, stride, received, i);
  }

  lemma LongPacketIsCut(data: seq<byte>, stride: nat, received: seq<seq<byte>>, i: nat)
    requires i < |received| && |received[i]| > stride
    ensures !SliceIsPacket(data, stride, received, i)
  {
    var offset := i * stride;
    assert Min(offset + Min(|received[i]|, stride), |data|) - offset <= stride;
  }

  /** Fewer bytes than packets: only the last slot holds data, and it starts at offset 0. */
  lemma TinyBufferMisses(bufLen: nat, count: nat, stride: nat)
    requires count > 1 && 0 < bufLen < count
    ensures !CutsAgree(bufLen, count, stride)
  {
    QuotientUnique(bufLen, count, 0, bufLen);
    var i := count - 1;
    SlotStartIsMultiple(bufLen, count, i);
    OnlyPacketArranged(bufLen, count, i, 1);
    var buffer, received := OnesAt(bufLen, 0, 1), OnlyPacket(count, i, 1);
    assert received[i] == [1];
    assert !SliceIsPacket(buffer, stride, received, i) by {
      var offset := i * stride;
      if stride > 0 {
        assert offset >= 1;
        if offset < bufLen {
          assert GuestSlice(buffer, stride, i, 1) == Bytes(buffer[offset..offset + 1]);
          assert buffer[offset..offset + 1][0] == 0;
        }
      }
    }
  }

  /** Host split and guest cut agree on every transfer exactly when the buffer holds `count`
      strides, or is empty, or is one packet no longer than the stride. The guest always asks
      for `count * stride` bytes. */
  lemma CutsAgreeIff(bufLen: nat, count: nat, stride: nat)
    requires count > 0
    ensures CutsAgree(bufLen, count, stride) <==>
            bufLen == count * stride || bufLen == 0 || (count == 1 && bufLen <= stride)
  {
    if bufLen == count * stride || bufLen == 0 || (count == 1 && bufLen <= stride) {
      forall buffer: seq<byte>, received: seq<seq<byte>>, i: nat
        | Arranged(buffer, received) && |buffer| == bufLen && |received| == count && i < count
        ensures SliceIsPacket(buffer, stride, received, i)
      {
        assert PacketInSlot(buffer, received, i);
        if bufLen == count * stride {
          SlicesAreExact(buffer, stride, received, i);
        }
      }
    } else {
      var base := bufLen / count;
      assert bufLen == count * base + bufLen % count;
      if count == 1 {
        LongLastSlotIsCut(bufLen, count, stride);
      } else if bufLen < count {
        TinyBufferMisses(bufLen, count, stride);
      } else if base != stride {
        WrongStrideMisses(bufLen, count, stride);
      } else {
        LongLastSlotIsCut(bufLen, count, stride);
      }
    }
  }
}
