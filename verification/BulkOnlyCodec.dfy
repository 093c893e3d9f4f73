/** Command and status wrappers of the USB Mass Storage Class Bulk-Only Transport 1.0
    (sections 5.1, 5.2, 6.2 and 6.3), as both transports build and check them
    (benchmarks/usb-bench-rs/src/bulk_only/native.rs and wasm.rs). */
module BulkOnlyCodec {
  import opened UsbBase

  const CBW_SIGNATURE: u32 := 0x4342_5355
  const CSW_SIGNATURE: u32 := 0x5342_5355

  // ----- command block wrapper -----

  datatype Cbw = Cbw(tag: u32, length: u32, directionIn: bool, block: seq<byte>)

  /** What the transports are asked to send: command blocks of 1 to 16 bytes. */
  predicate Sendable(c: Cbw) {
    1 <= |c.block| <= 16
  }

  function Zeros(n: nat): (z: seq<byte>)
    ensures |z| == n
  {
    seq(n, _ => 0)
  }

  function EncodeCbw(c: Cbw): (bytes: seq<byte>)
    requires Sendable(c)
    ensures |bytes| == 31
  {
    Le32(CBW_SIGNATURE) + Le32(c.tag) + Le32(c.length)
    + [if c.directionIn then 0x80 else 0, 0, |c.block|] + c.block + Zeros(16 - |c.block|)
  }

  /** A device's reading of 31 bytes: valid and meaningful as in section 6.2, LUN 0. */
  function DecodeCbw(bytes: seq<byte>): Option<Cbw> {
    if |bytes| != 31 || FromLe32(bytes[..4]) != CBW_SIGNATURE then None
    else if bytes[12] % 0x80 != 0 || bytes[13] != 0 || bytes[14] == 0 || bytes[14] > 16 then None
    else Some(Cbw(FromLe32(bytes[4..8]), FromLe32(bytes[8..12]), bytes[12] == 0x80, bytes[15..15 + bytes[14]]))
  }

  /** The device recovers tag, length, direction and command block from what the host built. */
  lemma CbwRoundTrip(c: Cbw)
    requires Sendable(c)
    ensures DecodeCbw(EncodeCbw(c)) == Some(c)
  {
    var bytes := EncodeCbw(c);
    assert bytes[..4] == Le32(CBW_SIGNATURE);
    assert bytes[4..8] == Le32(c.tag);
    assert bytes[8..12] == Le32(c.length);
    assert bytes[15..15 + |c.block|] == c.block;
    Le32RoundTrip(CBW_SIGNATURE);
    Le32RoundTrip(c.tag);
    Le32RoundTrip(c.length);
  }

  /** The 31 bytes of section 5.1: signature, tag, length, direction, logical unit 0, and the block with
      its length in front and zeros behind. */
  predicate IsCbw(bytes: seq<byte>, tag: u32, length: u32, directionIn: bool, block: seq<byte>) {
    && |bytes| == 31 && bytes[..4] == [0x55, 0x53, 0x42, 0x43]
    && tag as int == bytes[4] as int + 0x100 * bytes[5] as int + 0x1_0000 * bytes[6] as int + 0x100_0000 * bytes[7] as int
    && length as int == bytes[8] as int + 0x100 * bytes[9] as int + 0x1_0000 * bytes[10] as int + 0x100_0000 * bytes[11] as int
    && bytes[12] == (if directionIn then 0x80 else 0) && bytes[13] == 0 && bytes[14] as int == |block| <= 16
    && bytes[15..15 + |block|] == block && forall i :: 15 + |block| <= i < 31 ==> bytes[i] == 0
  }

  lemma EncodedIsCbw(c: Cbw)
    requires Sendable(c)
    ensures IsCbw(EncodeCbw(c), c.tag, c.length, c.directionIn, c.block)
  {
    var bytes := EncodeCbw(c);
    assert bytes[..4] == Le32(CBW_SIGNATURE);
    assert bytes[4..8] == Le32(c.tag);
    assert bytes[8..12] == Le32(c.length);
    assert bytes[15..15 + |c.block|] == c.block;
    Le32Bytes(bytes[4..8], c.tag);
    Le32Bytes(bytes[8..12], c.length);
  }

  lemma Le32Bytes(b: seq<byte>, x: u32)
    requires b == Le32(x)
    ensures x as int == b[0] as int + 0x100 * b[1] as int + 0x1_0000 * b[2] as int + 0x100_0000 * b[3] as int
  {
    Le32RoundTrip(x);
  }

  /** write_cbw and build_cbw: a zeroed array filled field by field. */
  method BuildCbw(tag: u32, length: u32, directionIn: bool, block: seq<byte>) returns (cbw: array<byte>)
    requires 1 <= |block| <= 16
    ensures fresh(cbw) && cbw[..] == EncodeCbw(Cbw(tag, length, directionIn, block))
    ensures IsCbw(cbw[..], tag, length, directionIn, block)
  {
    cbw := new byte[31](_ => 0);
    var sig, tagBytes, lengthBytes := Le32(CBW_SIGNATURE), Le32(tag), Le32(length);
    forall i | 0 <= i < 4 { cbw[i] := sig[i]; }
    forall i | 0 <= i < 4 { cbw[4 + i] := tagBytes[i]; }
    forall i | 0 <= i < 4 { cbw[8 + i] := lengthBytes[i]; }
    cbw[12] := if directionIn then 0x80 else 0;
    cbw[13] := 0;
    cbw[14] := |block|;
    forall i | 0 <= i < |block| { cbw[15 + i] := block[i]; }
    EncodedIsCbw(Cbw(tag, length, directionIn, block));
  }

  // ----- command status wrapper -----

  function EncodeCsw(tag: u32, residue: u32, status: byte): (bytes: seq<byte>)
    ensures |bytes| == 13
  {
    Le32(CSW_SIGNATURE) + Le32(tag) + Le32(residue) + [status]
  }

  datatype CswError = TooShort | BadSignature | TagMismatch | CommandFailed(status: byte)

  /** validate_csw, and the checks of read_csw once its 13 bytes are in. */
  function ValidateCsw(bytes: seq<byte>, expectedTag: u32): Option<CswError> {
    if |bytes| < 13 then Some(TooShort)
    else if FromLe32(bytes[..4]) != CSW_SIGNATURE then Some(BadSignature)
    else if FromLe32(bytes[4..8]) != expectedTag then Some(TagMismatch)
    else if bytes[12] != 0 then Some(CommandFailed(bytes[12]))
    else None
  }

  /** What the host makes of any bytes: too short, then a wrong signature, then another tag, then the
      device's failure. */
  lemma CswVerdict(bytes: seq<byte>, expectedTag: u32)
    requires |bytes| >= 13
    ensures var signed := bytes[..4] == [0x55, 0x53, 0x42, 0x53];
            var tag := bytes[4] as int + 0x100 * bytes[5] as int + 0x1_0000 * bytes[6] as int + 0x100_0000 * bytes[7] as int;
            ValidateCsw(bytes, expectedTag)
            == if !signed then Some(BadSignature)
               else if tag != expectedTag then Some(TagMismatch)
               else if bytes[12] != 0 then Some(CommandFailed(bytes[12]))
               else None
    ensures forall short :: 0 <= short < 13 ==> ValidateCsw(bytes[..short], expectedTag) == Some(TooShort)
  {
    var b := bytes[..4];
    assert b[0] == bytes[0] && b[1] == bytes[1] && b[2] == bytes[2] && b[3] == bytes[3];
  }

  /** Of the status wrappers a device can encode, a command accepts exactly those with its own
      tag and status 0. */
  lemma AcceptsOwnSuccess(tag: u32, residue: u32, status: byte, expectedTag: u32)
    ensures ValidateCsw(EncodeCsw(tag, residue, status), expectedTag)
         == if tag != expectedTag then Some(TagMismatch)
            else if status != 0 then Some(CommandFailed(status))
            else None
  {
    var bytes := EncodeCsw(tag, residue, status);
    assert bytes[..4] == Le32(CSW_SIGNATURE);
    assert bytes[4..8] == Le32(tag);
    Le32RoundTrip(CSW_SIGNATURE);
    Le32RoundTrip(tag);
  }

  // ----- tags over a run -----

  /** next_tag's field after `n` commands, starting from 1. */
  function TagOf(n: nat): u32 {
    (1 + n) % TWO_TO_THE_32
  }

  lemma TagWraps(n: nat)
    ensures TagOf(n + 1) == (TagOf(n) + 1) % TWO_TO_THE_32
  {}

  /** Two commands share a tag exactly when their distance is a multiple of 2^32. */
  lemma TagsRepeatIff(m: nat, n: nat)
    requires m <= n
    ensures TagOf(m) == TagOf(n) <==> (n - m) % TWO_TO_THE_32 == 0
  {}

  /** A status wrapper left over from any of the previous 2^32 - 1 commands is never accepted,
      whatever the rest of its bytes say. */
  lemma StaleCswRejected(bytes: seq<byte>, m: nat, n: nat)
    requires m < n < m + TWO_TO_THE_32
    requires |bytes| >= 13 && FromLe32(bytes[4..8]) == TagOf(m)
    ensures ValidateCsw(bytes, TagOf(n)).Some?
  {
    TagsRepeatIff(m, n);
  }
}
