/** Byte-level vocabulary shared by every other module: machine integers as ranges,
    little- and big-endian fields, and the result types the host and guests return. */
module UsbBase {

  type byte = x: int | 0 <= x < 0x100
  type u16 = x: int | 0 <= x < 0x1_0000
  type u32 = x: int | 0 <= x < 0x1_0000_0000

  const TWO_TO_THE_32: int := 0x1_0000_0000

  datatype Option<+T> = None | Some(value: T)

  datatype Result<+T, +E> = Ok(value: T) | Err(error: E)

  /** The error cases of the USB interface that the modelled code returns. */
  datatype UsbError =
    | Io | InvalidParam | Access | NoDevice | NotFound | Busy | Timeout | Overflow
    | Pipe | Interrupted | NoMem | NotSupported | Other

  function Concat<T>(ss: seq<seq<T>>): seq<T> {
    if ss == [] then [] else ss[0] + Concat(ss[1..])
  }

  lemma AppendAssociative<T>(a: seq<T>, b: seq<T>, c: seq<T>)
    ensures (a + b) + c == a + (b + c)
  {}

  lemma AppendLast<T>(a: seq<T>, s: seq<T>)
    requires s != []
    ensures a + s[..|s| - 1] + [s[|s| - 1]] == a + s
  {}

  lemma SplitLast<T>(s: seq<T>)
    requires s != []
    ensures s[..|s| - 1] + [s[|s| - 1]] == s
  {}

  /** What is carried over after the first step is what the second step starts with. */
  lemma CarryOver<T>(out1: seq<T>, carry1: seq<T>, out2: seq<T>, carry2: seq<T>, start: seq<T>, in1: seq<T>, in2: seq<T>)
    requires out1 + carry1 == start + in1 && out2 + carry2 == carry1 + in2
    ensures (out1 + out2) + carry2 == start + (in1 + in2)
  {
    AppendAssociative(out1, out2, carry2);
    AppendAssociative(out1, carry1, in2);
    AppendAssociative(start, in1, in2);
  }

  lemma {:induction false} ConcatAppend<T>(a: seq<seq<T>>, b: seq<seq<T>>)
    ensures Concat(a + b) == Concat(a) + Concat(b)
  {
    if a == [] {
      assert a + b == b;
    } else {
      assert (a + b)[1..] == a[1..] + b;
      ConcatAppend(a[1..], b);
    }
  }

  function Le32(x: u32): (r: seq<byte>)
    ensures |r| == 4
  {
    var y: u32 := x / 0x100;
    var z: u32 := y / 0x100;
    [x % 0x100, y % 0x100, z % 0x100, z / 0x100]
  }

  function FromLe32(b: seq<byte>): u32
    requires |b| == 4
  {
    b[0] as int + 0x100 * (b[1] as int) + 0x1_0000 * (b[2] as int) + 0x100_0000 * (b[3] as int)
  }

  function Be32(x: u32): (r: seq<byte>)
    ensures |r| == 4
  {
    var y: u32 := x / 0x100;
    var z: u32 := y / 0x100;
    [z / 0x100, z % 0x100, y % 0x100, x % 0x100]
  }

  function FromBe32(b: seq<byte>): u32
    requires |b| == 4
  {
    0x100_0000 * (b[0] as int) + 0x1_0000 * (b[1] as int) + 0x100 * (b[2] as int) + b[3] as int
  }

  function Be16(x: u16): (r: seq<byte>)
    ensures |r| == 2
  {
    [x / 0x100, x % 0x100]
  }

  function FromBe16(b: seq<byte>): u16
    requires |b| == 2
  {
    0x100 * (b[0] as int) + b[1] as int
  }

  lemma Le32RoundTrip(x: u32)
    ensures FromLe32(Le32(x)) == x
  {}

  lemma Be32RoundTrip(x: u32)
    ensures FromBe32(Be32(x)) == x
  {}

  lemma Be16RoundTrip(x: u16)
    ensures FromBe16(Be16(x)) == x
  {}
}
