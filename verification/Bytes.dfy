/** Machine integers and the little-endian loads that the packed C structures stand for. */
module Bytes {
  const TWO_8 := 0x100
  const TWO_16 := 0x1_0000
  const TWO_31 := 0x8000_0000
  const TWO_32 := 0x1_0000_0000
  const TWO_64 := 0x1_0000_0000_0000_0000

  type u8 = x: int | 0 <= x < TWO_8
  type u16 = x: int | 0 <= x < TWO_16
  type u32 = x: int | 0 <= x < TWO_32

  function Le16(s: seq<u8>, p: nat): u16
    requires p + 2 <= |s|
  {
    s[p] as int + 0x100 * s[p + 1] as int
  }

  function Le32(s: seq<u8>, p: nat): u32
    requires p + 4 <= |s|
  {
    s[p] as int + 0x100 * s[p + 1] as int + 0x1_0000 * s[p + 2] as int + 0x100_0000 * s[p + 3] as int
  }

  /** Little-endian: the low byte comes first. */
  lemma LowByteFirst(s: seq<u8>, p: nat)
    ensures p + 2 <= |s| ==> Le16(s, p) % 256 == s[p] && Le16(s, p) / 256 == s[p + 1]
    ensures p + 4 <= |s| ==> Le32(s, p) % 65536 == Le16(s, p) && Le32(s, p) / 65536 == Le16(s, p + 2)
  {}

  function Bytes16(x: u16): (s: seq<u8>)
    ensures |s| == 2 && Le16(s, 0) == x
  {
    [x % 0x100, x / 0x100]
  }

  function Bytes32(x: u32): (s: seq<u8>)
    ensures |s| == 4 && Le32(s, 0) == x
  {
    var y := x / 0x100;
    var z := y / 0x100;
    [x % 0x100, y % 0x100, z % 0x100, z / 0x100]
  }

  function Zeros(n: nat): (z: seq<u8>)
    ensures |z| == n
  {
    seq(n, _ => 0)
  }

  /** Conversion of any integer to a 32-bit signed `int`. */
  function ToInt32(x: int): (r: int)
    ensures -TWO_31 <= r < TWO_31
    ensures -TWO_31 <= x < TWO_31 ==> r == x
  {
    var m := x % TWO_32;
    if m < TWO_31 then m else m - TWO_32
  }

  /** Conversion of any integer to a 64-bit unsigned value (`size_t`, `oid`). */
  function ToUnsigned64(x: int): (r: nat)
    ensures r < TWO_64
    ensures 0 <= x < TWO_64 ==> r == x
  {
    x % TWO_64
  }

  /** Conversions beyond the range wrap around. */
  lemma ConversionsWrap(x: int)
    ensures 0x8000_0000 <= x < 0x1_0000_0000 ==> ToInt32(x) == x - 0x1_0000_0000
    ensures -0x8000_0000 <= x < 0 ==> ToUnsigned64(x) == x + 0x1_0000_0000_0000_0000
  {}

  /** `NLMSG_ALIGN` on non-negative lengths. */
  function Align4(n: nat): (r: nat)
    ensures n <= r < n + 4 && r % 4 == 0
  {
    (n + 3) / 4 * 4
  }
}
