/** Fixed-width machine integers of the 8051 firmware and the host tool,
    and their little-endian byte images. */
module Bytes {

  type byte = x: int | 0 <= x < 0x100
  type uint16 = x: int | 0 <= x < 0x1_0000
  type uint32 = x: int | 0 <= x < 0x1_0000_0000

  const BYTE_MOD: int := 0x100
  const UINT16_MOD: int := 0x1_0000
  const UINT32_MOD: int := 0x1_0000_0000

  /** Bitwise AND of two bytes, taken bit by bit from the lowest. */
  function And(a: byte, b: byte): (r: byte)
    ensures r <= a && r <= b
  {
    if a == 0 || b == 0 then 0
    else 2 * And(a / 2, b / 2) + (if a % 2 == 1 && b % 2 == 1 then 1 else 0)
  }

  /** The AND keeps only bits both operands have: it is a sub-mask of each,
      so ANDing it with either operand changes nothing. */
  lemma {:induction false} AndSubmask(a: byte, b: byte)
    ensures And(And(a, b), a) == And(a, b)
    ensures And(And(a, b), b) == And(a, b)
  {
    var r := And(a, b);
    if a != 0 && b != 0 {
      AndSubmask(a / 2, b / 2);
      var h := And(a / 2, b / 2);
      var low := if a % 2 == 1 && b % 2 == 1 then 1 else 0;
      assert r == 2 * h + low;
      if r != 0 {
        assert r / 2 == h && r % 2 == low;
      }
    }
  }

  /** A mask of low one bits: 0, 1, 3, 7, ..., 0xFF. */
  predicate LowOnes(m: byte)
  {
    m == 0 || (m % 2 == 1 && LowOnes(m / 2))
  }

  lemma {:induction false} AndIdempotent(b: byte)
    ensures And(b, b) == b
  {
    if b != 0 {
      AndIdempotent(b / 2);
    }
  }

  /** AND with a mask of low one bits keeps every value the mask covers. */
  lemma {:induction false} AndLowOnes(m: byte, x: byte)
    requires LowOnes(m) && x <= m
    ensures And(m, x) == x
  {
    if x != 0 {
      AndLowOnes(m / 2, x / 2);
    }
  }

  lemma AndAllOnes(x: byte)
    ensures And(0xFF, x) == x
  {
    assert LowOnes(0xFF);
    AndLowOnes(0xFF, x);
  }

  /** Shifting both operands left by one shifts their AND. */
  lemma AndDouble(a: byte, b: byte)
    requires 2 * a < BYTE_MOD && 2 * b < BYTE_MOD
    ensures And(2 * a, 2 * b) == 2 * And(a, b)
  {
    assert (2 * a) / 2 == a && (2 * b) / 2 == b && (2 * a) % 2 == 0;
  }

  /** AND with 1 is the lowest bit. */
  lemma AndLowBit(x: byte)
    ensures And(x, 1) == x % 2
  {
    if x != 0 {
      assert And(x / 2, 0) == 0;
    }
  }

  /** The value a C cast `(int8_t)x` yields for an unsigned 8-bit x. */
  function Int8(x: byte): (r: int)
    ensures -128 <= r < 128
    ensures (r - x) % BYTE_MOD == 0
  {
    if x < 0x80 then x else x - BYTE_MOD
  }

  /** The value a C conversion of any int to `uint16_t` yields (reduction modulo 2^16). */
  function ToUint16(x: int): (r: uint16)
    ensures (r - x) % UINT16_MOD == 0
    ensures 0 <= x < UINT16_MOD ==> r == x
  {
    x % UINT16_MOD
  }

  /** `uint32_t` subtraction: wraps modulo 2^32. */
  function Sub32(a: uint32, b: uint32): (r: uint32)
    ensures a >= b ==> r == a - b
    ensures a < b ==> r == a - b + UINT32_MOD
  {
    (a - b) % UINT32_MOD
  }

  /** `uint32_t` addition: wraps modulo 2^32. */
  function Add32(a: uint32, b: uint32): (r: uint32)
    ensures a + b < UINT32_MOD ==> r == a + b
    ensures a + b >= UINT32_MOD ==> r == a + b - UINT32_MOD
  {
    (a + b) % UINT32_MOD
  }

  /** Little-endian image of a 16-bit value. */
  function LE16(x: uint16): (r: seq<byte>)
    ensures |r| == 2
  {
    [x % 0x100, x / 0x100]
  }

  function FromLE16(b: seq<byte>): uint16
    requires |b| == 2
  {
    b[0] as int + 0x100 * (b[1] as int)
  }

  /** Little-endian image of a 32-bit value. */
  function LE32(x: uint32): (r: seq<byte>)
    ensures |r| == 4
  {
    LE16(x % 0x1_0000) + LE16(x / 0x1_0000)
  }

  function FromLE32(b: seq<byte>): uint32
    requires |b| == 4
  {
    FromLE16(b[..2]) as int + 0x1_0000 * (FromLE16(b[2..]) as int)
  }

  lemma LE16RoundTrip(x: uint16)
    ensures FromLE16(LE16(x)) == x
  {
  }

  lemma FromLE16RoundTrip(b: seq<byte>)
    requires |b| == 2
    ensures LE16(FromLE16(b)) == b
  {
  }

  /** Decoding the four bytes of a 32-bit value gives the value back. */
  lemma LE32RoundTrip(x: uint32)
    ensures FromLE32(LE32(x)) == x
  {
    var lo, hi := x % 0x1_0000, x / 0x1_0000;
    assert LE32(x)[..2] == LE16(lo);
    assert LE32(x)[2..] == LE16(hi);
    LE16RoundTrip(lo);
    LE16RoundTrip(hi);
  }

  /** Every four-byte sequence is the image of exactly the value it decodes to. */
  lemma FromLE32RoundTrip(b: seq<byte>)
    requires |b| == 4
    ensures LE32(FromLE32(b)) == b
  {
    var lo, hi := FromLE16(b[..2]), FromLE16(b[2..]);
    var x := FromLE32(b);
    assert x % 0x1_0000 == lo && x / 0x1_0000 == hi;
    FromLE16RoundTrip(b[..2]);
    FromLE16RoundTrip(b[2..]);
    assert b == b[..2] + b[2..];
  }
}
