/** The host's byte-order helpers: swapping the bytes of an integer in place
    with two pointers that move toward each other. */
module Utils {
  import opened Bytes

  /** The bytes in the opposite order. */
  function Reverse(s: seq<byte>): (r: seq<byte>)
    ensures |r| == |s|
  {
    if s == [] then [] else Reverse(s[1..]) + [s[0]]
  }

  /** Byte `i` of the reversal is byte `|s| - 1 - i` of the original. */
  lemma {:induction false} ReverseAt(s: seq<byte>)
    ensures forall i :: 0 <= i < |s| ==> Reverse(s)[i] == s[|s| - 1 - i]
  {
    if s != [] {
      ReverseAt(s[1..]);
    }
  }

  /** Reversing twice gives the bytes back: converting to big-endian and back
      to little-endian is the identity. */
  lemma ReverseInvolutive(s: seq<byte>)
    ensures Reverse(Reverse(s)) == s
  {
    ReverseAt(s);
    ReverseAt(Reverse(s));
  }

  /** The unsigned value of bytes stored least significant first. */
  function FromLittleEndian(b: seq<byte>): nat
  {
    if b == [] then 0 else b[0] + BYTE_MOD * FromLittleEndian(b[1..])
  }

  /** The unsigned value of bytes stored most significant first. */
  function FromBigEndian(b: seq<byte>): nat
  {
    if b == [] then 0 else FromBigEndian(b[..|b| - 1]) * BYTE_MOD + b[|b| - 1]
  }

  /** Reversing the bytes of a little-endian integer gives the big-endian
      bytes of the same integer, so a reversal is exactly a byte-order
      conversion. */
  lemma {:induction false} ReverseConvertsByteOrder(v: seq<byte>)
    ensures FromBigEndian(Reverse(v)) == FromLittleEndian(v)
  {
    if v != [] {
      var r := Reverse(v);
      assert r[..|r| - 1] == Reverse(v[1..]);
      ReverseConvertsByteOrder(v[1..]);
    }
  }

  /** The swap loop: starting with `p1` at `lo` and `p2` at `hi`, swaps the
      bytes the two pointers address and moves them toward each other while
      `p1 < p2`. It reverses `a[lo..hi + 1]` and touches nothing else. */
  method SwapInward(a: array<byte>, lo: int, hi: int)
    requires 0 <= lo && hi < a.Length && lo <= hi + 1
    modifies a
    ensures a[..] == old(a[..lo]) + Reverse(old(a[lo..hi + 1])) + old(a[hi + 1..])
  {
    var p1, p2 := lo, hi;
    while p1 < p2
      invariant lo <= p1 && p2 <= hi && p1 - lo == hi - p2 && p1 <= p2 + 1
      invariant forall k :: 0 <= k < lo || hi < k < a.Length ==> a[k] == old(a[k])
      invariant forall k :: p1 <= k <= p2 ==> a[k] == old(a[k])
      invariant forall k :: lo <= k < p1 || p2 < k <= hi ==> a[k] == old(a[lo + hi - k])
    {
      var tmp := a[p2];
      a[p2] := a[p1];
      a[p1] := tmp;
      p1, p2 := p1 + 1, p2 - 1;
    }
    assert forall k :: lo <= k <= hi ==> a[k] == old(a[lo + hi - k]);
    ReversedWindow(old(a[..]), a[..], lo, hi);
  }

  /** A sequence that agrees with `s` outside `lo..hi` and holds the bytes of
      `s` mirrored inside it is `s` with that window reversed. */
  lemma ReversedWindow(s: seq<byte>, t: seq<byte>, lo: int, hi: int)
    requires 0 <= lo <= hi + 1 <= |s| == |t|
    requires forall k :: 0 <= k < lo || hi < k < |s| ==> t[k] == s[k]
    requires forall k :: lo <= k <= hi ==> t[k] == s[lo + hi - k]
    ensures t == s[..lo] + Reverse(s[lo..hi + 1]) + s[hi + 1..]
  {
    var window := s[lo..hi + 1];
    ReverseAt(window);
    var expected := s[..lo] + Reverse(window) + s[hi + 1..];
    assert forall k :: lo <= k <= hi ==> expected[k] == Reverse(window)[k - lo];
    assert forall k :: 0 <= k < |t| ==> t[k] == expected[k];
  }

  /** The helper as written: the end pointer starts at offset `|value| + 1`,
      two bytes past the value, so the swap runs over the value followed by
      the two bytes of memory after it (`beyond`). The result is the first
      `|value|` bytes of that reversed window; the rest is what the swap
      leaves in the two bytes past the value. */
  method LeToBeAsWritten(value: seq<byte>, beyond: seq<byte>) returns (ret: seq<byte>, clobbered: seq<byte>)
    requires |beyond| == 2
    ensures |ret| == |value| && ret + clobbered == Reverse(value + beyond)
  {
    var window := value + beyond;
    var mem := new byte[|window|](i requires 0 <= i < |window| => window[i]);
    assert mem[..] == window;
    SwapInward(mem, 0, |value| + 1);
    assert mem[..0] == [] && mem[|value| + 2..] == [] && window[0..|value| + 2] == window;
    ret, clobbered := mem[..|value|], mem[|value|..];
    assert mem[..] == ret + clobbered;
  }

  /** For any value of two or more bytes the helper as written returns, as its
      two lowest bytes, the two bytes of memory after the value, reversed. */
  lemma AsWrittenStartsPastTheValue(value: seq<byte>, beyond: seq<byte>)
    requires |value| >= 2 && |beyond| == 2
    ensures Reverse(value + beyond)[..2] == [beyond[1], beyond[0]]
  {
    ReverseAt(value + beyond);
  }

  /** A 16-bit value 0x3412 stored as [0x12, 0x34] with zero bytes after it:
      the helper as written returns [0x00, 0x00], not the swapped [0x34, 0x12]. */
  lemma AsWrittenCounterexample()
    ensures Reverse([0x12, 0x34] + [0, 0])[..2] == [0, 0]
    ensures Reverse([0x12, 0x34]) == [0x34, 0x12]
  {
    AsWrittenStartsPastTheValue([0x12, 0x34], [0, 0]);
    ReverseAt([0x12, 0x34]);
  }

  /** Little-endian to big-endian with the end pointer on the last byte of the
      value: the bytes reversed. */
  method LeToBe(value: seq<byte>) returns (ret: seq<byte>)
    ensures ret == Reverse(value)
    ensures FromBigEndian(ret) == FromLittleEndian(value)
  {
    var a := new byte[|value|](i requires 0 <= i < |value| => value[i]);
    assert a[..] == value;
    SwapInward(a, 0, |value| - 1);
    assert a[..0] == [] && a[|value|..] == [] && value[0..|value|] == value;
    ret := a[..];
    ReverseConvertsByteOrder(value);
  }

  /** Big-endian to little-endian is the same reversal. */
  method BeToLe(value: seq<byte>) returns (ret: seq<byte>)
    ensures ret == Reverse(value)
    ensures FromLittleEndian(ret) == FromBigEndian(value)
  {
    ret := LeToBe(value);
    ReverseConvertsByteOrder(ret);
    ReverseInvolutive(value);
  }
}
