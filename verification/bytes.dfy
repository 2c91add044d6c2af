/** Bytes and the unsigned integers read from them. */
module Bytes {

  type byte = bv8

  /** The unsigned 32-bit integers (`uint32_t`, `unsigned int`). */
  type u32 = x: int | 0 <= x < 0x1_0000_0000

  /** `n` zero bytes, the result of a `memset( p, 0, n )`. */
  function Zeros(n: nat): (z: seq<byte>)
    ensures |z| == n
    ensures forall i :: 0 <= i < n ==> z[i] == 0
  {
    seq(n, _ => 0 as byte)
  }

  /** The number a byte string denotes when read most-significant byte first. */
  function BigEndianValue(s: seq<byte>): (v: nat)
  {
    if |s| == 0 then 0 else BigEndianValue(s[..|s| - 1]) * 256 + s[|s| - 1] as int
  }

  /** Shifting a byte below 128 left by one and filling in a low bit
      doubles it and adds the bit. */
  lemma AppendBit(h: byte, bit: byte)
    requires h as int < 128 && bit as int < 2
    ensures ((h << 1) | bit) as int == 2 * h as int + bit as int
  {
  }

  /** The byte holding a number below 256, built bit by bit. */
  function ToByte(x: int): (b: byte)
    requires 0 <= x < 256
    ensures b as int == x
  {
    if x == 0 then 0
    else
      var h := ToByte(x / 2);
      var bit: byte := if x % 2 == 1 then 1 else 0;
      AppendBit(h, bit);
      (h << 1) | bit
  }

  function Pow256(n: nat): (p: nat)
    ensures p >= 1
  {
    if n == 0 then 1 else 256 * Pow256(n - 1)
  }

  /** An `n`-byte string denotes a number below 256^n. */
  lemma {:induction false} BigEndianValueBound(s: seq<byte>)
    ensures BigEndianValue(s) < Pow256(|s|)
  {
    if |s| > 0 {
      BigEndianValueBound(s[..|s| - 1]);
    }
  }

  lemma ShiftByte(b: int, p: int, r: int)
    ensures (b * p + r) * 256 == b * (256 * p) + r * 256
  {
  }

  /** Splitting off the leading byte: value(b ++ t) = b * 256^|t| + value(t). */
  lemma {:induction false} BigEndianValueCons(s: seq<byte>)
    requires |s| > 0
    ensures BigEndianValue(s) == s[0] as int * Pow256(|s| - 1) + BigEndianValue(s[1..])
  {
    if |s| > 1 {
      var init, last := s[..|s| - 1], s[|s| - 1] as int;
      var tail := s[1..];
      BigEndianValueCons(init);
      assert init[1..] == tail[..|tail| - 1];
      assert tail[|tail| - 1] as int == last;
      var b, p, r := s[0] as int, Pow256(|s| - 2), BigEndianValue(init[1..]);
      assert BigEndianValue(init) == b * p + r;
      assert BigEndianValue(tail) == r * 256 + last;
      assert Pow256(|s| - 1) == 256 * p;
      ShiftByte(b, p, r);
    } else {
      assert s[1..] == [];
      assert s[..0] == [];
    }
  }
}
