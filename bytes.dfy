/** Bytes and bit-level helpers shared by the encoder and the decoder of the
    ROM delta codec. */
module Bytes {

  /** An `unsigned char` of the C program. */
  type byte = x: int | 0 <= x < 256

  /** Storing a C `int` into an `unsigned char` keeps its low eight bits. */
  function ToByte(x: int): (b: byte)
    ensures b == x % 256
    ensures 0 <= x < 256 ==> b == x
  {
    x % 256
  }

  /** `2` to the power `t`. */
  function Pow2(t: nat): (r: nat)
    ensures r >= 1
  {
    if t == 0 then 1 else 2 * Pow2(t - 1)
  }

  /** The low `w` bits of `a | b`, taken one bit at a time from the bottom. */
  function OrBits(a: nat, b: nat, w: nat): (r: nat)
    ensures r < Pow2(w)
  {
    if w == 0 then 0
    else (if a % 2 == 1 || b % 2 == 1 then 1 else 0) + 2 * OrBits(a / 2, b / 2, w - 1)
  }

  /** The low `w` bits of `a ^ b`, taken one bit at a time from the bottom. */
  function XorBits(a: nat, b: nat, w: nat): (r: nat)
    ensures r < Pow2(w)
  {
    if w == 0 then 0
    else (if a % 2 != b % 2 then 1 else 0) + 2 * XorBits(a / 2, b / 2, w - 1)
  }

  /** `a | b` on bytes. */
  function Or(a: byte, b: byte): (r: byte)
  {
    assert Pow2(8) == 256;
    OrBits(a, b, 8)
  }

  /** `a ^ b` on bytes. */
  function Xor(a: byte, b: byte): (r: byte)
  {
    assert Pow2(8) == 256;
    XorBits(a, b, 8)
  }

  /** `1 << t` for a bit index `t` of a byte. */
  function Bit(t: nat): (r: byte)
    requires t < 8
  {
    Pow2Below(t, 8);
    Pow2(t)
  }

  /** Bit `t` of `x` is set, i.e. `x & (1 << t)` is non-zero in C. */
  predicate BitSet(x: nat, t: nat)
  {
    if t == 0 then x % 2 == 1 else BitSet(x / 2, t - 1)
  }

  /** The C idiom `len = count >> 3; if (count & 7) len++;` on a signed
      `int` (arithmetic shift, two's complement mask).  For a non-negative
      count it is the number of bytes needed to hold `count` bits. */
  function BitmapLen(count: int): (r: int)
    ensures count >= 0 ==> r >= 0 && 8 * r >= count && 8 * r < count + 8
    ensures count > 0 ==> r >= 1 && (count - 1) / 8 == r - 1
    ensures count == -1 ==> r == 0
  {
    count / 8 + (if count % 8 != 0 then 1 else 0)
  }

  /** The number of `true` entries of `flags`. */
  function CountTrue(flags: seq<bool>): (c: nat)
    ensures c <= |flags|
  {
    if flags == [] then 0
    else CountTrue(flags[..|flags| - 1]) + (if flags[|flags| - 1] then 1 else 0)
  }

  /** Bitmap byte number `b` built from `flags` the way the encoder builds it:
      for each index `l` with `flags[l]`, `bitmap[l >> 3] |= 1 << (l & 7)`. */
  function PackByte(flags: seq<bool>, b: nat): (r: byte)
  {
    if flags == [] then 0
    else
      var l := |flags| - 1;
      Or(PackByte(flags[..l], b), if flags[l] && l / 8 == b then Bit(l % 8) else 0)
  }

  /** Counting from the front: the first flag, then the rest. */
  lemma {:induction false} CountTrueFront(flags: seq<bool>)
    requires |flags| > 0
    ensures CountTrue(flags) == (if flags[0] then 1 else 0) + CountTrue(flags[1..])
  {
    var l := |flags| - 1;
    if l == 0 {
      assert flags[..l] == [] && flags[1..] == [];
    } else {
      CountTrueFront(flags[..l]);
      assert flags[..l][1..] == flags[1..][..l - 1];
    }
  }

  /** Bit `t` of bitmap byte `b` is set exactly when the flag at index
      `8 * b + t` is present and true. */
  lemma {:induction false} PackByteBit(flags: seq<bool>, b: nat, t: nat)
    requires t < 8
    ensures BitSet(PackByte(flags, b), t) <==> (8 * b + t < |flags| && flags[8 * b + t])
  {
    if flags != [] {
      var l := |flags| - 1;
      PackByteBit(flags[..l], b, t);
      BitOfOrStep(PackByte(flags[..l], b), flags[l] && l / 8 == b, l % 8, t);
      if 8 * b + t < l {
        assert flags[..l][8 * b + t] == flags[8 * b + t];
      }
      DivModEight(l, b, t);
    } else {
      BitOfZero(t);
    }
  }

  /** Or-ing in bit `s` (or nothing) sets bit `t` exactly when `s == t`. */
  lemma BitOfOrStep(low: byte, on: bool, s: nat, t: nat)
    requires s < 8 && t < 8
    ensures BitSet(Or(low, if on then Bit(s) else 0), t) <==> BitSet(low, t) || (on && s == t)
  {
    if on {
      BitOfOr(low, Bit(s), t);
      BitOfPower(s, t);
    } else {
      BitOfOr(low, 0, t);
      BitOfZero(t);
    }
  }

  lemma DivModEight(l: nat, b: nat, t: nat)
    requires t < 8
    ensures 8 * b + t == l <==> (l / 8 == b && l % 8 == t)
  {
  }

  lemma BitOfOr(x: byte, y: byte, t: nat)
    requires t < 8
    ensures BitSet(Or(x, y), t) <==> BitSet(x, t) || BitSet(y, t)
  {
    BitOfOrBits(x, y, 8, t);
  }

  lemma {:induction false} BitOfOrBits(a: nat, b: nat, w: nat, t: nat)
    requires t < w
    ensures BitSet(OrBits(a, b, w), t) <==> BitSet(a, t) || BitSet(b, t)
  {
    if t > 0 {
      BitOfOrBits(a / 2, b / 2, w - 1, t - 1);
    }
  }

  lemma OrZero(x: byte)
    ensures Or(x, 0) == x
  {
    OrBitsZero(x, 8);
  }

  lemma {:induction false} OrBitsZero(x: nat, w: nat)
    requires x < Pow2(w)
    ensures OrBits(x, 0, w) == x
  {
    if w > 0 {
      OrBitsZero(x / 2, w - 1);
    }
  }

  lemma OrAssoc(x: byte, y: byte, z: byte)
    ensures Or(Or(x, y), z) == Or(x, Or(y, z))
  {
    OrBitsAssoc(x, y, z, 8);
  }

  lemma {:induction false} OrBitsAssoc(x: nat, y: nat, z: nat, w: nat)
    ensures OrBits(OrBits(x, y, w), z, w) == OrBits(x, OrBits(y, z, w), w)
  {
    if w > 0 {
      OrBitsAssoc(x / 2, y / 2, z / 2, w - 1);
    }
  }

  lemma {:induction false} Pow2Below(s: nat, t: nat)
    requires s < t
    ensures Pow2(s) < Pow2(t)
  {
    if s < t - 1 {
      Pow2Below(s, t - 1);
    }
  }

  lemma {:induction false} BitOfZero(t: nat)
    ensures !BitSet(0, t)
  {
    if t > 0 {
      BitOfZero(t - 1);
    }
  }

  lemma {:induction false} BitOfPower(s: nat, t: nat)
    ensures BitSet(Pow2(s), t) <==> s == t
  {
    if t == 0 {
    } else if s == 0 {
      BitOfZero(t - 1);
    } else {
      BitOfPower(s - 1, t - 1);
    }
  }
}
