/** The token headers of the diff stream, as the encoder writes them and as
    the decoder reads them back.

    Every token starts with a tag byte.  The tags 0x00 and 0x01 are the
    literal forms; a tag in 0x02..0x7F opens a copy from the reference,
    with two address bytes after it; a tag of 0x80 or above opens a copy
    with corrections, whose address bytes are followed by a bitmap of the
    corrected positions and one XOR byte per corrected position.

    Addresses are 17 bits wide: bit 16 is the low bit of the tag, bits
    0..7 the first byte after it and bits 8..15 the second. */
module Format {
  import opened Bytes

  /** Header of an exact match of `len` bytes at reference address `addr`:
      tag `0x02 + ((len - 1) << 1) + (addr >> 16)`, then `addr` and
      `addr >> 8`, each stored into an `unsigned char`. */
  function ExactHeader(len: int, addr: nat): (h: seq<byte>)
    ensures |h| == 3 && h[1] == addr % 256 && h[2] == (addr / 256) % 256
  {
    [ToByte(0x02 + (len - 1) * 2 + addr / 0x10000), ToByte(addr), ToByte(addr / 0x100)]
  }

  /** Header of an approximate match as the encoder writes it: the tag is
      `0x80 + ((mlen - 1) << 1) + (addr >> 16)`, built from the exact run
      length `mlen` of the candidate and the current best address. */
  function ApproxHeader(mlen: int, addr: nat): (h: seq<byte>)
    ensures |h| == 3 && h[1] == addr % 256 && h[2] == (addr / 256) % 256
  {
    [ToByte(0x80 + (mlen - 1) * 2 + addr / 0x10000), ToByte(addr), ToByte(addr / 0x100)]
  }

  /** The count the decoder derives from an exact tag: `(tag - 2) >> 1`.
      C's `>>` on a negative `int` shifts arithmetically, which is floor
      division by two, as Dafny's `/` is for a positive divisor. */
  function ExactCount(tag: byte): (c: int)
    ensures 0x02 <= tag < 0x80 ==> 0 <= c <= 62
    ensures tag < 0x02 ==> c == -1
  {
    (tag - 2) / 2
  }

  /** The count the decoder derives from an approximate tag:
      `((tag & 0x7f) - 2) >> 1` (`& 0x7f` keeps the low seven bits); it is -1 for the tags 0x80 and 0x81. */
  function ApproxCount(tag: byte): (c: int)
    ensures -1 <= c <= 62
  {
    (tag % 128 - 2) / 2
  }

  /** The 17-bit address the decoder assembles from a header:
      `((tag & 1) << 16) | lo | (mid << 8)`. */
  function HeaderAddress(tag: byte, lo: byte, mid: byte): (a: nat)
    ensures a < 0x20000
  {
    (tag % 2) * 0x10000 + lo + mid * 0x100
  }

  /** The count is -1 exactly for the tags whose low seven bits are below
      2: 0x80 and 0x81 among the approximate tags. */
  lemma ApproxCountNegative(tag: byte)
    ensures ApproxCount(tag) == -1 <==> tag % 128 < 2
  {
  }

  /** The three fields of the decoded address are the three header fields. */
  lemma HeaderAddressFields(tag: byte, lo: byte, mid: byte)
    ensures var a := HeaderAddress(tag, lo, mid);
      a % 0x100 == lo && (a / 0x100) % 0x100 == mid && a / 0x10000 == tag % 2
  {
  }

  /** A header whose tag is `base + 2 * half + (addr >> 16)` for an even
      `base`, followed by `addr` and `addr >> 8`: the tag is stored without
      truncation, its low bit is `addr >> 16`, and the 17-bit address comes
      back out. */
  lemma HeaderFields(base: int, half: int, addr: nat)
    requires addr < 0x20000 && base % 2 == 0 && 0 <= base + half * 2 < 0xFE
    ensures var h := [ToByte(base + half * 2 + addr / 0x10000), ToByte(addr), ToByte(addr / 0x100)];
      h[0] == base + half * 2 + addr / 0x10000 &&
      HeaderAddress(h[0], h[1], h[2]) == addr
  {
    var hi := addr / 0x10000;
    var tag := base + half * 2 + hi;
    assert 0 <= hi <= 1;
    assert ToByte(tag) == tag;
    assert tag % 2 == hi;
    AddressSplit(addr);
  }

  /** An address is its high part, its middle byte and its low byte. */
  lemma AddressSplit(addr: nat)
    ensures addr == (addr / 0x10000) * 0x10000 + ((addr / 0x100) % 0x100) * 0x100 + addr % 0x100
  {
    var q := addr / 0x100;
    assert addr == q * 0x100 + addr % 0x100;
    assert q == (q / 0x100) * 0x100 + q % 0x100;
    assert q / 0x100 == addr / 0x10000;
  }

  lemma HighBit(addr: nat)
    requires addr < 0x20000
    ensures 0 <= addr / 0x10000 <= 1
  {
  }

  /** For a run of 1 to 63 bytes the exact tag falls in 0x02..0x7F, the
      address is recovered, and the decoder's count is one less than the
      length the encoder covered. */
  lemma {:induction false} ExactHeaderDecodes(len: int, addr: nat)
    requires 1 <= len <= 63 && addr < 0x20000
    ensures var h := ExactHeader(len, addr);
      0x02 <= h[0] < 0x80 &&
      ExactCount(h[0]) == len - 1 &&
      HeaderAddress(h[0], h[1], h[2]) == addr
  {
    HighBit(addr);
    HeaderFields(0x02, len - 1, addr);
    var tag := ExactHeader(len, addr)[0];
    assert tag - 2 == (len - 1) * 2 + addr / 0x10000;
    HalfOf(len - 1, addr / 0x10000);
    assert ExactCount(tag) == len - 1;
    assert 0x02 <= tag < 0x80;
  }

  /** A 64-byte exact run gets tag 0x80 or 0x81, which the decoder reads as
      an approximate token whose count is -1. */
  lemma {:induction false} ExactHeaderOfLength64(addr: nat)
    requires addr < 0x20000
    ensures var h := ExactHeader(64, addr);
      h[0] >= 0x80 && ApproxCount(h[0]) == -1 && HeaderAddress(h[0], h[1], h[2]) == addr
  {
    HighBit(addr);
    HeaderFields(0x02, 63, addr);
  }

  /** An approximate tag built from the exact run length `mlen` lies in
      0x80..0xFD and decodes to the count `mlen - 2`: it does not carry the
      length the token covers. */
  lemma {:induction false} ApproxHeaderDecodes(mlen: int, addr: nat)
    requires 1 <= mlen <= 63 && addr < 0x20000
    ensures var h := ApproxHeader(mlen, addr);
      0x80 <= h[0] <= 0xFD &&
      ApproxCount(h[0]) == mlen - 2 &&
      HeaderAddress(h[0], h[1], h[2]) == addr
  {
    HighBit(addr);
    HeaderFields(0x80, mlen - 1, addr);
    HalfOf(mlen - 2, addr / 0x10000);
  }

  lemma HalfOf(q: int, bit: int)
    requires 0 <= bit <= 1
    ensures (q * 2 + bit) / 2 == q
  {
  }

}
