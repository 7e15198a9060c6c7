/** How the decoder reads the tokens the encoder writes.  The two halves of
    romdiff.c do not agree on the token format; each lemma here pins down
    one place where they part. */
module Pairing {
  import opened Bytes
  import opened Format
  import opened Encoder
  import opened Decoder

  /** A literal token `0x00 x`: the decoder takes only the tag, so the
      payload byte `x` is read as the next tag. */
  lemma LiteralPayloadReadAsTag(rf: seq<byte>, diff: seq<byte>, diffLen: int, ofs: nat, outOfs: nat, out: seq<byte>)
    requires ofs < diffLen && ofs < |diff| && diff[ofs] <= 0x01 && outOfs < |rf|
    ensures DecodeFrom(rf, diff, diffLen, ofs, outOfs, out) == DecodeFrom(rf, diff, diffLen, ofs + 1, outOfs, out)
  {
  }

  /** The header of an exact run of 1 to 63 bytes at `ofs`: the decoder
      copies one byte fewer than the run from the right address, and moves
      on four bytes, past the three-byte token and one more. */
  lemma {:induction false} EncodedExactToken(rf: seq<byte>, diff: seq<byte>, ofs: nat, outOfs: nat, out: seq<byte>, len: int, addr: nat)
    requires 1 <= len <= 63 && addr < 0x20000
    requires ofs + 3 <= |diff| && diff[ofs..ofs + 3] == ExactHeader(len, addr)
    requires addr + (len - 1) <= |rf| && outOfs + (len - 1) <= |out|
    ensures DecodeToken(rf, diff, ofs, outOfs, out) == Next(ofs + 4, outOfs + (len - 1), Copy(rf, addr, out, outOfs, len - 1))
  {
    ExactHeaderDecodes(len, addr);
    var h := ExactHeader(len, addr);
    assert diff[ofs] == h[0] && diff[ofs + 1] == h[1] && diff[ofs + 2] == h[2];
  }

  /** The header of an exact run of 64 bytes lands in the approximate
      range with count -1: `bcopy` with a negative count, undefined in C. */
  lemma {:induction false} EncodedLength64Faults(rf: seq<byte>, diff: seq<byte>, ofs: nat, outOfs: nat, out: seq<byte>, addr: nat)
    requires addr < 0x20000
    requires ofs + 3 <= |diff| && diff[ofs..ofs + 3] == ExactHeader(64, addr)
    ensures DecodeToken(rf, diff, ofs, outOfs, out) == Fault
  {
    ExactHeaderOfLength64(addr);
    var h := ExactHeader(64, addr);
    assert diff[ofs] == h[0];
  }

  /** An image of 1 to 63 bytes encoded as one exact match of all of it at
      address 0 is decoded one byte short: the run ends with `n - 1`
      bytes written and `decode_diff` returns -1. */
  lemma {:induction false} SingleExactStreamFallsShort(rf: seq<byte>, diff: seq<byte>, out: seq<byte>)
    requires 1 <= |rf| <= 63 && |out| >= |rf|
    requires |diff| >= 3 && diff[..3] == ExactHeader(|rf|, 0)
    ensures Decode(rf, diff, 3, out).0 == WrongLength(|rf| - 1)
    ensures ReturnValue(Decode(rf, diff, 3, out).0) == -1
  {
    assert diff[0..3] == diff[..3];
    EncodedExactToken(rf, diff, 0, 0, out, |rf|, 0);
    var out' := Copy(rf, 0, out, 0, |rf| - 1);
    assert DecodeFrom(rf, diff, 3, 0, 0, out) == DecodeFrom(rf, diff, 3, 4, |rf| - 1, out');
  }

  /** The encoder or-s bitmap byte 0 into the address byte at index 2 and
      writes bitmap byte `b` at index `2 + b`, while the decoder reads its
      bitmap byte `b` at index `3 + b`.  So bit `s` of the decoder's byte
      `b`, the decoder's bit `8 * b + s`, is the encoder's flag for
      position `8 * b + s + 8`: whether `ref[i + 8 * b + s + 8]` and
      `new[j + 8 * b + s + 8]` differ. */
  lemma {:induction false} ApproxBitmapShifted(tgt: seq<byte>, rf: seq<byte>, i: nat, j: nat, mlen: nat, addr: nat, k: nat, b: nat, s: nat)
    requires 1 <= k && i + k <= |rf| && i + k <= |tgt| && j + k <= |tgt|
    requires s < 8 && b + 1 < BitmapLen(k)
    ensures var tok := ApproxToken(tgt, rf, i, j, mlen, addr, k);
      var l := 8 * b + s + 8;
      3 + b < |tok| &&
      (BitSet(tok[3 + b], s) <==> l < k && rf[i + l] != tgt[j + l])
  {
    var flags := MarkFlags(tgt, rf, i, j, k);
    RowBitShifted(ApproxHeader(mlen, addr), flags, BitmapLen(k), PatchBytes(tgt, rf, i, j, k), b, s);
  }

  /** In any approximate row, bit `s` of the byte at `3 + b` is the flag
      at `8 * b + s + 8`. */
  lemma RowBitShifted(h: seq<byte>, flags: seq<bool>, bl: nat, ps: seq<byte>, b: nat, s: nat)
    requires |h| == 3 && s < 8 && b + 1 < bl
    ensures var row := ApproxRow(h, flags, bl, ps);
      3 + b < |row| &&
      (BitSet(row[3 + b], s) <==> 8 * b + s + 8 < |flags| && flags[8 * b + s + 8])
  {
    var row := ApproxRow(h, flags, bl, ps);
    assert row[3 + b] == PackByte(flags, b + 1);
    PackByteBit(flags, b + 1, s);
  }
}
