/** The romdiff decoder `decode_diff` (lines 21-80): it replays a token
    stream against the reference image into an output buffer.

    The stream and the reference are values; the output buffer is an array
    the decoder writes in place.  Whatever the C code does that has no
    defined meaning (reading past the stream buffer or the reference,
    writing past the output buffer, `bcopy` of a negative count) ends the
    model's run with `Undefined`. */
module Decoder {
  import opened Bytes
  import opened Format

  /** How a run of the decoder ends. */
  datatype Outcome =
    | Complete                   // the stream ran out with exactly n bytes written: returns 0
    | StoppedEarly(consumed: nat) // n bytes were written before the stream ran out: returns 0
    | WrongLength(written: int)  // the stream ran out with another count written: returns -1
    | Undefined(at: nat)         // the token at `at` has no defined meaning in C

  /** The value `decode_diff` returns. */
  function ReturnValue(o: Outcome): (r: int)
    requires !o.Undefined?
    ensures r == 0 <==> !o.WrongLength?
    ensures r == -1 <==> o.WrongLength?
  {
    match o
    case Complete => 0
    case StoppedEarly(_) => 0
    case WrongLength(_) => -1
  }

  /** The decoder's state after one token: the next stream offset (after
      the `for` loop's own increment), the output offset and the output. */
  datatype Step = Next(ofs: nat, outOfs: nat, out: seq<byte>) | Fault

  datatype Patched = Patched(ofs: nat, out: seq<byte>) | PatchFault

  /** `bcopy(&ref[addr], &out[at], count)`. */
  function Copy(rf: seq<byte>, addr: nat, out: seq<byte>, at: nat, count: nat): (r: seq<byte>)
    requires addr + count <= |rf| && at + count <= |out|
    ensures |r| == |out|
    ensures forall t :: 0 <= t < |out| ==> r[t] == if at <= t < at + count then rf[addr + (t - at)] else out[t]
  {
    out[..at] + rf[addr..addr + count] + out[at + count..]
  }

  /** The bits the decoder reads from a bitmap at `bitmapOfs`: bit `i` is
      bit `i & 7` of byte `i >> 3`. */
  function BitmapBits(diff: seq<byte>, bitmapOfs: nat, count: nat): (bits: seq<bool>)
    requires bitmapOfs + BitmapLen(count) <= |diff|
    ensures |bits| == count
    ensures forall i :: 0 <= i < count ==> bits[i] == BitSet(diff[bitmapOfs + i / 8], i % 8)
  {
    seq(count, i requires 0 <= i < count => BitSet(diff[bitmapOfs + i / 8], i % 8))
  }

  /** Lines 66-71 from index `i` on: for every set bitmap bit, XOR the next
      patch byte into the output at `base + i`. */
  function Patch(diff: seq<byte>, bitmapOfs: nat, count: nat, i: nat, ofs: nat, base: nat, out: seq<byte>): (r: Patched)
    requires i <= count && base + count <= |out|
    decreases count - i
    ensures r.Patched? ==> r.ofs >= ofs && |r.out| == |out|
    ensures r.Patched? ==> forall t :: 0 <= t < |out| && !(base + i <= t < base + count) ==> r.out[t] == out[t]
  {
    if i == count then Patched(ofs, out)
    else if bitmapOfs + i / 8 >= |diff| then PatchFault
    else if BitSet(diff[bitmapOfs + i / 8], i % 8) then
      if ofs >= |diff| then PatchFault
      else Patch(diff, bitmapOfs, count, i + 1, ofs + 1, base, out[base + i := Xor(out[base + i], diff[ofs])])
    else Patch(diff, bitmapOfs, count, i + 1, ofs, base, out)
  }

  /** One pass of the loop body at stream offset `ofs` (lines 25-77). */
  function DecodeToken(rf: seq<byte>, diff: seq<byte>, ofs: nat, outOfs: nat, out: seq<byte>): (r: Step)
    ensures r.Next? ==> r.ofs > ofs && outOfs <= r.outOfs <= outOfs + 62 && |r.out| == |out|
    ensures r.Next? ==> forall t :: 0 <= t < |out| && !(outOfs <= t < r.outOfs) ==> r.out[t] == out[t]
  {
    if ofs >= |diff| then Fault
    else
      var tag := diff[ofs];
      if tag == 0x00 || tag == 0x01 then
        // Literal tags: the payload is not consumed
        Next(ofs + 1, outOfs, out)
      else if ofs + 2 >= |diff| then Fault
      else
        var addr := HeaderAddress(tag, diff[ofs + 1], diff[ofs + 2]);
        if tag < 0x80 then
          var count := ExactCount(tag);
          if addr + count > |rf| || outOfs + count > |out| then Fault
          else Next(ofs + 4, outOfs + count, Copy(rf, addr, out, outOfs, count))
        else
          var count := ApproxCount(tag);
          if count < 0 || addr + count > |rf| || outOfs + count > |out| then Fault
          else
            var bitmapOfs := ofs + 3;
            match Patch(diff, bitmapOfs, count, 0, bitmapOfs + BitmapLen(count), outOfs, Copy(rf, addr, out, outOfs, count))
            case PatchFault => Fault
            case Patched(o, out') => Next(o + 1, outOfs + count, out')
  }

  /** The rest of the run from stream offset `ofs` and output offset
      `outOfs`, with `n == |rf|` standing for FILE_SIZE. */
  function DecodeFrom(rf: seq<byte>, diff: seq<byte>, diffLen: int, ofs: nat, outOfs: nat, out: seq<byte>): (r: (Outcome, seq<byte>))
    decreases diffLen - ofs
    ensures |r.1| == |out|
    // bytes below the output cursor are final, and nothing is written at or
    // beyond `n + 62`, since a token's count is at most 62
    ensures forall t :: 0 <= t < |out| && t < outOfs ==> r.1[t] == out[t]
    ensures forall t :: |rf| + 62 <= t < |out| && outOfs <= t ==> r.1[t] == out[t]
    ensures r.0.StoppedEarly? ==> ofs <= r.0.consumed < diffLen
    ensures r.0.Undefined? ==> ofs <= r.0.at < diffLen
    ensures r.0.WrongLength? ==> r.0.written != |rf|
  {
    if ofs >= diffLen then
      (if outOfs != |rf| then WrongLength(outOfs) else Complete, out)
    else if outOfs >= |rf| then
      (StoppedEarly(ofs), out)
    else
      match DecodeToken(rf, diff, ofs, outOfs, out)
      case Fault => (Undefined(ofs), out)
      case Next(o, oo, out') => DecodeFrom(rf, diff, diffLen, o, oo, out')
  }

  /** Where the `for` loop of lines 23-73 is left: the stream offset and
      output offset it is left at, whether through the loop test
      `ofs < diff_len` or through the early `return` of line 25, or
      `Faulted` when a token before that has no defined meaning. */
  datatype LoopExit = Exit(ofs: nat, outOfs: nat) | Faulted

  ghost function LoopEnd(rf: seq<byte>, diff: seq<byte>, diffLen: int, ofs: nat, outOfs: nat, out: seq<byte>): (e: LoopExit)
    decreases diffLen - ofs
    ensures e.Exit? ==> e.ofs >= diffLen || e.outOfs >= |rf|
  {
    if ofs >= diffLen || outOfs >= |rf| then Exit(ofs, outOfs)
    else
      match DecodeToken(rf, diff, ofs, outOfs, out)
      case Fault => Faulted
      case Next(o, oo, out') => LoopEnd(rf, diff, diffLen, o, oo, out')
  }

  /** Lines 74-79 with the early return of line 25: a run that has a
      defined meaning returns -1 exactly when it read the whole stream and
      the output offset is not FILE_SIZE, and 0 exactly when it stopped
      with the output full before the end of the stream or read the whole
      stream with the output offset at FILE_SIZE. */
  lemma {:induction false} ReturnValueMeaning(rf: seq<byte>, diff: seq<byte>, diffLen: int, ofs: nat, outOfs: nat, out: seq<byte>)
    requires !DecodeFrom(rf, diff, diffLen, ofs, outOfs, out).0.Undefined?
    decreases diffLen - ofs
    ensures LoopEnd(rf, diff, diffLen, ofs, outOfs, out).Exit?
    ensures var e := LoopEnd(rf, diff, diffLen, ofs, outOfs, out);
      var r := ReturnValue(DecodeFrom(rf, diff, diffLen, ofs, outOfs, out).0);
      (r == -1 <==> e.ofs >= diffLen && e.outOfs != |rf|) &&
      (r == 0 <==> (e.ofs < diffLen && e.outOfs >= |rf|) || (e.ofs >= diffLen && e.outOfs == |rf|))
  {
    if ofs < diffLen && outOfs < |rf| {
      match DecodeToken(rf, diff, ofs, outOfs, out)
      case Next(o, oo, out') => ReturnValueMeaning(rf, diff, diffLen, o, oo, out');
    }
  }

  /** `decode_diff(ref, diff, diff_len, out)`. */
  function Decode(rf: seq<byte>, diff: seq<byte>, diffLen: int, out: seq<byte>): (r: (Outcome, seq<byte>))
    ensures |r.1| == |out|
    ensures r.0.StoppedEarly? ==> r.0.consumed < diffLen
    ensures r.0.Undefined? ==> r.0.at < diffLen
    ensures r.0.WrongLength? ==> r.0.written != |rf|
    ensures diffLen <= 0 ==> r == (if |rf| == 0 then Complete else WrongLength(0), out)
  {
    DecodeFrom(rf, diff, diffLen, 0, 0, out)
  }

  // ---------------------------------------------------------------------
  // What an approximate token does to the output

  /** Output byte `t` after patching from bitmap index `i` with patch bytes
      from `ofs`: for a set bit, `out[t]` XOR-ed with the patch byte that
      follows those of the set bits before it; otherwise `out[t]`. */
  ghost predicate PatchedByte(diff: seq<byte>, bits: seq<bool>, i: nat, ofs: nat, base: nat, out: seq<byte>, t: nat, v: byte)
    requires base + i <= t < base + |bits| && t < |out|
  {
    var before := CountTrue(bits[i..t - base]);
    if bits[t - base] then ofs + before < |diff| && v == Xor(out[t], diff[ofs + before])
    else v == out[t]
  }

  /** `out'` is `out` patched from bitmap index `i` on. */
  ghost predicate PatchedFrom(diff: seq<byte>, bits: seq<bool>, i: nat, ofs: nat, base: nat, out: seq<byte>, out': seq<byte>)
  {
    i <= |bits| && base + |bits| <= |out| && |out'| == |out| &&
    forall t :: base + i <= t < base + |bits| ==> PatchedByte(diff, bits, i, ofs, base, out, t, out'[t])
  }

  /** A patch loop outcome that used `used` patch bytes from `ofs` on, in
      a stream buffer of `size` bytes. */
  ghost predicate Consumed(r: Patched, ofs: nat, used: nat, size: nat)
  {
    (r.Patched? <==> ofs + used <= size) &&
    (r.Patched? ==> r.ofs == ofs + used)
  }

  /** From bitmap index `i` on, the patch loop consumes one patch byte per
      set bit, and fails exactly when the stream buffer runs out. */
  lemma {:induction false} PatchConsumes(diff: seq<byte>, bitmapOfs: nat, count: nat, i: nat, ofs: nat, base: nat, out: seq<byte>)
    requires i <= count && base + count <= |out| && bitmapOfs + BitmapLen(count) <= |diff| && ofs <= |diff|
    decreases count - i, 1
    ensures Consumed(Patch(diff, bitmapOfs, count, i, ofs, base, out), ofs, CountTrue(BitmapBits(diff, bitmapOfs, count)[i..]), |diff|)
  {
    var bits := BitmapBits(diff, bitmapOfs, count);
    if i == count {
      assert bits[i..] == [];
    } else if !bits[i] {
      PatchConsumesClear(diff, bitmapOfs, count, i, ofs, base, out);
    } else {
      PatchConsumesSet(diff, bitmapOfs, count, i, ofs, base, out);
    }
  }

  /** A clear bit consumes no patch byte. */
  lemma {:induction false} PatchConsumesClear(diff: seq<byte>, bitmapOfs: nat, count: nat, i: nat, ofs: nat, base: nat, out: seq<byte>)
    requires i < count && base + count <= |out| && bitmapOfs + BitmapLen(count) <= |diff| && ofs <= |diff|
    requires !BitmapBits(diff, bitmapOfs, count)[i]
    decreases count - i, 0
    ensures Consumed(Patch(diff, bitmapOfs, count, i, ofs, base, out), ofs, CountTrue(BitmapBits(diff, bitmapOfs, count)[i..]), |diff|)
  {
    var bits := BitmapBits(diff, bitmapOfs, count);
    PatchUnfold(diff, bitmapOfs, count, i, ofs, base, out);
    CountTrueFront(bits[i..]);
    assert bits[i..][1..] == bits[i + 1..];
    PatchConsumes(diff, bitmapOfs, count, i + 1, ofs, base, out);
  }

  /** A set bit consumes the patch byte at `ofs`, if there is one. */
  lemma {:induction false} PatchConsumesSet(diff: seq<byte>, bitmapOfs: nat, count: nat, i: nat, ofs: nat, base: nat, out: seq<byte>)
    requires i < count && base + count <= |out| && bitmapOfs + BitmapLen(count) <= |diff| && ofs <= |diff|
    requires BitmapBits(diff, bitmapOfs, count)[i]
    decreases count - i, 0
    ensures Consumed(Patch(diff, bitmapOfs, count, i, ofs, base, out), ofs, CountTrue(BitmapBits(diff, bitmapOfs, count)[i..]), |diff|)
  {
    var bits := BitmapBits(diff, bitmapOfs, count);
    PatchUnfold(diff, bitmapOfs, count, i, ofs, base, out);
    CountTrueFront(bits[i..]);
    assert bits[i..][1..] == bits[i + 1..];
    var rest := CountTrue(bits[i + 1..]);
    assert CountTrue(bits[i..]) == 1 + rest;
    if ofs < |diff| {
      var out' := out[base + i := Xor(out[base + i], diff[ofs])];
      PatchConsumes(diff, bitmapOfs, count, i + 1, ofs + 1, base, out');
      assert Patch(diff, bitmapOfs, count, i, ofs, base, out) == Patch(diff, bitmapOfs, count, i + 1, ofs + 1, base, out');
    }
  }

  /** One step of the patch loop, with the bitmap bit read through `BitmapBits`. */
  lemma PatchUnfold(diff: seq<byte>, bitmapOfs: nat, count: nat, i: nat, ofs: nat, base: nat, out: seq<byte>)
    requires i < count && base + count <= |out| && bitmapOfs + BitmapLen(count) <= |diff|
    ensures var bits := BitmapBits(diff, bitmapOfs, count);
      Patch(diff, bitmapOfs, count, i, ofs, base, out) ==
        if !bits[i] then Patch(diff, bitmapOfs, count, i + 1, ofs, base, out)
        else if ofs >= |diff| then PatchFault
        else Patch(diff, bitmapOfs, count, i + 1, ofs + 1, base, out[base + i := Xor(out[base + i], diff[ofs])])
  {
    BitmapByteInRange(bitmapOfs, count, i, |diff|);
  }

  /** Bitmap bit `i < count` lies in one of the `BitmapLen(count)` bytes. */
  lemma BitmapByteInRange(bitmapOfs: nat, count: nat, i: nat, size: nat)
    requires i < count && bitmapOfs + BitmapLen(count) <= size
    ensures bitmapOfs + i / 8 < size
  {
    assert i / 8 <= (count - 1) / 8;
  }

  /** When the patch loop succeeds, each output byte from `base + i` on is
      patched as `PatchedByte` says. */
  lemma {:induction false} PatchXors(diff: seq<byte>, bitmapOfs: nat, count: nat, i: nat, ofs: nat, base: nat, out: seq<byte>)
    requires i <= count && base + count <= |out| && bitmapOfs + BitmapLen(count) <= |diff|
    requires Patch(diff, bitmapOfs, count, i, ofs, base, out).Patched?
    decreases count - i
    ensures PatchedFrom(diff, BitmapBits(diff, bitmapOfs, count), i, ofs, base, out, Patch(diff, bitmapOfs, count, i, ofs, base, out).out)
  {
    var bits := BitmapBits(diff, bitmapOfs, count);
    if i < count {
      BitmapByteInRange(bitmapOfs, count, i, |diff|);
      var out1 := if bits[i] then out[base + i := Xor(out[base + i], diff[ofs])] else out;
      var ofs1 := if bits[i] then ofs + 1 else ofs;
      PatchXors(diff, bitmapOfs, count, i + 1, ofs1, base, out1);
      PatchedStep(diff, bits, i, ofs, base, out, out1, Patch(diff, bitmapOfs, count, i, ofs, base, out).out);
    }
  }

  /** Handling bit `i` first, then the rest from `i + 1`, is patching from `i`. */
  lemma PatchedStep(diff: seq<byte>, bits: seq<bool>, i: nat, ofs: nat, base: nat, out: seq<byte>, out1: seq<byte>, out': seq<byte>)
    requires i < |bits| && base + |bits| <= |out|
    requires bits[i] ==> ofs < |diff| && out1 == out[base + i := Xor(out[base + i], diff[ofs])]
    requires !bits[i] ==> out1 == out
    requires PatchedFrom(diff, bits, i + 1, if bits[i] then ofs + 1 else ofs, base, out1, out')
    requires out'[base + i] == out1[base + i]
    ensures PatchedFrom(diff, bits, i, ofs, base, out, out')
  {
    forall t | base + i <= t < base + |bits|
      ensures PatchedByte(diff, bits, i, ofs, base, out, t, out'[t])
    {
      if t == base + i {
        assert bits[i..t - base] == [];
      } else {
        CountTrueFront(bits[i..t - base]);
        assert bits[i..t - base][1..] == bits[i + 1..t - base];
        assert PatchedByte(diff, bits, i + 1, if bits[i] then ofs + 1 else ofs, base, out1, t, out'[t]);
      }
    }
  }

  /** An approximate token at `ofs` whose header, bitmap and copy are in
      range: the decoder copies `count` reference bytes, XORs in one patch
      byte per set bitmap bit, and continues one byte past the last patch
      byte; it fails exactly when the patches run past the stream buffer. */
  lemma ApproxTokenDecodes(rf: seq<byte>, diff: seq<byte>, ofs: nat, outOfs: nat, out: seq<byte>)
    requires ofs + 2 < |diff| && diff[ofs] >= 0x80
    requires var count := ApproxCount(diff[ofs]);
      count >= 0 && HeaderAddress(diff[ofs], diff[ofs + 1], diff[ofs + 2]) + count <= |rf| &&
      outOfs + count <= |out| && ofs + 3 + BitmapLen(count) <= |diff|
    ensures var count := ApproxCount(diff[ofs]);
      var addr := HeaderAddress(diff[ofs], diff[ofs + 1], diff[ofs + 2]);
      var bits := BitmapBits(diff, ofs + 3, count);
      var patches := ofs + 3 + BitmapLen(count);
      var r := DecodeToken(rf, diff, ofs, outOfs, out);
      (r.Next? <==> patches + CountTrue(bits) <= |diff|) &&
      (r.Next? ==>
        r.ofs == patches + CountTrue(bits) + 1 && r.outOfs == outOfs + count &&
        PatchedFrom(diff, bits, 0, patches, outOfs, Copy(rf, addr, out, outOfs, count), r.out))
  {
    var count := ApproxCount(diff[ofs]);
    var addr := HeaderAddress(diff[ofs], diff[ofs + 1], diff[ofs + 2]);
    var bits := BitmapBits(diff, ofs + 3, count);
    var copied := Copy(rf, addr, out, outOfs, count);
    var patches := ofs + 3 + BitmapLen(count);
    PatchConsumes(diff, ofs + 3, count, 0, patches, outOfs, copied);
    assert bits[0..] == bits;
    var p := Patch(diff, ofs + 3, count, 0, patches, outOfs, copied);
    if p.Patched? {
      PatchXors(diff, ofs + 3, count, 0, patches, outOfs, copied);
    }
    assert DecodeToken(rf, diff, ofs, outOfs, out) == if p.Patched? then Next(p.ofs + 1, outOfs + count, p.out) else Fault;
  }

  // ---------------------------------------------------------------------
  // The decoder as the C code runs it

  /** Lines 21-80.  The outcome is the specification's; so is the output,
      unless the run hit undefined behaviour part-way through a token. */
  method DecodeDiff(rf: seq<byte>, diff: seq<byte>, diffLen: int, out: array<byte>) returns (outcome: Outcome)
    modifies out
    ensures outcome == Decode(rf, diff, diffLen, old(out[..])).0
    ensures !outcome.Undefined? ==> out[..] == Decode(rf, diff, diffLen, old(out[..])).1
  {
    var outOfs: nat := 0;
    var ofs: nat := 0;
    while ofs < diffLen
      invariant DecodeFrom(rf, diff, diffLen, ofs, outOfs, out[..]) == Decode(rf, diff, diffLen, old(out[..]))
      decreases diffLen - ofs
    {
      if outOfs >= |rf| {
        return StoppedEarly(ofs);
      }
      var ok, ofs', outOfs' := DecodeOneToken(rf, diff, ofs, outOfs, out);
      if !ok {
        return Undefined(ofs);
      }
      ofs, outOfs := ofs', outOfs';
    }
    if outOfs != |rf| {
      return WrongLength(outOfs);
    }
    return Complete;
  }

  /** The loop body for the token at `ofs`, including the loop's `ofs++`. */
  method DecodeOneToken(rf: seq<byte>, diff: seq<byte>, ofs: nat, outOfs: nat, out: array<byte>)
    returns (ok: bool, ofs': nat, outOfs': nat)
    modifies out
    ensures ok <==> DecodeToken(rf, diff, ofs, outOfs, old(out[..])).Next?
    ensures ok ==> DecodeToken(rf, diff, ofs, outOfs, old(out[..])) == Next(ofs', outOfs', out[..])
  {
    if ofs >= |diff| {
      return false, 0, 0;
    }
    var tag := diff[ofs];
    if tag == 0x00 {
      // Tag 0x00: one-byte literal, which the encoder never writes
      return true, ofs + 1, outOfs;
    } else if tag == 0x01 {
      // Tag 0x01: two-byte literal
      return true, ofs + 1, outOfs;
    }
    if ofs + 2 >= |diff| {
      return false, 0, 0;
    }
    var addr := HeaderAddress(tag, diff[ofs + 1], diff[ofs + 2]);
    if tag < 0x80 {
      // Tags 0x02..0x7F: copy from the reference
      var count: int := (tag - 2) / 2;
      if addr + count > |rf| || outOfs + count > out.Length {
        return false, 0, 0;
      }
      CopyReference(rf, addr, out, outOfs, count);
      return true, ofs + 3 + 1, outOfs + count;
    }
    // Tags 0x80..0xFF: copy, then patch through the bitmap
    var count: int := (tag as int % 128 - 2) / 2;
    var bitmapLen := count / 8;
    if count % 8 != 0 {
      bitmapLen := bitmapLen + 1;
    }
    if count < 0 || addr + count > |rf| || outOfs + count > out.Length {
      return false, 0, 0;
    }
    CopyReference(rf, addr, out, outOfs, count);
    var bitmapOfs := ofs + 3;
    var patchOfs := bitmapOfs + bitmapLen;
    ok, patchOfs := PatchOutput(diff, bitmapOfs, count, patchOfs, outOfs, out);
    if !ok {
      return false, 0, 0;
    }
    return true, patchOfs + 1, outOfs + count;
  }

  /** `bcopy(&ref[addr], &out[at], count)`. */
  method CopyReference(rf: seq<byte>, addr: nat, out: array<byte>, at: nat, count: nat)
    requires addr + count <= |rf| && at + count <= out.Length
    modifies out
    ensures out[..] == Copy(rf, addr, old(out[..]), at, count)
  {
    var t := 0;
    while t < count
      invariant 0 <= t <= count
      invariant forall c :: 0 <= c < out.Length ==>
        out[c] == if at <= c < at + t then rf[addr + (c - at)] else old(out[c])
    {
      out[at + t] := rf[addr + t];
      t := t + 1;
    }
  }

  /** Lines 66-71: the patch loop. */
  method PatchOutput(diff: seq<byte>, bitmapOfs: nat, count: nat, ofs: nat, base: nat, out: array<byte>)
    returns (ok: bool, ofs': nat)
    requires base + count <= out.Length
    modifies out
    ensures ok <==> Patch(diff, bitmapOfs, count, 0, ofs, base, old(out[..])).Patched?
    ensures ok ==> Patch(diff, bitmapOfs, count, 0, ofs, base, old(out[..])) == Patched(ofs', out[..])
  {
    ofs' := ofs;
    var i := 0;
    while i < count
      invariant 0 <= i <= count
      invariant Patch(diff, bitmapOfs, count, i, ofs', base, out[..]) == Patch(diff, bitmapOfs, count, 0, ofs, base, old(out[..]))
    {
      if bitmapOfs + i / 8 >= |diff| {
        return false, 0;
      }
      if BitSet(diff[bitmapOfs + i / 8], i % 8) {
        if ofs' >= |diff| {
          return false, 0;
        }
        out[base + i] := Xor(out[base + i], diff[ofs']);
        ofs' := ofs' + 1;
      }
      i := i + 1;
    }
    return true, ofs';
  }
}
