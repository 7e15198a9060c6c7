/** The romdiff encoder: the match scanner, the backward dynamic-programming
    pass that fills the cost, transition and token tables, and the stream
    assembler that follows the transitions from offset 0.

    The C program keeps the tables in global arrays sized FILE_SIZE; here the
    image length is the field `n` of a `Tables` object, the reference and new
    images are its immutable fields, and the four tables are its arrays. */
module Encoder {
  import opened Bytes
  import opened Format
  import Chain

  /** Longest run the scanner measures. */
  const MaxRun := 64
  /** Bytes reserved for one token (`tokens[FILE_SIZE][128]`). */
  const RowSize := 128
  /** The value the reset loop stores in `costs` and `next_pos`. */
  const Unset := 999999999

  // ---------------------------------------------------------------------
  // Match scanner

  /** The exact run between `tgt[i..]` and `rf[j..]`, continued from an
      already equal prefix of length `m`, stopping at 64 bytes or at the end
      of either image. */
  function RunFrom(tgt: seq<byte>, rf: seq<byte>, i: nat, j: nat, m: nat): (r: nat)
    requires m <= MaxRun && i + m <= |tgt| && j + m <= |rf|
    requires forall t :: i <= t < i + m ==> tgt[t] == rf[j + (t - i)]
    decreases MaxRun - m
    ensures m <= r <= MaxRun && i + r <= |tgt| && j + r <= |rf|
    ensures forall t :: i <= t < i + r ==> tgt[t] == rf[j + (t - i)]
    ensures r < MaxRun && i + r < |tgt| && j + r < |rf| ==> tgt[i + r] != rf[j + r]
  {
    if m < MaxRun && i + m < |tgt| && j + m < |rf| && tgt[i + m] == rf[j + m] then
      RunFrom(tgt, rf, i, j, m + 1)
    else
      m
  }

  /** The length of the common prefix of `tgt[i..]` and `rf[j..]`, capped
      at 64. */
  function Run(tgt: seq<byte>, rf: seq<byte>, i: nat, j: nat): (r: nat)
    requires i <= |tgt| && j <= |rf|
    ensures r <= MaxRun && i + r <= |tgt| && j + r <= |rf|
  {
    RunFrom(tgt, rf, i, j, 0)
  }

  /** The run is a common prefix that cannot be extended: it ends at 64
      bytes, at the end of either image, or at a differing byte. */
  lemma RunIsLongestPrefix(tgt: seq<byte>, rf: seq<byte>, i: nat, j: nat)
    requires i <= |tgt| && j <= |rf|
    ensures var r := Run(tgt, rf, i, j);
      (forall t :: i <= t < i + r ==> tgt[t] == rf[j + (t - i)]) &&
      (r < MaxRun && i + r < |tgt| && j + r < |rf| ==> tgt[i + r] != rf[j + r])
  {
  }

  /** The inner `while (mlen < 64)` loop of the scanner. */
  method MatchLength(tgt: seq<byte>, rf: seq<byte>, i: nat, j: nat) returns (mlen: nat)
    requires i <= |tgt| && j <= |rf|
    ensures mlen == Run(tgt, rf, i, j)
  {
    mlen := 0;
    while mlen < MaxRun
      invariant mlen <= MaxRun && i + mlen <= |tgt| && j + mlen <= |rf|
      invariant forall t :: i <= t < i + mlen ==> tgt[t] == rf[j + (t - i)]
      invariant RunFrom(tgt, rf, i, j, mlen) == Run(tgt, rf, i, j)
    {
      if i + mlen >= |tgt| { break; }
      if j + mlen >= |rf| { break; }
      if tgt[i + mlen] != rf[j + mlen] { break; }
      mlen := mlen + 1;
    }
  }

  /** The scanner's state after the reference offsets `0..j-1`: `bestLen`
      is the longest run seen, below 64, and `bestAddr` the lowest offset
      with that run (0 when nothing matched). */
  ghost predicate ScanState(tgt: seq<byte>, rf: seq<byte>, i: nat, j: nat, bestLen: nat, bestAddr: nat)
    requires |rf| == |tgt| && i < |tgt| && j <= |tgt|
  {
    bestLen < MaxRun &&
    (bestLen == 0 ==> bestAddr == 0) &&
    (bestLen > 0 ==> bestAddr < j && Run(tgt, rf, i, bestAddr) == bestLen) &&
    (forall j' :: 0 <= j' < j ==> Run(tgt, rf, i, j') <= bestLen) &&
    (forall j' :: 0 <= j' < bestAddr ==> Run(tgt, rf, i, j') < bestLen)
  }

  /** The scan's result at offset `i`: `bestLen` is the longest run over
      every reference offset, and `bestAddr` the lowest offset that has
      it. */
  ghost predicate ScanResult(tgt: seq<byte>, rf: seq<byte>, i: nat, bestLen: nat, bestAddr: nat)
    requires |rf| == |tgt| && i < |tgt|
  {
    bestLen <= MaxRun &&
    (bestLen == 0 ==> bestAddr == 0) &&
    (bestLen > 0 ==> bestAddr < |tgt| && Run(tgt, rf, i, bestAddr) == bestLen) &&
    (forall j :: 0 <= j < |tgt| ==> Run(tgt, rf, i, j) <= bestLen) &&
    (forall j :: 0 <= j < bestAddr ==> Run(tgt, rf, i, j) < bestLen)
  }

  /** `a` is the lowest reference offset among `0..j` whose run at `p` is
      the longest there: the scanner's `best_addr` once it has examined
      offset `j`. */
  ghost predicate LowestLongest(tgt: seq<byte>, rf: seq<byte>, p: nat, j: nat, a: nat)
    requires |rf| == |tgt| && p < |tgt| && j < |tgt|
  {
    a <= j &&
    (forall j' :: 0 <= j' <= j ==> Run(tgt, rf, p, j') <= Run(tgt, rf, p, a)) &&
    (forall j' :: 0 <= j' < a ==> Run(tgt, rf, p, j') < Run(tgt, rf, p, a))
  }

  /** While the scan runs, every offset it has examined had a run shorter
      than 64 bytes, so it reaches the next one. */
  lemma ScanReaches(tgt: seq<byte>, rf: seq<byte>, i: nat, j: nat, bestLen: nat, bestAddr: nat)
    requires |rf| == |tgt| && i < |tgt| && j < |tgt|
    requires ScanState(tgt, rf, i, j, bestLen, bestAddr)
    ensures Reaches(tgt, rf, i, j)
  {
  }

  /** After offset `j`, the scanner's best address is the lowest among
      `0..j` with the longest run. */
  lemma ScanLeads(tgt: seq<byte>, rf: seq<byte>, i: nat, j: nat, bestLen: nat, bestAddr: nat)
    requires |rf| == |tgt| && i < |tgt| && j < |tgt|
    requires ScanState(tgt, rf, i, j + 1, bestLen, bestAddr)
    ensures LowestLongest(tgt, rf, i, j, bestAddr)
  {
    if bestLen == 0 {
      assert Run(tgt, rf, i, 0) <= 0;
    }
  }

  /** At the end of the scan, a non-empty best run starts at the lowest
      reference offset with the longest run. */
  lemma ScanResultLeads(tgt: seq<byte>, rf: seq<byte>, i: nat, bestLen: nat, bestAddr: nat)
    requires |rf| == |tgt| && i < |tgt|
    requires ScanResult(tgt, rf, i, bestLen, bestAddr) && bestLen > 0
    ensures LowestLongest(tgt, rf, i, |tgt| - 1, bestAddr) && Run(tgt, rf, i, bestAddr) == bestLen
  {
  }

  /** Lines 159-165 for one reference offset: a strictly longer run
      replaces the best one. */
  lemma ScanStep(tgt: seq<byte>, rf: seq<byte>, i: nat, j: nat, bestLen: nat, bestAddr: nat)
    requires |rf| == |tgt| && i < |tgt| && j < |tgt|
    requires ScanState(tgt, rf, i, j, bestLen, bestAddr)
    ensures var m := Run(tgt, rf, i, j);
      if m > bestLen then
        (m < MaxRun ==> ScanState(tgt, rf, i, j + 1, m, j)) &&
        (m == MaxRun ==> ScanResult(tgt, rf, i, m, j))
      else ScanState(tgt, rf, i, j + 1, bestLen, bestAddr)
    ensures Reaches(tgt, rf, i, j)
    ensures var m := Run(tgt, rf, i, j);
      m < MaxRun ==> LowestLongest(tgt, rf, i, j, if m > bestLen then j else bestAddr)
  {
    ScanReaches(tgt, rf, i, j, bestLen, bestAddr);
    var m := Run(tgt, rf, i, j);
    if m <= bestLen {
      ScanKeep(tgt, rf, i, j, bestLen, bestAddr);
      ScanLeads(tgt, rf, i, j, bestLen, bestAddr);
    } else if m < MaxRun {
      ScanAdopt(tgt, rf, i, j, bestLen, bestAddr);
      ScanLeads(tgt, rf, i, j, m, j);
    } else {
      ScanFull(tgt, rf, i, j, bestLen, bestAddr);
    }
  }

  lemma ScanKeep(tgt: seq<byte>, rf: seq<byte>, i: nat, j: nat, bestLen: nat, bestAddr: nat)
    requires |rf| == |tgt| && i < |tgt| && j < |tgt|
    requires ScanState(tgt, rf, i, j, bestLen, bestAddr) && Run(tgt, rf, i, j) <= bestLen
    ensures ScanState(tgt, rf, i, j + 1, bestLen, bestAddr)
  {
    forall j' | 0 <= j' < j + 1 ensures Run(tgt, rf, i, j') <= bestLen {
      if j' < j { assert Run(tgt, rf, i, j') <= bestLen; }
    }
  }

  lemma ScanAdopt(tgt: seq<byte>, rf: seq<byte>, i: nat, j: nat, bestLen: nat, bestAddr: nat)
    requires |rf| == |tgt| && i < |tgt| && j < |tgt|
    requires ScanState(tgt, rf, i, j, bestLen, bestAddr)
    requires bestLen < Run(tgt, rf, i, j) < MaxRun
    ensures ScanState(tgt, rf, i, j + 1, Run(tgt, rf, i, j), j)
  {
  }

  lemma ScanFull(tgt: seq<byte>, rf: seq<byte>, i: nat, j: nat, bestLen: nat, bestAddr: nat)
    requires |rf| == |tgt| && i < |tgt| && j < |tgt|
    requires ScanState(tgt, rf, i, j, bestLen, bestAddr) && Run(tgt, rf, i, j) == MaxRun
    ensures ScanResult(tgt, rf, i, MaxRun, j)
  {
  }

  lemma ScanDone(tgt: seq<byte>, rf: seq<byte>, i: nat, bestLen: nat, bestAddr: nat)
    requires |rf| == |tgt| && i < |tgt|
    requires ScanState(tgt, rf, i, |tgt|, bestLen, bestAddr)
    ensures ScanResult(tgt, rf, i, bestLen, bestAddr)
  {
  }

  /** The run found at `bestAddr` matches byte for byte. */
  lemma ScanMatches(tgt: seq<byte>, rf: seq<byte>, i: nat, bestLen: nat, bestAddr: nat)
    requires |rf| == |tgt| && i < |tgt|
    requires ScanResult(tgt, rf, i, bestLen, bestAddr)
    ensures i + bestLen <= |tgt| && bestAddr + bestLen <= |tgt|
    ensures forall t :: i <= t < i + bestLen ==> tgt[t] == rf[bestAddr + (t - i)]
  {
  }

  // ---------------------------------------------------------------------
  // Approximate-match candidates

  /** The size estimate `enc_len` the scanner has reached after extension
      length `k` of a candidate whose exact run is `mlen`: 3 header bytes,
      plus one for every mismatch at positions `mlen..k`, plus one for every
      position `t` in `mlen..k` with `t & 7 == 1`. */
  function ApproxEstimate(tgt: seq<byte>, rf: seq<byte>, i: nat, j: nat, mlen: nat, k: nat): (e: int)
    requires mlen <= k && i + k < |tgt| && j + k < |rf|
    decreases k - mlen
    ensures 3 <= e <= 3 + 2 * (k - mlen + 1)
  {
    var step := (if tgt[i + k] != rf[j + k] then 1 else 0) + (if k % 8 == 1 then 1 else 0);
    (if k == mlen then 3 else ApproxEstimate(tgt, rf, i, j, mlen, k - 1)) + step
  }

  /** The positions `t` in `lo..hi-1` where the estimate sees a mismatch,
      `new[i + t] != ref[j + t]`. */
  function EstimateFlags(tgt: seq<byte>, rf: seq<byte>, i: nat, j: nat, lo: nat, hi: nat): (f: seq<bool>)
    requires lo <= hi && i + hi <= |tgt| && j + hi <= |rf|
    ensures |f| == hi - lo
    ensures forall t :: 0 <= t < hi - lo ==> (f[t] <==> tgt[i + lo + t] != rf[j + lo + t])
  {
    seq(hi - lo, t requires 0 <= t < hi - lo => tgt[i + lo + t] != rf[j + lo + t])
  }

  /** How many positions `t` in `lo..hi-1` have `t & 7 == 1`. */
  function BitmapStarts(lo: nat, hi: nat): (c: nat)
    decreases hi
    ensures c <= hi - lo || hi < lo
  {
    if hi <= lo then 0 else BitmapStarts(lo, hi - 1) + (if (hi - 1) % 8 == 1 then 1 else 0)
  }

  /** The estimate in closed form: 3, plus the mismatches the estimate sees
      at positions `mlen..k`, plus the positions in `mlen..k` with
      `t & 7 == 1`. */
  lemma {:induction false} ApproxEstimateCounts(tgt: seq<byte>, rf: seq<byte>, i: nat, j: nat, mlen: nat, k: nat)
    requires mlen <= k && i + k < |tgt| && j + k < |rf|
    decreases k - mlen
    ensures ApproxEstimate(tgt, rf, i, j, mlen, k) ==
      3 + CountTrue(EstimateFlags(tgt, rf, i, j, mlen, k + 1)) + BitmapStarts(mlen, k + 1)
  {
    var f := EstimateFlags(tgt, rf, i, j, mlen, k + 1);
    var before := EstimateFlags(tgt, rf, i, j, mlen, k);
    assert f[..|f| - 1] == before;
    assert CountTrue(f) == CountTrue(before) + (if tgt[i + k] != rf[j + k] then 1 else 0);
    if k > mlen {
      ApproxEstimateCounts(tgt, rf, i, j, mlen, k - 1);
    }
  }

  /** The positions the encoder marks in an approximate token's bitmap: it
      compares `ref[i + l]` with `new[j + l]`. */
  function MarkFlags(tgt: seq<byte>, rf: seq<byte>, i: nat, j: nat, k: nat): (f: seq<bool>)
    requires i + k <= |rf| && j + k <= |tgt|
    ensures |f| == k
    ensures forall l :: 0 <= l < k ==> (f[l] <==> rf[i + l] != tgt[j + l])
  {
    seq(k, l requires 0 <= l < k => rf[i + l] != tgt[j + l])
  }

  /** The patch bytes the encoder writes for the first `l` positions: one
      `ref[i + p] ^ new[i + p]` per marked position `p`, in ascending order. */
  function PatchBytes(tgt: seq<byte>, rf: seq<byte>, i: nat, j: nat, l: nat): (ps: seq<byte>)
    requires i + l <= |rf| && i + l <= |tgt| && j + l <= |tgt|
    ensures |ps| <= l
  {
    if l == 0 then []
    else
      var p := l - 1;
      PatchBytes(tgt, rf, i, j, p) + (if rf[i + p] != tgt[j + p] then [Xor(rf[i + p], tgt[i + p])] else [])
  }

  /** There is one patch byte per marked position. */
  lemma {:induction false} PatchBytesCount(tgt: seq<byte>, rf: seq<byte>, i: nat, j: nat, l: nat)
    requires i + l <= |rf| && i + l <= |tgt| && j + l <= |tgt|
    ensures |PatchBytes(tgt, rf, i, j, l)| == CountTrue(MarkFlags(tgt, rf, i, j, l))
  {
    if l > 0 {
      PatchBytesCount(tgt, rf, i, j, l - 1);
      assert MarkFlags(tgt, rf, i, j, l)[..l - 1] == MarkFlags(tgt, rf, i, j, l - 1);
    }
  }

  /** Byte `c` of an approximate token's row: the header, with bitmap byte 0
      or-ed into the address byte at index 2, bitmap bytes `1..bl-1` at
      `3..bl+1`, the cleared but never written byte at `2 + bl`, then the
      patch bytes. */
  function ApproxCell(h: seq<byte>, flags: seq<bool>, bl: nat, ps: seq<byte>, c: nat): (x: byte)
    requires |h| == 3 && c < 3 + bl + |ps|
  {
    if c < 2 then h[c]
    else if c == 2 then Or(h[2], PackByte(flags, 0))
    else if c < 2 + bl then PackByte(flags, c - 2)
    else if c == 2 + bl then 0
    else ps[c - 3 - bl]
  }

  function ApproxRow(h: seq<byte>, flags: seq<bool>, bl: nat, ps: seq<byte>): (row: seq<byte>)
    requires |h| == 3
    ensures |row| == 3 + bl + |ps|
    ensures forall c :: 0 <= c < |row| ==> row[c] == ApproxCell(h, flags, bl, ps, c)
  {
    seq(3 + bl + |ps|, c requires 0 <= c < 3 + bl + |ps| => ApproxCell(h, flags, bl, ps, c))
  }

  /** The approximate token as the encoder lays it out in its row: header,
      then the bitmap written one byte early (byte 0 of the bitmap is or-ed
      into the address byte at index 2), a zero byte at index
      `2 + bitmap_len` that was cleared but never set, then the patches. */
  function ApproxToken(tgt: seq<byte>, rf: seq<byte>, i: nat, j: nat, mlen: nat, addr: nat, k: nat): (tok: seq<byte>)
    requires 1 <= k && i + k <= |rf| && i + k <= |tgt| && j + k <= |tgt|
    ensures |tok| == 3 + BitmapLen(k) + |PatchBytes(tgt, rf, i, j, k)|
  {
    ApproxRow(ApproxHeader(mlen, addr), MarkFlags(tgt, rf, i, j, k), BitmapLen(k), PatchBytes(tgt, rf, i, j, k))
  }

  /** The estimate is not the length of the token it prices: with
      `new = [7, 1, 2]`, `ref = [7, 0, 0]`, a run of 1 at offset 0 and
      extension 1, it charges the mismatch at position 1, which the 1-byte
      token does not cover (5 against 4); with `new = [1, 2, 3, 9]`,
      `ref = [7, 1, 2, 4]`, the run of 2 from offset 0 to reference offset
      1 and extension 2, it misses the two positions the bitmap marks when
      it compares `ref[i + l]` with `new[j + l]` (4 against 6). */
  lemma EstimateIsNotTokenLength()
    ensures var tgt: seq<byte>, rf: seq<byte> := [7, 1, 2], [7, 0, 0];
      Run(tgt, rf, 0, 0) == 1 &&
      ApproxEstimate(tgt, rf, 0, 0, 1, 1) == 5 && |ApproxToken(tgt, rf, 0, 0, 1, 0, 1)| == 4
    ensures var tgt: seq<byte>, rf: seq<byte> := [1, 2, 3, 9], [7, 1, 2, 4];
      Run(tgt, rf, 0, 1) == 2 &&
      ApproxEstimate(tgt, rf, 0, 1, 2, 2) == 4 && |ApproxToken(tgt, rf, 0, 1, 2, 0, 2)| == 6
  {
    var tgt: seq<byte>, rf: seq<byte> := [7, 1, 2], [7, 0, 0];
    assert RunFrom(tgt, rf, 0, 0, 1) == 1;
    assert PatchBytes(tgt, rf, 0, 0, 1) == [];
    tgt, rf := [1, 2, 3, 9], [7, 1, 2, 4];
    assert RunFrom(tgt, rf, 0, 1, 2) == 2;
    assert RunFrom(tgt, rf, 0, 1, 1) == 2;
    assert |PatchBytes(tgt, rf, 0, 1, 2)| == 2;
  }

  /** Comparing one more position: an unmarked position changes nothing; a
      marked one sets its bit in bitmap byte `l >> 3` (found at row index
      `2 + (l >> 3)`) and appends its patch byte. */
  lemma ApproxRowStep(h: seq<byte>, flags: seq<bool>, l: nat, bl: nat, ps: seq<byte>, x: byte)
    requires |h| == 3 && l < |flags| && l / 8 < bl
    ensures !flags[l] ==> ApproxRow(h, flags[..l + 1], bl, ps) == ApproxRow(h, flags[..l], bl, ps)
    ensures flags[l] ==>
      var row := ApproxRow(h, flags[..l], bl, ps);
      ApproxRow(h, flags[..l + 1], bl, ps + [x]) == row[2 + l / 8 := Or(row[2 + l / 8], Bit(l % 8))] + [x]
  {
    PackStep(flags, l, h[2]);
    if flags[l] {
      var row := ApproxRow(h, flags[..l], bl, ps);
      var row' := ApproxRow(h, flags[..l + 1], bl, ps + [x]);
      var upd := row[2 + l / 8 := Or(row[2 + l / 8], Bit(l % 8))] + [x];
      forall c | 0 <= c < |row'| ensures row'[c] == upd[c] {
        if c == 3 + bl + |ps| {
        } else if c > 2 + bl {
          assert (ps + [x])[c - 3 - bl] == ps[c - 3 - bl];
        }
      }
    } else {
      var row := ApproxRow(h, flags[..l], bl, ps);
      var row' := ApproxRow(h, flags[..l + 1], bl, ps);
      forall c | 0 <= c < |row'| ensures row'[c] == row[c] {
      }
    }
  }

  /** One more position of the comparison: the bitmap byte that holds its
      bit gains that bit if the position is marked; no other byte changes. */
  lemma PackStep(flags: seq<bool>, l: nat, h2: byte)
    requires l < |flags|
    ensures forall b: nat :: b != l / 8 ==> PackByte(flags[..l + 1], b) == PackByte(flags[..l], b)
    ensures flags[l] ==> PackByte(flags[..l + 1], l / 8) == Or(PackByte(flags[..l], l / 8), Bit(l % 8))
    ensures !flags[l] ==> PackByte(flags[..l + 1], l / 8) == PackByte(flags[..l], l / 8)
    ensures l / 8 == 0 && flags[l] ==> Or(h2, PackByte(flags[..l + 1], 0)) == Or(Or(h2, PackByte(flags[..l], 0)), Bit(l % 8))
  {
    assert flags[..l + 1][..l] == flags[..l];
    forall b: nat | true ensures PackByte(flags[..l + 1], b) == Or(PackByte(flags[..l], b), if flags[l] && l / 8 == b then Bit(l % 8) else 0) {
    }
    forall b: nat | true ensures Or(PackByte(flags[..l], b), 0) == PackByte(flags[..l], b) {
      OrZero(PackByte(flags[..l], b));
    }
    OrAssoc(h2, PackByte(flags[..l], 0), Bit(l % 8));
  }

  // ---------------------------------------------------------------------
  // What each table row holds

  /** The candidate that a row of the tables currently holds: the ghost
      record of which branch of the C code wrote the row. */
  datatype Choice =
    | Literal
    | Exact(addr: nat)
    | Approx(addr: nat, mlen: nat, from: nat, enc: int)

  /** The size estimate the cost model charges for a token. */
  function Estimate(c: Choice): (e: int)
  {
    match c
    case Literal => 2
    case Exact(_) => 3
    case Approx(_, _, _, enc) => enc
  }

  function Estimates(cs: seq<Choice>): (es: seq<int>)
    ensures |es| == |cs| && forall p :: 0 <= p < |cs| ==> es[p] == Estimate(cs[p])
  {
    seq(|cs|, p requires 0 <= p < |cs| => Estimate(cs[p]))
  }

  /** The facts that make candidate `c` at offset `p`, moving to `q`, a
      faithful description of the target. */
  ghost predicate ChoiceOk(tgt: seq<byte>, rf: seq<byte>, p: nat, c: Choice, q: int)
    requires |tgt| == |rf| && p < |tgt|
  {
    var n := |tgt|;
    match c
    case Literal => q == p + 1
    case Exact(addr) =>
      p < q <= n && addr + (q - p) <= n &&
      forall t :: p <= t < q ==> tgt[t] == rf[addr + (t - p)]
    case Approx(addr, mlen, j, enc) =>
      1 <= mlen <= q - p < MaxRun && q < n && j + (q - p) < n && addr < n &&
      mlen == Run(tgt, rf, p, j) &&
      enc == ApproxEstimate(tgt, rf, p, j, mlen, q - p)
  }

  /** The bytes the encoder wrote for candidate `c` at offset `p`. */
  ghost function ChoiceToken(tgt: seq<byte>, rf: seq<byte>, p: nat, c: Choice, q: int): (tok: seq<byte>)
    requires |tgt| == |rf| && p < |tgt| && ChoiceOk(tgt, rf, p, c, q)
  {
    match c
    case Literal => [0x00, Xor(tgt[p], rf[p])]
    case Exact(addr) => ExactHeader(q - p, addr)
    case Approx(addr, mlen, j, _) => ApproxToken(tgt, rf, p, j, mlen, addr, q - p)
  }

  /** The stream assembler's outcome: success, or the offset at which it
      found a transition out of bounds, a backward transition, or a token
      that would not fit the diff buffer. */
  datatype AssembleStatus =
    | Assembled
    | OutOfBounds(at: nat)
    | Backwards(at: nat)
    | Overflow(at: nat)

  // ---------------------------------------------------------------------
  // What a settled table row says, on the values of the tables

  /** Row `p` is complete: it moves forward by 1 to 64 bytes, its cost is
      its token's estimate plus the cost of where it leads, it is no worse
      than the literal fallback, and its token bytes are those of its
      candidate, at most 4 bytes per covered byte and within the row. */
  ghost predicate RowOk(tgt: seq<byte>, rf: seq<byte>, costs: seq<int>, p: nat, c: Choice, q: int, len: int, row: seq<byte>)
    requires |rf| == |tgt| && |costs| == |tgt| + 1 && p < |tgt|
  {
    p < q <= |tgt| && q - p <= MaxRun &&
    ChoiceOk(tgt, rf, p, c, q) &&
    costs[p] == Estimate(c) + costs[q] &&
    costs[p] <= costs[p + 1] + 2 &&
    var tok := ChoiceToken(tgt, rf, p, c, q);
    len == |tok| && |tok| <= 4 * (q - p) && |tok| <= |row| &&
    forall t :: 0 <= t < |tok| ==> row[t] == tok[t]
  }

  /** The row an exact match leaves behind. */
  lemma ExactRowOk(tgt: seq<byte>, rf: seq<byte>, costs: seq<int>, p: nat, len: nat, addr: nat, row: seq<byte>)
    requires |rf| == |tgt| && |costs| == |tgt| + 1 && p < |tgt|
    requires 1 <= len <= MaxRun && p + len <= |tgt| && addr + len <= |tgt|
    requires forall t :: p <= t < p + len ==> tgt[t] == rf[addr + (t - p)]
    requires costs[p] == costs[p + len] + 3 && costs[p] <= costs[p + 1] + 2
    requires |row| == RowSize && row[..3] == ExactHeader(len, addr)
    ensures RowOk(tgt, rf, costs, p, Exact(addr), p + len, 3, row)
  {
    assert ChoiceOk(tgt, rf, p, Exact(addr), p + len);
    var tok := ChoiceToken(tgt, rf, p, Exact(addr), p + len);
    assert tok == row[..3];
    assert forall t :: 0 <= t < 3 ==> row[t] == tok[t];
  }

  /** The row an approximate match leaves behind: its token needs at most
      4 bytes per covered byte because a one-byte extension is never
      adopted. */
  lemma ApproxRowOk(tgt: seq<byte>, rf: seq<byte>, costs: seq<int>, p: nat, j: nat, mlen: nat, addr: nat, k: nat, enc: int, row: seq<byte>, len: int)
    requires |rf| == |tgt| && |costs| == |tgt| + 1 && p < |tgt|
    requires 1 <= mlen <= k < MaxRun && p + k < |tgt| && j + k < |tgt| && addr < |tgt|
    requires mlen == Run(tgt, rf, p, j) && enc == ApproxEstimate(tgt, rf, p, j, mlen, k)
    requires costs[p] == costs[p + k] + enc && costs[p] < costs[p + 1] + 2
    requires var tok := ApproxToken(tgt, rf, p, j, mlen, addr, k);
      |row| == RowSize && len == |tok| && forall c :: 0 <= c < |tok| ==> row[c] == tok[c]
    ensures RowOk(tgt, rf, costs, p, Approx(addr, mlen, j, enc), p + k, len, row)
  {
    assert k >= 2;
    assert ChoiceOk(tgt, rf, p, Approx(addr, mlen, j, enc), p + k);
    var tok := ApproxToken(tgt, rf, p, j, mlen, addr, k);
    assert |tok| <= 3 + BitmapLen(k) + k;
  }

  /** Offset `p` costs no more than any exact candidate of length `1..m`. */
  ghost predicate BeatsExact(costs: seq<int>, p: nat, m: nat)
    requires p + m < |costs|
  {
    forall q :: p < q <= p + m ==> costs[p] <= costs[q] + 3
  }

  lemma BeatsExactStep(costs: seq<int>, p: nat, m: nat)
    requires 1 <= m && p + m < |costs| && BeatsExact(costs, p, m - 1) && costs[p] <= costs[p + m] + 3
    ensures BeatsExact(costs, p, m)
  {
  }

  /** Offset `p` costs no more than any approximate candidate the scanner
      derives from reference offset `j`. */
  ghost predicate BeatsApprox(tgt: seq<byte>, rf: seq<byte>, costs: seq<int>, p: nat, j: nat)
    requires |rf| == |tgt| && |costs| == |tgt| + 1 && p < |tgt| && j < |tgt|
  {
    var m := Run(tgt, rf, p, j);
    m > 0 ==>
      forall k :: m <= k < MaxRun && p + k < |tgt| && j + k < |tgt| ==>
        costs[p] <= ApproxEstimate(tgt, rf, p, j, m, k) + costs[p + k]
  }

  /** Offset `p` costs no more than the extensions `mlen..k-1` of the
      approximate candidate at `j`. */
  ghost predicate BeatsApproxBelow(tgt: seq<byte>, rf: seq<byte>, costs: seq<int>, p: nat, j: nat, mlen: nat, k: nat)
    requires |rf| == |tgt| && |costs| == |tgt| + 1 && p < |tgt| && j < |tgt|
  {
    forall k' :: mlen <= k' < k && k' < MaxRun && p + k' < |tgt| && j + k' < |tgt| ==>
      costs[p] <= ApproxEstimate(tgt, rf, p, j, mlen, k') + costs[p + k']
  }

  /** One more extension examined. */
  lemma BeatsApproxBelowStep(tgt: seq<byte>, rf: seq<byte>, costs: seq<int>, p: nat, j: nat, mlen: nat, k: nat)
    requires |rf| == |tgt| && |costs| == |tgt| + 1 && p < |tgt| && j < |tgt|
    requires mlen <= k < MaxRun && p + k < |tgt| && j + k < |tgt|
    requires BeatsApproxBelow(tgt, rf, costs, p, j, mlen, k)
    requires costs[p] <= ApproxEstimate(tgt, rf, p, j, mlen, k) + costs[p + k]
    ensures BeatsApproxBelow(tgt, rf, costs, p, j, mlen, k + 1)
  {
  }

  /** Lowering the cost at `p` keeps it below the extensions it beat. */
  lemma BeatsApproxBelowKept(tgt: seq<byte>, rf: seq<byte>, costs: seq<int>, costs': seq<int>, p: nat, j: nat, mlen: nat, k: nat)
    requires |rf| == |tgt| && |costs| == |tgt| + 1 && |costs'| == |tgt| + 1 && p < |tgt| && j < |tgt|
    requires BeatsApproxBelow(tgt, rf, costs, p, j, mlen, k)
    requires costs'[p] <= costs[p] && forall q :: p < q <= |tgt| ==> costs'[q] == costs[q]
    ensures BeatsApproxBelow(tgt, rf, costs', p, j, mlen, k)
  {
  }

  /** The extension loop stops at 64, or at the end of either image: by
      then every extension has been examined. */
  lemma BeatsApproxBelowDone(tgt: seq<byte>, rf: seq<byte>, costs: seq<int>, p: nat, j: nat, mlen: nat, k: nat)
    requires |rf| == |tgt| && |costs| == |tgt| + 1 && p < |tgt| && j < |tgt|
    requires mlen == Run(tgt, rf, p, j) && mlen >= 1
    requires k >= MaxRun || p + k >= |tgt| || j + k >= |tgt|
    requires BeatsApproxBelow(tgt, rf, costs, p, j, mlen, k)
    ensures BeatsApprox(tgt, rf, costs, p, j)
  {
  }

  /** The estimate after one more extension. */
  lemma ApproxEstimateStep(tgt: seq<byte>, rf: seq<byte>, i: nat, j: nat, mlen: nat, k: nat, e: int)
    requires mlen <= k && i + k < |tgt| && j + k < |rf|
    requires e == EstimateBefore(tgt, rf, i, j, mlen, k)
    ensures e + (if tgt[i + k] != rf[j + k] then 1 else 0) + (if k % 8 == 1 then 1 else 0) == ApproxEstimate(tgt, rf, i, j, mlen, k)
  {
  }

  /** The estimate of extension `k` is the one before extension `k + 1`. */
  lemma EstimateBeforeNext(tgt: seq<byte>, rf: seq<byte>, i: nat, j: nat, mlen: nat, k: nat, k': nat, e: int)
    requires mlen <= k && k' == k + 1 && i + k < |tgt| && j + k < |rf|
    requires e == ApproxEstimate(tgt, rf, i, j, mlen, k)
    ensures e == EstimateBefore(tgt, rf, i, j, mlen, k')
  {
  }

  /** The estimate before extension `k` is considered: 3 for the first
      one, else the estimate of extension `k - 1`. */
  ghost function EstimateBefore(tgt: seq<byte>, rf: seq<byte>, i: nat, j: nat, mlen: nat, k: nat): (e: int)
    requires mlen <= k && i + k <= |tgt| && j + k <= |rf|
  {
    if k == mlen then 3 else ApproxEstimate(tgt, rf, i, j, mlen, k - 1)
  }

  /** The scan at offset `p` gets as far as reference offset `j`: it stops
      right after the first 64-byte run. */
  ghost predicate Reaches(tgt: seq<byte>, rf: seq<byte>, p: nat, j: nat)
    requires |rf| == |tgt| && p < |tgt| && j <= |tgt|
  {
    forall j' :: 0 <= j' < j ==> Run(tgt, rf, p, j') < MaxRun
  }

  /** Offset `p` is at least as cheap as every candidate the scanner
      examined: every exact run, and every approximate extension of the
      reference offsets the scan reached. */
  ghost predicate Cheapest(tgt: seq<byte>, rf: seq<byte>, costs: seq<int>, p: nat)
    requires |rf| == |tgt| && |costs| == |tgt| + 1 && p < |tgt|
  {
    (forall j :: 0 <= j < |tgt| ==> BeatsExact(costs, p, Run(tgt, rf, p, j))) &&
    ApproxScanned(tgt, rf, costs, p, |tgt|)
  }

  /** Every approximate candidate from the reference offsets before `j` that
      the scan reached has been beaten. */
  ghost predicate ApproxScanned(tgt: seq<byte>, rf: seq<byte>, costs: seq<int>, p: nat, j: nat)
    requires |rf| == |tgt| && |costs| == |tgt| + 1 && p < |tgt| && j <= |tgt|
  {
    forall j' :: 0 <= j' < j && Reaches(tgt, rf, p, j') ==> BeatsApprox(tgt, rf, costs, p, j')
  }

  lemma ApproxScannedStep(tgt: seq<byte>, rf: seq<byte>, costs: seq<int>, p: nat, j: nat)
    requires |rf| == |tgt| && |costs| == |tgt| + 1 && p < |tgt| && j < |tgt|
    requires ApproxScanned(tgt, rf, costs, p, j) && BeatsApprox(tgt, rf, costs, p, j)
    ensures ApproxScanned(tgt, rf, costs, p, j + 1)
  {
  }

  /** A reference offset without even a one-byte run has no approximate
      candidate. */
  lemma NoApproxCandidate(tgt: seq<byte>, rf: seq<byte>, costs: seq<int>, p: nat, j: nat)
    requires |rf| == |tgt| && |costs| == |tgt| + 1 && p < |tgt| && j < |tgt|
    requires Run(tgt, rf, p, j) == 0
    ensures BeatsApprox(tgt, rf, costs, p, j)
  {
  }

  lemma ApproxScannedKept(tgt: seq<byte>, rf: seq<byte>, costs: seq<int>, costs': seq<int>, p: nat, j: nat)
    requires |rf| == |tgt| && |costs| == |tgt| + 1 && |costs'| == |tgt| + 1 && p < |tgt| && j <= |tgt|
    requires ApproxScanned(tgt, rf, costs, p, j)
    requires costs'[p] <= costs[p] && forall q :: p < q <= |tgt| ==> costs'[q] == costs[q]
    ensures ApproxScanned(tgt, rf, costs', p, j)
  {
    forall j' | 0 <= j' < j && Reaches(tgt, rf, p, j') ensures BeatsApprox(tgt, rf, costs', p, j') {
      BeatsApproxKept(tgt, rf, costs, costs', p, j');
    }
  }

  /** A 64-byte run at `j` ends the scan: the offsets after it are never
      reached and `j` itself has no approximate extension, so the scan is
      complete. */
  lemma {:induction false} FullRunEndsScan(tgt: seq<byte>, rf: seq<byte>, costs: seq<int>, p: nat, j: nat)
    requires |rf| == |tgt| && |costs| == |tgt| + 1 && p < |tgt| && j < |tgt|
    requires ApproxScanned(tgt, rf, costs, p, j) && Run(tgt, rf, p, j) == MaxRun
    ensures ApproxScanned(tgt, rf, costs, p, |tgt|)
  {
    forall j' | 0 <= j' < |tgt| && Reaches(tgt, rf, p, j') ensures BeatsApprox(tgt, rf, costs, p, j') {
      if j' > j {
        assert false;
      }
    }
  }

  // ---------------------------------------------------------------------
  // The tie-break: only a strictly cheaper candidate replaces a row

  /** Offset `p` costs strictly less than every approximate candidate from
      reference offset `j`. */
  ghost predicate StrictlyApprox(tgt: seq<byte>, rf: seq<byte>, costs: seq<int>, p: nat, j: nat)
    requires |rf| == |tgt| && |costs| == |tgt| + 1 && p < |tgt| && j < |tgt|
  {
    var m := Run(tgt, rf, p, j);
    m > 0 ==>
      forall k :: m <= k < MaxRun && p + k < |tgt| && j + k < |tgt| ==>
        costs[p] < ApproxEstimate(tgt, rf, p, j, m, k) + costs[p + k]
  }

  /** Offset `p` costs strictly less than the extensions `mlen..k-1` of the
      approximate candidate at `j`. */
  ghost predicate StrictlyBelow(tgt: seq<byte>, rf: seq<byte>, costs: seq<int>, p: nat, j: nat, mlen: nat, k: int)
    requires |rf| == |tgt| && |costs| == |tgt| + 1 && p < |tgt| && j < |tgt|
  {
    forall k' :: mlen <= k' < k && k' < MaxRun && p + k' < |tgt| && j + k' < |tgt| ==>
      costs[p] < ApproxEstimate(tgt, rf, p, j, mlen, k') + costs[p + k']
  }

  /** Offset `p` costs strictly less than every approximate candidate from
      the reached reference offsets before `j`. */
  ghost predicate StrictlyScanned(tgt: seq<byte>, rf: seq<byte>, costs: seq<int>, p: nat, j: nat)
    requires |rf| == |tgt| && |costs| == |tgt| + 1 && p < |tgt| && j <= |tgt|
  {
    forall j' :: 0 <= j' < j && Reaches(tgt, rf, p, j') ==> StrictlyApprox(tgt, rf, costs, p, j')
  }

  /** Candidate `c` at offset `p`, moving to `q`, is one the pass
      examines: an exact copy comes from the scan's final best address and
      is at most its run long; an approximate one comes from a reference
      offset the scan reached, and its header carries the best address the
      scan had once it examined that offset. */
  ghost predicate Examined(tgt: seq<byte>, rf: seq<byte>, p: nat, c: Choice, q: int)
    requires |rf| == |tgt| && p < |tgt|
  {
    match c
    case Literal => true
    case Exact(addr) =>
      LowestLongest(tgt, rf, p, |tgt| - 1, addr) && q - p <= Run(tgt, rf, p, addr)
    case Approx(addr, _, j, _) =>
      j < |tgt| && Reaches(tgt, rf, p, j) && LowestLongest(tgt, rf, p, j, addr)
  }

  /** Row `p` holds the first candidate, in the order the pass examines
      them, that reaches the row's cost: the literal first, then the
      approximate extensions by reference offset and length, then the exact
      lengths. Every candidate examined before the chosen one costs
      strictly more, because a candidate replaces the row only when it is
      strictly cheaper (lines 180 and 215). */
  ghost predicate FirstCheapest(tgt: seq<byte>, rf: seq<byte>, costs: seq<int>, p: nat, c: Choice, q: int)
    requires |rf| == |tgt| && |costs| == |tgt| + 1 && p < |tgt|
  {
    Examined(tgt, rf, p, c, q) &&
    match c
    case Literal => true
    case Approx(_, mlen, j, _) =>
      costs[p] < costs[p + 1] + 2 && j < |tgt| &&
      StrictlyScanned(tgt, rf, costs, p, j) && StrictlyBelow(tgt, rf, costs, p, j, mlen, q - p)
    case Exact(_) =>
      costs[p] < costs[p + 1] + 2 && StrictlyScanned(tgt, rf, costs, p, |tgt|) &&
      StrictlyShorter(costs, p, q)
  }

  /** Offset `p` costs strictly less than every exact candidate ending
      before `q`. */
  ghost predicate StrictlyShorter(costs: seq<int>, p: nat, q: int)
    requires p < |costs|
  {
    forall q' :: p < q' < q && q' < |costs| ==> costs[p] < costs[q'] + 3
  }

  /** Adopting the approximate extension of length `k` at `j`, which is
      strictly cheaper than the row, makes it the first cheapest candidate
      and keeps everything the row already beat beaten. */
  lemma ApproxAdopted(tgt: seq<byte>, rf: seq<byte>, costs: seq<int>, costs': seq<int>, p: nat, j: nat, mlen: nat, k: nat, addr: nat, enc: int)
    requires |rf| == |tgt| && |costs| == |tgt| + 1 && |costs'| == |tgt| + 1 && p < |tgt| && j < |tgt|
    requires 1 <= mlen <= k < MaxRun && p + k < |tgt| && j + k < |tgt| && mlen == Run(tgt, rf, p, j)
    requires enc == ApproxEstimate(tgt, rf, p, j, mlen, k)
    requires Reaches(tgt, rf, p, j) && LowestLongest(tgt, rf, p, j, addr)
    requires ApproxScanned(tgt, rf, costs, p, j) && BeatsApproxBelow(tgt, rf, costs, p, j, mlen, k)
    requires costs[p] <= costs[p + 1] + 2
    requires costs'[p] == enc + costs[p + k] < costs[p] && forall q :: p < q <= |tgt| ==> costs'[q] == costs[q]
    ensures FirstCheapest(tgt, rf, costs', p, Approx(addr, mlen, j, enc), p + k)
    ensures ApproxScanned(tgt, rf, costs', p, j) && BeatsApproxBelow(tgt, rf, costs', p, j, mlen, k + 1)
  {
    forall j' | 0 <= j' < j && Reaches(tgt, rf, p, j') ensures StrictlyApprox(tgt, rf, costs', p, j') {
      assert BeatsApprox(tgt, rf, costs, p, j');
    }
    ApproxScannedKept(tgt, rf, costs, costs', p, j);
    BeatsApproxBelowKept(tgt, rf, costs, costs', p, j, mlen, k);
    BeatsApproxBelowStep(tgt, rf, costs', p, j, mlen, k);
  }

  /** Adopting the exact candidate of length `len`, which is strictly
      cheaper than the row, makes it the first cheapest candidate. */
  lemma ExactAdopted(tgt: seq<byte>, rf: seq<byte>, costs: seq<int>, costs': seq<int>, p: nat, len: nat, addr: nat)
    requires |rf| == |tgt| && |costs| == |tgt| + 1 && |costs'| == |tgt| + 1 && p < |tgt|
    requires 1 <= len && p + len <= |tgt|
    requires LowestLongest(tgt, rf, p, |tgt| - 1, addr) && len <= Run(tgt, rf, p, addr)
    requires ApproxScanned(tgt, rf, costs, p, |tgt|) && costs[p] <= costs[p + 1] + 2
    requires BeatsExact(costs, p, len - 1)
    requires costs'[p] == costs[p + len] + 3 < costs[p] && forall q :: p < q <= |tgt| ==> costs'[q] == costs[q]
    ensures FirstCheapest(tgt, rf, costs', p, Exact(addr), p + len)
    ensures ApproxScanned(tgt, rf, costs', p, |tgt|) && BeatsExact(costs', p, len)
  {
    forall j' | 0 <= j' < |tgt| && Reaches(tgt, rf, p, j') ensures StrictlyApprox(tgt, rf, costs', p, j') {
      assert BeatsApprox(tgt, rf, costs, p, j');
    }
    ApproxScannedKept(tgt, rf, costs, costs', p, |tgt|);
  }

  /** Being the first cheapest candidate depends only on the costs from the
      offset on. */
  lemma FirstCheapestKept(tgt: seq<byte>, rf: seq<byte>, costs: seq<int>, costs': seq<int>, p: nat, c: Choice, q: int)
    requires |rf| == |tgt| && |costs| == |tgt| + 1 && |costs'| == |tgt| + 1 && p < |tgt|
    requires forall t :: p <= t <= |tgt| ==> costs'[t] == costs[t]
    requires FirstCheapest(tgt, rf, costs, p, c, q)
    ensures FirstCheapest(tgt, rf, costs', p, c, q)
  {
    match c
    case Literal =>
    case Approx(_, mlen, j, _) =>
      forall j' | 0 <= j' < j && Reaches(tgt, rf, p, j') ensures StrictlyApprox(tgt, rf, costs', p, j') {
        assert StrictlyApprox(tgt, rf, costs, p, j');
      }
    case Exact(_) =>
      forall j' | 0 <= j' < |tgt| && Reaches(tgt, rf, p, j') ensures StrictlyApprox(tgt, rf, costs', p, j') {
        assert StrictlyApprox(tgt, rf, costs, p, j');
      }
  }

  /** The shape every snapshot of the tables has. */
  ghost predicate Shaped(tgt: seq<byte>, rf: seq<byte>, costs: seq<int>, next: seq<int>, lens: seq<int>, rows: seq<seq<byte>>, choice: seq<Choice>)
  {
    |rf| == |tgt| && |costs| == |tgt| + 1 && |next| == |tgt| && |lens| == |tgt| &&
    |rows| == |tgt| && |choice| == |tgt|
  }

  /** Every offset from `lo` on has been processed, and `costs[n]` is the
      sentinel 0. */
  ghost predicate SettledFrom(tgt: seq<byte>, rf: seq<byte>, costs: seq<int>, next: seq<int>, lens: seq<int>, rows: seq<seq<byte>>, choice: seq<Choice>, lo: nat)
    requires Shaped(tgt, rf, costs, next, lens, rows, choice) && lo <= |tgt|
  {
    costs[|tgt|] == 0 &&
    forall p :: lo <= p < |tgt| ==>
      RowOk(tgt, rf, costs, p, choice[p], next[p], lens[p], rows[p]) && Cheapest(tgt, rf, costs, p)
  }

  /** Every row from `lo` on holds the first cheapest candidate. */
  ghost predicate FirstFrom(tgt: seq<byte>, rf: seq<byte>, costs: seq<int>, next: seq<int>, choice: seq<Choice>, lo: nat)
    requires |rf| == |tgt| && |costs| == |tgt| + 1 && |next| == |tgt| && |choice| == |tgt|
  {
    forall p :: lo <= p < |tgt| ==> FirstCheapest(tgt, rf, costs, p, choice[p], next[p])
  }

  /** Settling offset `i` extends the tie-break region by one, when nothing
      at a later offset changed. */
  lemma FirstExtend(tgt: seq<byte>, rf: seq<byte>, costs: seq<int>, next: seq<int>, choice: seq<Choice>,
                    costs': seq<int>, next': seq<int>, choice': seq<Choice>, i: nat)
    requires |rf| == |tgt| && |costs| == |tgt| + 1 && |next| == |tgt| && |choice| == |tgt|
    requires |costs'| == |tgt| + 1 && |next'| == |tgt| && |choice'| == |tgt|
    requires i < |tgt| && FirstFrom(tgt, rf, costs, next, choice, i + 1)
    requires forall p :: i < p <= |tgt| ==> costs'[p] == costs[p]
    requires forall p :: i < p < |tgt| ==> next'[p] == next[p] && choice'[p] == choice[p]
    requires FirstCheapest(tgt, rf, costs', i, choice'[i], next'[i])
    ensures FirstFrom(tgt, rf, costs', next', choice', i)
  {
    forall p | i < p < |tgt| ensures FirstCheapest(tgt, rf, costs', p, choice'[p], next'[p]) {
      FirstCheapestKept(tgt, rf, costs, costs', p, choice[p], next[p]);
    }
  }

  /** Settling offset `i` extends the settled region by one, when nothing at
      a later offset changed. */
  lemma SettledExtend(tgt: seq<byte>, rf: seq<byte>,
                      costs: seq<int>, next: seq<int>, lens: seq<int>, rows: seq<seq<byte>>, choice: seq<Choice>,
                      costs': seq<int>, next': seq<int>, lens': seq<int>, rows': seq<seq<byte>>, choice': seq<Choice>,
                      i: nat)
    requires Shaped(tgt, rf, costs, next, lens, rows, choice) && Shaped(tgt, rf, costs', next', lens', rows', choice')
    requires i < |tgt| && SettledFrom(tgt, rf, costs, next, lens, rows, choice, i + 1)
    requires forall p :: i < p <= |tgt| ==> costs'[p] == costs[p]
    requires forall p :: i < p < |tgt| ==> next'[p] == next[p] && lens'[p] == lens[p] && rows'[p] == rows[p] && choice'[p] == choice[p]
    requires RowOk(tgt, rf, costs', i, choice'[i], next'[i], lens'[i], rows'[i]) && Cheapest(tgt, rf, costs', i)
    ensures SettledFrom(tgt, rf, costs', next', lens', rows', choice', i)
  {
    forall p | i < p < |tgt|
      ensures RowOk(tgt, rf, costs', p, choice'[p], next'[p], lens'[p], rows'[p]) && Cheapest(tgt, rf, costs', p)
    {
      SettledKeptAt(tgt, rf, costs, next, lens, rows, choice, costs', next', lens', rows', choice', p);
    }
  }

  /** A settled offset stays settled when only costs before it change. */
  lemma SettledKeptAt(tgt: seq<byte>, rf: seq<byte>,
                      costs: seq<int>, next: seq<int>, lens: seq<int>, rows: seq<seq<byte>>, choice: seq<Choice>,
                      costs': seq<int>, next': seq<int>, lens': seq<int>, rows': seq<seq<byte>>, choice': seq<Choice>,
                      p: nat)
    requires Shaped(tgt, rf, costs, next, lens, rows, choice) && Shaped(tgt, rf, costs', next', lens', rows', choice')
    requires p < |tgt| && forall t :: p <= t <= |tgt| ==> costs'[t] == costs[t]
    requires next'[p] == next[p] && lens'[p] == lens[p] && rows'[p] == rows[p] && choice'[p] == choice[p]
    requires RowOk(tgt, rf, costs, p, choice[p], next[p], lens[p], rows[p]) && Cheapest(tgt, rf, costs, p)
    ensures RowOk(tgt, rf, costs', p, choice'[p], next'[p], lens'[p], rows'[p]) && Cheapest(tgt, rf, costs', p)
  {
    CheapestKept(tgt, rf, costs, costs', p);
  }

  /** Whether an offset is the cheapest depends only on the costs from that
      offset on. */
  lemma CheapestKept(tgt: seq<byte>, rf: seq<byte>, costs: seq<int>, costs': seq<int>, p: nat)
    requires |rf| == |tgt| && |costs| == |tgt| + 1 && |costs'| == |tgt| + 1 && p < |tgt|
    requires Cheapest(tgt, rf, costs, p)
    requires costs'[p] <= costs[p] && forall q :: p < q <= |tgt| ==> costs'[q] == costs[q]
    ensures Cheapest(tgt, rf, costs', p)
  {
    forall j | 0 <= j < |tgt| ensures BeatsExact(costs', p, Run(tgt, rf, p, j)) {
      assert BeatsExact(costs, p, Run(tgt, rf, p, j));
    }
    ApproxScannedKept(tgt, rf, costs, costs', p, |tgt|);
  }

  /** Lowering the cost at `p` keeps it below every candidate it already
      beat. */
  lemma BeatsApproxKept(tgt: seq<byte>, rf: seq<byte>, costs: seq<int>, costs': seq<int>, p: nat, j: nat)
    requires |rf| == |tgt| && |costs| == |tgt| + 1 && |costs'| == |tgt| + 1 && p < |tgt| && j < |tgt|
    requires BeatsApprox(tgt, rf, costs, p, j)
    requires costs'[p] <= costs[p] && forall q :: p < q <= |tgt| ==> costs'[q] == costs[q]
    ensures BeatsApprox(tgt, rf, costs', p, j)
  {
  }

  // ---------------------------------------------------------------------
  // What a settled table guarantees

  /** Only one reference offset is the lowest with the longest run. */
  lemma LowestLongestUnique(tgt: seq<byte>, rf: seq<byte>, p: nat, j: nat, a: nat, b: nat)
    requires |rf| == |tgt| && p < |tgt| && j < |tgt|
    requires LowestLongest(tgt, rf, p, j, a) && LowestLongest(tgt, rf, p, j, b)
    ensures a == b
  {
    var ra, rb := Run(tgt, rf, p, a), Run(tgt, rf, p, b);
    assert a < b ==> ra < rb;
    assert b < a ==> rb < ra;
  }

  /** At a settled offset, every candidate the pass examines costs at least
      as much as the row. */
  lemma CandidateBeaten(tgt: seq<byte>, rf: seq<byte>, costs: seq<int>, p: nat, c: Choice, q: int,
                        c0: Choice, q0: int, len0: int, row0: seq<byte>)
    requires |rf| == |tgt| && |costs| == |tgt| + 1 && p < |tgt|
    requires RowOk(tgt, rf, costs, p, c0, q0, len0, row0) && Cheapest(tgt, rf, costs, p)
    requires ChoiceOk(tgt, rf, p, c, q) && Examined(tgt, rf, p, c, q)
    ensures p < q <= |tgt| && costs[p] <= Estimate(c) + costs[q]
  {
    match c
    case Literal =>
    case Exact(addr) =>
      assert BeatsExact(costs, p, Run(tgt, rf, p, addr));
    case Approx(_, _, j, _) =>
      assert BeatsApprox(tgt, rf, costs, p, j);
  }

  /** Two rows at `p` that are both the cheapest and the first cheapest,
      over costs that agree after `p`, are the same row: the same cost, the
      same candidate and the same token. */
  lemma RowDetermined(tgt: seq<byte>, rf: seq<byte>, costs1: seq<int>, costs2: seq<int>, p: nat,
                      c1: Choice, q1: int, len1: int, row1: seq<byte>,
                      c2: Choice, q2: int, len2: int, row2: seq<byte>)
    requires |rf| == |tgt| && |costs1| == |tgt| + 1 && |costs2| == |tgt| + 1 && p < |tgt|
    requires forall t :: p < t <= |tgt| ==> costs1[t] == costs2[t]
    requires RowOk(tgt, rf, costs1, p, c1, q1, len1, row1) && Cheapest(tgt, rf, costs1, p)
    requires FirstCheapest(tgt, rf, costs1, p, c1, q1)
    requires RowOk(tgt, rf, costs2, p, c2, q2, len2, row2) && Cheapest(tgt, rf, costs2, p)
    requires FirstCheapest(tgt, rf, costs2, p, c2, q2)
    ensures costs1[p] == costs2[p] && c1 == c2 && q1 == q2
    ensures 0 <= len1 == len2 <= |row1| && len2 <= |row2| && row1[..len1] == row2[..len2]
  {
    CandidateBeaten(tgt, rf, costs1, p, c2, q2, c1, q1, len1, row1);
    CandidateBeaten(tgt, rf, costs2, p, c1, q1, c2, q2, len2, row2);
    FirstCheapestKept(tgt, rf, costs2, costs1, p, c2, q2);
    FirstDetermined(tgt, rf, costs1, p, c1, q1, c2, q2);
    var tok := ChoiceToken(tgt, rf, p, c1, q1);
    assert row1[..len1] == tok == row2[..len2];
  }

  /** Two candidates that both cost exactly `costs[p]` and are both the
      first to do so are the same candidate. */
  lemma FirstDetermined(tgt: seq<byte>, rf: seq<byte>, costs: seq<int>, p: nat, c1: Choice, q1: int, c2: Choice, q2: int)
    requires |rf| == |tgt| && |costs| == |tgt| + 1 && p < |tgt|
    requires ChoiceOk(tgt, rf, p, c1, q1) && ChoiceOk(tgt, rf, p, c2, q2)
    requires p < q1 <= |tgt| && costs[p] == Estimate(c1) + costs[q1]
    requires p < q2 <= |tgt| && costs[p] == Estimate(c2) + costs[q2]
    requires FirstCheapest(tgt, rf, costs, p, c1, q1) && FirstCheapest(tgt, rf, costs, p, c2, q2)
    ensures c1 == c2 && q1 == q2
  {
    ApproxBlocks(tgt, rf, costs, p, c1, q1);
    ApproxBlocks(tgt, rf, costs, p, c2, q2);
    ExactBlocks(tgt, rf, costs, p, c1, q1);
    ExactBlocks(tgt, rf, costs, p, c2, q2);
    if c1.Exact? && c2.Exact? {
      LowestLongestUnique(tgt, rf, p, |tgt| - 1, c1.addr, c2.addr);
    } else if c1.Approx? && c2.Approx? {
      assert c1.from == c2.from && q1 == q2;
      LowestLongestUnique(tgt, rf, p, c1.from, c1.addr, c2.addr);
    }
  }

  /** An approximate candidate that reaches the row's cost is not strictly
      beaten, so no candidate examined after it is the first cheapest. */
  lemma ApproxBlocks(tgt: seq<byte>, rf: seq<byte>, costs: seq<int>, p: nat, c: Choice, q: int)
    requires |rf| == |tgt| && |costs| == |tgt| + 1 && p < |tgt|
    requires ChoiceOk(tgt, rf, p, c, q) && Examined(tgt, rf, p, c, q)
    requires p < q <= |tgt| && costs[p] == Estimate(c) + costs[q]
    ensures c.Approx? ==>
      !StrictlyApprox(tgt, rf, costs, p, c.from) &&
      (forall j :: c.from < j <= |tgt| ==> !StrictlyScanned(tgt, rf, costs, p, j)) &&
      (forall k :: q - p < k ==> !StrictlyBelow(tgt, rf, costs, p, c.from, c.mlen, k))
  {
    match c
    case Approx(_, m, j, _) => ApproxBlocksAt(tgt, rf, costs, p, j, m, q - p);
    case _ =>
  }

  lemma ApproxBlocksAt(tgt: seq<byte>, rf: seq<byte>, costs: seq<int>, p: nat, j: nat, m: nat, k: nat)
    requires |rf| == |tgt| && |costs| == |tgt| + 1 && p < |tgt| && j < |tgt|
    requires Reaches(tgt, rf, p, j) && m == Run(tgt, rf, p, j)
    requires 1 <= m <= k < MaxRun && p + k < |tgt| && j + k < |tgt|
    requires costs[p] == ApproxEstimate(tgt, rf, p, j, m, k) + costs[p + k]
    ensures !StrictlyApprox(tgt, rf, costs, p, j)
    ensures forall j' :: j < j' <= |tgt| ==> !StrictlyScanned(tgt, rf, costs, p, j')
    ensures forall k' :: k < k' ==> !StrictlyBelow(tgt, rf, costs, p, j, m, k')
  {
    forall j' | j < j' <= |tgt| ensures !StrictlyScanned(tgt, rf, costs, p, j') {
      assert !StrictlyApprox(tgt, rf, costs, p, j);
    }
  }

  /** An exact candidate that reaches the row's cost is not strictly
      beaten, so no longer exact candidate is the first cheapest. */
  lemma ExactBlocks(tgt: seq<byte>, rf: seq<byte>, costs: seq<int>, p: nat, c: Choice, q: int)
    requires |rf| == |tgt| && |costs| == |tgt| + 1 && p < |tgt|
    requires p < q <= |tgt| && costs[p] == Estimate(c) + costs[q]
    ensures c.Exact? ==> forall q' :: q < q' ==> !StrictlyShorter(costs, p, q')
  {
  }

  /** The tables a complete pass leaves are determined by the two images:
      any two settled tables agree on every cost, transition, candidate and
      token. */
  lemma SettledUnique(tgt: seq<byte>, rf: seq<byte>,
                      costs1: seq<int>, next1: seq<int>, lens1: seq<int>, rows1: seq<seq<byte>>, choice1: seq<Choice>,
                      costs2: seq<int>, next2: seq<int>, lens2: seq<int>, rows2: seq<seq<byte>>, choice2: seq<Choice>)
    requires Shaped(tgt, rf, costs1, next1, lens1, rows1, choice1) && Shaped(tgt, rf, costs2, next2, lens2, rows2, choice2)
    requires SettledFrom(tgt, rf, costs1, next1, lens1, rows1, choice1, 0) && FirstFrom(tgt, rf, costs1, next1, choice1, 0)
    requires SettledFrom(tgt, rf, costs2, next2, lens2, rows2, choice2, 0) && FirstFrom(tgt, rf, costs2, next2, choice2, 0)
    ensures costs1 == costs2 && choice1 == choice2 && next1 == next2 && lens1 == lens2
    ensures forall p :: 0 <= p < |tgt| ==>
      0 <= lens1[p] <= |rows1[p]| && lens2[p] <= |rows2[p]| && rows1[p][..lens1[p]] == rows2[p][..lens2[p]]
  {
    SettledCostsAgree(tgt, rf, costs1, next1, lens1, rows1, choice1, costs2, next2, lens2, rows2, choice2, 0);
    forall p | 0 <= p < |tgt|
      ensures choice1[p] == choice2[p] && next1[p] == next2[p] && lens1[p] == lens2[p]
      ensures 0 <= lens1[p] <= |rows1[p]| && lens2[p] <= |rows2[p]| && rows1[p][..lens1[p]] == rows2[p][..lens2[p]]
    {
      RowDetermined(tgt, rf, costs1, costs2, p,
                    choice1[p], next1[p], lens1[p], rows1[p],
                    choice2[p], next2[p], lens2[p], rows2[p]);
    }
  }

  /** Settled tables agree on the cost of every offset, from the end
      backwards. */
  lemma {:induction false} SettledCostsAgree(tgt: seq<byte>, rf: seq<byte>,
                      costs1: seq<int>, next1: seq<int>, lens1: seq<int>, rows1: seq<seq<byte>>, choice1: seq<Choice>,
                      costs2: seq<int>, next2: seq<int>, lens2: seq<int>, rows2: seq<seq<byte>>, choice2: seq<Choice>,
                      lo: nat)
    requires Shaped(tgt, rf, costs1, next1, lens1, rows1, choice1) && Shaped(tgt, rf, costs2, next2, lens2, rows2, choice2)
    requires lo <= |tgt|
    requires SettledFrom(tgt, rf, costs1, next1, lens1, rows1, choice1, lo) && FirstFrom(tgt, rf, costs1, next1, choice1, lo)
    requires SettledFrom(tgt, rf, costs2, next2, lens2, rows2, choice2, lo) && FirstFrom(tgt, rf, costs2, next2, choice2, lo)
    ensures forall p :: lo <= p <= |tgt| ==> costs1[p] == costs2[p]
    decreases |tgt| - lo
  {
    if lo < |tgt| {
      SettledCostsAgree(tgt, rf, costs1, next1, lens1, rows1, choice1, costs2, next2, lens2, rows2, choice2, lo + 1);
      RowDetermined(tgt, rf, costs1, costs2, lo,
                    choice1[lo], next1[lo], lens1[lo], rows1[lo],
                    choice2[lo], next2[lo], lens2[lo], rows2[lo]);
    }
  }

  /** Every transition moves forward and stays within the image, so the
      assembler's two error exits are never taken. */
  lemma SettledForward(tgt: seq<byte>, rf: seq<byte>, costs: seq<int>, next: seq<int>, lens: seq<int>, rows: seq<seq<byte>>, choice: seq<Choice>)
    requires Shaped(tgt, rf, costs, next, lens, rows, choice) && SettledFrom(tgt, rf, costs, next, lens, rows, choice, 0)
    ensures Chain.Forward(next, |tgt|)
  {
    forall p | 0 <= p < |tgt| ensures p < next[p] <= |tgt| {
      assert RowOk(tgt, rf, costs, p, choice[p], next[p], lens[p], rows[p]);
    }
  }

  /** The last offset can only be a literal: it costs 2. */
  lemma LastCost(tgt: seq<byte>, rf: seq<byte>, costs: seq<int>, next: seq<int>, lens: seq<int>, rows: seq<seq<byte>>, choice: seq<Choice>)
    requires Shaped(tgt, rf, costs, next, lens, rows, choice) && SettledFrom(tgt, rf, costs, next, lens, rows, choice, 0)
    requires |tgt| > 0
    ensures costs[|tgt| - 1] == 2 && choice[|tgt| - 1] == Literal
  {
    var p := |tgt| - 1;
    assert RowOk(tgt, rf, costs, p, choice[p], next[p], lens[p], rows[p]);
  }

  /** No offset costs more than two bytes per remaining byte, the cost of
      sending the rest as literals. */
  lemma {:induction false} CostAtMostLiterals(tgt: seq<byte>, rf: seq<byte>, costs: seq<int>, next: seq<int>, lens: seq<int>, rows: seq<seq<byte>>, choice: seq<Choice>, p: nat)
    requires Shaped(tgt, rf, costs, next, lens, rows, choice) && SettledFrom(tgt, rf, costs, next, lens, rows, choice, 0)
    requires p <= |tgt|
    ensures 0 <= costs[p] <= 2 * (|tgt| - p)
    decreases |tgt| - p
  {
    if p < |tgt| {
      CostAtMostLiterals(tgt, rf, costs, next, lens, rows, choice, p + 1);
      RowCost(tgt, rf, costs, next, lens, rows, choice, p);
      CostAtLeastEstimate(tgt, rf, costs, next, lens, rows, choice, next[p]);
    }
  }

  /** The cost facts of one settled row. */
  lemma RowCost(tgt: seq<byte>, rf: seq<byte>, costs: seq<int>, next: seq<int>, lens: seq<int>, rows: seq<seq<byte>>, choice: seq<Choice>, p: nat)
    requires Shaped(tgt, rf, costs, next, lens, rows, choice) && SettledFrom(tgt, rf, costs, next, lens, rows, choice, 0)
    requires p < |tgt|
    ensures p < next[p] <= |tgt| && costs[p] <= costs[p + 1] + 2
    ensures costs[p] == Estimate(choice[p]) + costs[next[p]] && Estimate(choice[p]) >= 2
  {
    assert RowOk(tgt, rf, costs, p, choice[p], next[p], lens[p], rows[p]);
  }

  lemma {:induction false} CostAtLeastEstimate(tgt: seq<byte>, rf: seq<byte>, costs: seq<int>, next: seq<int>, lens: seq<int>, rows: seq<seq<byte>>, choice: seq<Choice>, p: nat)
    requires Shaped(tgt, rf, costs, next, lens, rows, choice) && SettledFrom(tgt, rf, costs, next, lens, rows, choice, 0)
    requires p <= |tgt|
    ensures costs[p] >= 0
    decreases |tgt| - p
  {
    if p < |tgt| {
      RowCost(tgt, rf, costs, next, lens, rows, choice, p);
      CostAtLeastEstimate(tgt, rf, costs, next, lens, rows, choice, next[p]);
    }
  }

  /** The cost at offset 0 is the sum of the chosen tokens' estimates along
      the chain of transitions from 0. */
  lemma CostIsChainEstimate(tgt: seq<byte>, rf: seq<byte>, costs: seq<int>, next: seq<int>, lens: seq<int>, rows: seq<seq<byte>>, choice: seq<Choice>)
    requires Shaped(tgt, rf, costs, next, lens, rows, choice) && SettledFrom(tgt, rf, costs, next, lens, rows, choice, 0)
    ensures Chain.Forward(next, |tgt|)
    ensures costs[0] == Chain.SumAlong(next, Estimates(choice), |tgt|, 0)
  {
    SettledForward(tgt, rf, costs, next, lens, rows, choice);
    forall q | 0 <= q < |tgt| ensures costs[q] == Estimates(choice)[q] + costs[next[q]] {
      assert RowOk(tgt, rf, costs, q, choice[q], next[q], lens[q], rows[q]);
    }
    Chain.RecurrenceIsSumAlong(next, Estimates(choice), costs, |tgt|, 0);
  }

  /** Literal and exact tokens are as long as their estimates (2 and 3
      bytes); an approximate token fits its 128-byte row with room to spare
      (at most 3 header, 8 bitmap and 63 patch bytes). */
  lemma TokenLengths(tgt: seq<byte>, rf: seq<byte>, costs: seq<int>, next: seq<int>, lens: seq<int>, rows: seq<seq<byte>>, choice: seq<Choice>, p: nat)
    requires Shaped(tgt, rf, costs, next, lens, rows, choice) && SettledFrom(tgt, rf, costs, next, lens, rows, choice, 0)
    requires p < |tgt|
    ensures choice[p].Literal? ==> lens[p] == 2 && next[p] == p + 1
    ensures choice[p].Exact? ==> lens[p] == 3
    ensures choice[p].Approx? ==> lens[p] <= 3 + 8 + 63
    ensures 0 <= lens[p] <= 4 * (next[p] - p)
  {
    assert RowOk(tgt, rf, costs, p, choice[p], next[p], lens[p], rows[p]);
    if choice[p].Approx? {
      var c := choice[p];
      var k := next[p] - p;
      assert lens[p] == |ApproxToken(tgt, rf, p, c.from, c.mlen, c.addr, k)|;
      assert BitmapLen(k) <= 8;
    }
  }

  // ---------------------------------------------------------------------
  // Optimality among literal and exact encodings

  /** A piece of an encoding: a literal byte, or a copy of `len` bytes from
      reference address `addr`. */
  datatype Piece = LiteralPiece | CopyPiece(addr: nat, len: nat)

  /** `plan` encodes `tgt[p..]` with literals and exact copies of 1 to 64
      bytes. */
  ghost predicate PlanOk(tgt: seq<byte>, rf: seq<byte>, p: nat, plan: seq<Piece>)
    requires |rf| == |tgt|
    decreases |plan|
  {
    if plan == [] then p == |tgt|
    else
      p < |tgt| &&
      match plan[0]
      case LiteralPiece => PlanOk(tgt, rf, p + 1, plan[1..])
      case CopyPiece(addr, len) =>
        1 <= len <= MaxRun && p + len <= |tgt| && addr + len <= |tgt| &&
        (forall t :: p <= t < p + len ==> tgt[t] == rf[addr + (t - p)]) &&
        PlanOk(tgt, rf, p + len, plan[1..])
  }

  /** The estimated size of a plan: 2 per literal, 3 per copy. */
  function PlanCost(plan: seq<Piece>): (c: nat)
    ensures c >= 2 * |plan|
  {
    if plan == [] then 0
    else (if plan[0].LiteralPiece? then 2 else 3) + PlanCost(plan[1..])
  }

  /** A run of equal bytes is covered by the scanner's measure. */
  lemma RunCovers(tgt: seq<byte>, rf: seq<byte>, i: nat, j: nat, len: nat)
    requires len <= MaxRun && i + len <= |tgt| && j + len <= |rf|
    requires forall t :: i <= t < i + len ==> tgt[t] == rf[j + (t - i)]
    ensures Run(tgt, rf, i, j) >= len
  {
    var r := Run(tgt, rf, i, j);
    if r < len {
      assert false;
    }
  }

  /** The dynamic programme is optimal among literal and exact encodings:
      no plan made of literals and exact copies is estimated smaller than
      the settled cost. */
  lemma {:induction false} SettledBeatsPlans(tgt: seq<byte>, rf: seq<byte>, costs: seq<int>, next: seq<int>, lens: seq<int>, rows: seq<seq<byte>>, choice: seq<Choice>, p: nat, plan: seq<Piece>)
    requires Shaped(tgt, rf, costs, next, lens, rows, choice) && SettledFrom(tgt, rf, costs, next, lens, rows, choice, 0)
    requires p <= |tgt| && PlanOk(tgt, rf, p, plan)
    ensures costs[p] <= PlanCost(plan)
    decreases |plan|
  {
    if plan != [] {
      StepBounds(tgt, rf, costs, next, lens, rows, choice, p);
      match plan[0]
      case LiteralPiece =>
        SettledBeatsPlans(tgt, rf, costs, next, lens, rows, choice, p + 1, plan[1..]);
      case CopyPiece(addr, len) =>
        SettledBeatsPlans(tgt, rf, costs, next, lens, rows, choice, p + len, plan[1..]);
        RunCovers(tgt, rf, p, addr, len);
    }
  }

  /** The two facts about a settled offset the optimality proof uses. */
  lemma StepBounds(tgt: seq<byte>, rf: seq<byte>, costs: seq<int>, next: seq<int>, lens: seq<int>, rows: seq<seq<byte>>, choice: seq<Choice>, p: nat)
    requires Shaped(tgt, rf, costs, next, lens, rows, choice) && SettledFrom(tgt, rf, costs, next, lens, rows, choice, 0)
    requires p < |tgt|
    ensures costs[p] <= costs[p + 1] + 2
    ensures forall j :: 0 <= j < |tgt| ==> BeatsExact(costs, p, Run(tgt, rf, p, j))
  {
    assert RowOk(tgt, rf, costs, p, choice[p], next[p], lens[p], rows[p]) && Cheapest(tgt, rf, costs, p);
  }

  // ---------------------------------------------------------------------
  // The stream the tables describe

  /** The token bytes of each row. */
  function RowTokens(lens: seq<int>, rows: seq<seq<byte>>): (pieces: seq<seq<byte>>)
    requires |lens| == |rows| && forall q :: 0 <= q < |rows| ==> 0 <= lens[q] <= |rows[q]|
    ensures |pieces| == |rows| && forall q :: 0 <= q < |rows| ==> pieces[q] == rows[q][..lens[q]]
  {
    seq(|rows|, q requires 0 <= q < |rows| => rows[q][..lens[q]])
  }

  /** The token each row's candidate stands for. */
  ghost function ChosenTokens(tgt: seq<byte>, rf: seq<byte>, next: seq<int>, choice: seq<Choice>): (pieces: seq<seq<byte>>)
    requires |rf| == |tgt| && |next| == |tgt| && |choice| == |tgt|
    requires forall q :: 0 <= q < |tgt| ==> ChoiceOk(tgt, rf, q, choice[q], next[q])
    ensures |pieces| == |tgt|
    ensures forall q :: 0 <= q < |tgt| ==> pieces[q] == ChoiceToken(tgt, rf, q, choice[q], next[q])
  {
    seq(|tgt|, q requires 0 <= q < |tgt| => ChoiceToken(tgt, rf, q, choice[q], next[q]))
  }

  /** In a settled table every row holds exactly its candidate's token, so
      the stream along the transitions is the chosen tokens in order, and
      it is at most four bytes per byte of the image. */
  lemma SettledStream(tgt: seq<byte>, rf: seq<byte>, costs: seq<int>, next: seq<int>, lens: seq<int>, rows: seq<seq<byte>>, choice: seq<Choice>)
    requires Shaped(tgt, rf, costs, next, lens, rows, choice) && SettledFrom(tgt, rf, costs, next, lens, rows, choice, 0)
    ensures Chain.Forward(next, |tgt|)
    ensures forall q :: 0 <= q < |tgt| ==> 0 <= lens[q] <= |rows[q]| && ChoiceOk(tgt, rf, q, choice[q], next[q])
    ensures forall q :: 0 <= q < |tgt| ==> lens[q] <= 4 * (next[q] - q)
    ensures Chain.Concat(next, RowTokens(lens, rows), |tgt|, 0) == Chain.Concat(next, ChosenTokens(tgt, rf, next, choice), |tgt|, 0)
    ensures |Chain.Concat(next, RowTokens(lens, rows), |tgt|, 0)| == Chain.SumAlong(next, lens, |tgt|, 0) <= 4 * |tgt|
  {
    SettledForward(tgt, rf, costs, next, lens, rows, choice);
    forall q | 0 <= q < |tgt|
      ensures 0 <= lens[q] <= |rows[q]| && ChoiceOk(tgt, rf, q, choice[q], next[q])
      ensures rows[q][..lens[q]] == ChoiceToken(tgt, rf, q, choice[q], next[q])
      ensures 0 <= lens[q] <= 4 * (next[q] - q)
    {
      assert RowOk(tgt, rf, costs, q, choice[q], next[q], lens[q], rows[q]);
    }
    var pieces := RowTokens(lens, rows);
    Chain.ConcatAgree(next, pieces, ChosenTokens(tgt, rf, next, choice), |tgt|, 0);
    Chain.ConcatLength(next, pieces, lens, |tgt|, 0);
    Chain.SumAlongBound(next, lens, |tgt|, 0, 4);
  }
}
