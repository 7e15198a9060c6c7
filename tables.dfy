/** The encoder's tables and the passes over them: the backward
    dynamic-programming pass that fills the cost, transition and token
    tables (one offset at a time, scanning every reference offset), and the
    stream assembler that follows the transitions from offset 0.

    The C program keeps the tables in global arrays sized FILE_SIZE; here the
    image length is the field `n` of a `Tables` object, the reference and new
    images are its immutable fields, and the four tables are its arrays. */
module EncoderTables {
  import opened Bytes
  import opened Format
  import opened Encoder
  import Chain

  class Tables {
    const n: nat
    const reference: seq<byte>
    const target: seq<byte>
    /** `costs[p]` is the estimated size of the cheapest encoding found for
        `[p, n)`; `costs[n]` is a sentinel 0. */
    const costs: array<int>
    const nextPos: array<int>
    const tokens: array2<byte>
    const tokenLens: array<int>
    /** Which branch of the pass wrote each row. */
    ghost var choice: seq<Choice>

    ghost predicate Valid()
      reads this
    {
      |reference| == n && |target| == n &&
      costs.Length == n + 1 && nextPos.Length == n && tokenLens.Length == n &&
      tokens.Length0 == n && tokens.Length1 == RowSize &&
      costs != nextPos && costs != tokenLens && nextPos != tokenLens &&
      |choice| == n
    }

    /** The 128 bytes of token row `p`. */
    ghost function Row(p: nat): (row: seq<byte>)
      requires p < tokens.Length0 && tokens.Length1 == RowSize
      reads this, tokens
      ensures |row| == RowSize && forall c :: 0 <= c < RowSize ==> row[c] == tokens[p, c]
    {
      seq(RowSize, c requires 0 <= c < RowSize reads tokens => tokens[p, c])
    }

    ghost function Rows(): (rows: seq<seq<byte>>)
      requires Valid()
      reads this, tokens
      ensures |rows| == n && forall p :: 0 <= p < n ==> rows[p] == Row(p)
    {
      seq(n, p requires 0 <= p < n reads this, tokens => Row(p))
    }

    /** Row `p` of the tables is complete: `RowOk` read off the arrays. */
    ghost predicate RowAt(p: nat)
      requires Valid() && p < n
      reads this, costs, nextPos, tokens, tokenLens
    {
      var c, q := choice[p], nextPos[p];
      p < q <= n && q - p <= MaxRun &&
      ChoiceOk(target, reference, p, c, q) &&
      costs[p] == Estimate(c) + costs[q] &&
      costs[p] <= costs[p + 1] + 2 &&
      var tok := ChoiceToken(target, reference, p, c, q);
      tokenLens[p] == |tok| && |tok| <= 4 * (q - p) && |tok| <= RowSize &&
      forall t :: 0 <= t < |tok| ==> tokens[p, t] == tok[t]
    }

    lemma RowAtIsRowOk(p: nat)
      requires Valid() && p < n
      ensures RowAt(p) <==> RowOk(target, reference, costs[..], p, choice[p], nextPos[p], tokenLens[p], Row(p))
    {
    }

    /** Row `p` holds the first candidate, in the order the pass examines
        them, that reaches its cost. */
    ghost predicate RowFirst(p: nat)
      requires Valid() && p < n
      reads this, costs, nextPos
    {
      FirstCheapest(target, reference, costs[..], p, choice[p], nextPos[p])
    }

    /** Only row `i` of the tables differs from the previous state. */
    twostate predicate OthersUnchanged(i: nat)
      reads this, costs, nextPos, tokens, tokenLens
    {
      costs.Length == n + 1 && nextPos.Length == n && tokenLens.Length == n &&
      tokens.Length0 == n && tokens.Length1 == RowSize && |choice| == n && |old(choice)| == n &&
      (forall p :: 0 <= p <= n && p != i ==> costs[p] == old(costs[p])) &&
      (forall p :: 0 <= p < n && p != i ==>
        nextPos[p] == old(nextPos[p]) && tokenLens[p] == old(tokenLens[p]) && choice[p] == old(choice[p])) &&
      (forall p, c :: 0 <= p < n && p != i && 0 <= c < RowSize ==> tokens[p, c] == old(tokens[p, c]))
    }

    /** Every offset from `lo` on has been processed. */
    ghost predicate Settled(lo: nat)
      requires Valid() && lo <= n
      reads this, costs, nextPos, tokens, tokenLens
    {
      Shaped(target, reference, costs[..], nextPos[..], tokenLens[..], Rows(), choice) &&
      SettledFrom(target, reference, costs[..], nextPos[..], tokenLens[..], Rows(), choice, lo) &&
      FirstFrom(target, reference, costs[..], nextPos[..], choice, lo)
    }

    /** Lines 90-95: the tables start out reset; `costs[n]` is the sentinel. */
    constructor (reference: seq<byte>, target: seq<byte>)
      requires |reference| == |target|
      ensures Valid() && this.reference == reference && this.target == target
      ensures n == |reference| && costs[n] == 0
      ensures forall p :: 0 <= p < n ==> costs[p] == Unset && nextPos[p] == Unset && tokenLens[p] == 0
      ensures fresh(costs) && fresh(nextPos) && fresh(tokens) && fresh(tokenLens)
    {
      n := |reference|;
      this.reference := reference;
      this.target := target;
      costs := new int[|reference| + 1];
      nextPos := new int[|reference|];
      tokens := new byte[|reference|, RowSize];
      tokenLens := new int[|reference|];
      choice := seq(|reference|, _ => Literal);
      new;
      var i := 0;
      while i < n
        invariant 0 <= i <= n && Valid()
        invariant forall p :: 0 <= p < i ==> costs[p] == Unset && nextPos[p] == Unset && tokenLens[p] == 0
      {
        costs[i] := Unset;
        nextPos[i] := Unset;
        tokenLens[i] := 0;
        i := i + 1;
      }
      costs[n] := 0;
    }


    /** Lines 136-222: the backward pass.  Every offset, from the last to
        the first, is settled against the rows after it. */
    method Build()
      requires Valid() && costs[n] == 0
      modifies this, costs, nextPos, tokens, tokenLens
      ensures Valid() && Settled(0)
    {
      assert Settled(n);
      var i := n;
      while i > 0
        invariant 0 <= i <= n && Valid() && Settled(i)
      {
        i := i - 1;
        var bestLen, bestAddr := SettleOffset(i);
      }
    }

    /** Lines 138-221 for one offset `i`: seed the literal, scan every
        reference offset for the longest exact run (lowest address on a
        tie, stopping at the first 64-byte run) while trying the
        approximate candidates, then try the exact matches. */
    method SettleOffset(i: nat) returns (bestLen: nat, bestAddr: nat)
      requires Valid() && i < n && Settled(i + 1)
      modifies this, costs, nextPos, tokens, tokenLens
      ensures Valid() && Settled(i)
      ensures ScanResult(target, reference, i, bestLen, bestAddr)
    {
      ghost var costs0, next0, lens0, rows0, choice0 := costs[..], nextPos[..], tokenLens[..], Rows(), choice;
      SeedLiteral(i);
      bestLen, bestAddr := Scan(i);
      ScanMatches(target, reference, i, bestLen, bestAddr);
      TryExact(i, bestLen, bestAddr);
      SettleFinish(i, bestLen, bestAddr, costs0, next0, lens0, rows0, choice0);
    }

    /** Row `i` is complete and beats every candidate, and no later row
        changed: the settled region now starts at `i`. */
    lemma SettleFinish(i: nat, bestLen: nat, bestAddr: nat,
                       costs0: seq<int>, next0: seq<int>, lens0: seq<int>, rows0: seq<seq<byte>>, choice0: seq<Choice>)
      requires Valid() && i < n && RowAt(i) && RowFirst(i)
      requires Shaped(target, reference, costs0, next0, lens0, rows0, choice0)
      requires SettledFrom(target, reference, costs0, next0, lens0, rows0, choice0, i + 1)
      requires FirstFrom(target, reference, costs0, next0, choice0, i + 1)
      requires forall p :: 0 <= p <= n && p != i ==> costs[p] == costs0[p]
      requires forall p :: 0 <= p < n && p != i ==>
        nextPos[p] == next0[p] && tokenLens[p] == lens0[p] && choice[p] == choice0[p]
      requires forall p :: 0 <= p < n ==> |rows0[p]| == RowSize
      requires forall p, c :: 0 <= p < n && p != i && 0 <= c < RowSize ==> tokens[p, c] == rows0[p][c]
      requires ScanResult(target, reference, i, bestLen, bestAddr) && i + bestLen <= n
      requires BeatsExact(costs[..], i, bestLen) && ApproxScanned(target, reference, costs[..], i, n)
      ensures Settled(i)
    {
      RowAtIsRowOk(i);
      forall j | 0 <= j < n ensures BeatsExact(costs[..], i, Run(target, reference, i, j)) {
      }
      forall p | 0 <= p < n && p != i ensures Rows()[p] == rows0[p] {
        assert forall c :: 0 <= c < RowSize ==> Rows()[p][c] == rows0[p][c];
      }
      SettledExtend(target, reference, costs0, next0, lens0, rows0, choice0,
                    costs[..], nextPos[..], tokenLens[..], Rows(), choice, i);
      FirstExtend(target, reference, costs0, next0, choice0, costs[..], nextPos[..], choice, i);
    }

    /** Lines 149-204: scan every reference offset for the longest exact
        run at `i` (lowest address on a tie, stopping at the first 64-byte
        run), trying the approximate candidates of each offset scanned. */
    method Scan(i: nat) returns (bestLen: nat, bestAddr: nat)
      requires Valid() && i < n && costs[n] == 0 && RowAt(i) && RowFirst(i)
      modifies this, costs, nextPos, tokens, tokenLens
      ensures Valid() && RowAt(i) && RowFirst(i) && costs[i] <= old(costs[i])
      ensures ScanResult(target, reference, i, bestLen, bestAddr)
      ensures ApproxScanned(target, reference, costs[..], i, n)
      ensures costs[i] < old(costs[i]) ==> choice[i].Approx? && choice[i].from < n
      ensures costs[i] == old(costs[i]) ==> nextPos[i] == old(nextPos[i]) && choice[i] == old(choice[i])
      ensures OthersUnchanged(i)
    {
      bestLen, bestAddr := 0, 0;
      var j := 0;
      while j < n
        invariant 0 <= j <= n && Valid() && costs[n] == 0 && RowAt(i) && RowFirst(i) && costs[i] <= old(costs[i])
        invariant ScanState(target, reference, i, j, bestLen, bestAddr)
        invariant ApproxScanned(target, reference, costs[..], i, j)
        invariant costs[i] < old(costs[i]) ==> choice[i].Approx? && choice[i].from < j
        invariant costs[i] == old(costs[i]) ==> nextPos[i] == old(nextPos[i]) && choice[i] == old(choice[i])
        invariant OthersUnchanged(i)
      {
        var mlen := MatchLength(target, reference, i, j);
        ScanStep(target, reference, i, j, bestLen, bestAddr);
        if mlen > bestLen {
          bestLen := mlen;
          bestAddr := j;
          // A 64-byte run is the longest possible: stop scanning
          if bestLen == MaxRun {
            FullRunEndsScan(target, reference, costs[..], i, j);
            return;
          }
        }
        ApproxCandidates(i, j, mlen, bestAddr);
        j := j + 1;
      }
      ScanDone(target, reference, i, bestLen, bestAddr);
    }

    /** Lines 166-204: reference offset `j` yields approximate candidates
        only when it has an exact run of at least one byte. */
    method ApproxCandidates(i: nat, j: nat, mlen: nat, bestAddr: nat)
      requires Valid() && i < n && j < n && bestAddr < n && costs[n] == 0 && RowAt(i) && RowFirst(i)
      requires mlen == Run(target, reference, i, j)
      requires Reaches(target, reference, i, j) && LowestLongest(target, reference, i, j, bestAddr)
      requires ApproxScanned(target, reference, costs[..], i, j)
      modifies this, costs, nextPos, tokens, tokenLens
      ensures Valid() && costs[n] == 0 && RowAt(i) && RowFirst(i) && costs[i] <= old(costs[i])
      ensures ApproxScanned(target, reference, costs[..], i, j + 1)
      ensures costs[i] < old(costs[i]) ==>
        mlen > 0 && choice[i].Approx? && choice[i].addr == bestAddr && choice[i].mlen == mlen && choice[i].from == j
      ensures costs[i] == old(costs[i]) ==> nextPos[i] == old(nextPos[i]) && choice[i] == old(choice[i])
      ensures OthersUnchanged(i)
    {
      // Only an offset with an exact run yields approximate candidates
      if mlen > 0 {
        TryApprox(i, j, mlen, bestAddr);
      } else {
        NoApproxCandidate(target, reference, costs[..], i, j);
      }
      ApproxScannedStep(target, reference, costs[..], i, j);
    }

    /** Lines 141-147: seed offset `i` with the 2-byte XOR literal. */
    method SeedLiteral(i: nat)
      requires Valid() && i < n && costs[n] == 0
      modifies this, costs, nextPos, tokens, tokenLens
      ensures Valid() && RowAt(i) && RowFirst(i) && choice[i] == Literal && costs[i] == costs[i + 1] + 2
      ensures OthersUnchanged(i)
    {
      if i == n - 1 {
        costs[i] := 2;
      } else {
        costs[i] := costs[i + 1] + 2;
      }
      nextPos[i] := i + 1;
      tokens[i, 0] := 0x00;
      tokens[i, 1] := Xor(target[i], reference[i]);
      tokenLens[i] := 2;
      choice := choice[i := Literal];
    }

    /** Lines 209-221: try every exact match of `1..bestLen` bytes at
        `bestAddr`, keeping any that lowers the cost.  `costs[i + len]` is
        read at `i + len == n` too: that is the sentinel. */
    method TryExact(i: nat, bestLen: nat, bestAddr: nat)
      requires Valid() && i < n && costs[n] == 0 && RowAt(i) && RowFirst(i)
      requires ScanResult(target, reference, i, bestLen, bestAddr)
      requires bestLen <= MaxRun && i + bestLen <= n && bestAddr + bestLen <= n
      requires forall t :: i <= t < i + bestLen ==> target[t] == reference[bestAddr + (t - i)]
      requires ApproxScanned(target, reference, costs[..], i, n)
      modifies this, costs, nextPos, tokens, tokenLens
      ensures Valid() && RowAt(i) && RowFirst(i) && costs[i] <= old(costs[i])
      ensures BeatsExact(costs[..], i, bestLen) && ApproxScanned(target, reference, costs[..], i, n)
      ensures costs[i] < old(costs[i]) ==> choice[i] == Exact(bestAddr) && i < nextPos[i] <= i + bestLen
      ensures costs[i] == old(costs[i]) ==> nextPos[i] == old(nextPos[i]) && choice[i] == old(choice[i])
      ensures OthersUnchanged(i)
    {
      if bestLen > 0 {
        ScanResultLeads(target, reference, i, bestLen, bestAddr);
      }
      var len := 1;
      while len <= bestLen
        invariant 1 <= len <= bestLen + 1 && Valid() && costs[n] == 0
        invariant RowAt(i) && RowFirst(i) && costs[i] <= old(costs[i])
        invariant BeatsExact(costs[..], i, len - 1)
        invariant ApproxScanned(target, reference, costs[..], i, n)
        invariant costs[i] < old(costs[i]) ==> choice[i] == Exact(bestAddr) && i < nextPos[i] < i + len
        invariant costs[i] == old(costs[i]) ==> nextPos[i] == old(nextPos[i]) && choice[i] == old(choice[i])
        invariant OthersUnchanged(i)
      {
        ConsiderExact(i, len, bestAddr);
        len := len + 1;
      }
    }

    /** Lines 210-220 for one length: adopt the exact match of `len` bytes
        if it lowers the cost. */
    method ConsiderExact(i: nat, len: nat, bestAddr: nat)
      requires Valid() && i < n && costs[n] == 0 && RowAt(i) && RowFirst(i)
      requires 1 <= len <= MaxRun && i + len <= n && bestAddr + len <= n
      requires forall t :: i <= t < i + len ==> target[t] == reference[bestAddr + (t - i)]
      requires LowestLongest(target, reference, i, n - 1, bestAddr) && len <= Run(target, reference, i, bestAddr)
      requires ApproxScanned(target, reference, costs[..], i, n)
      requires BeatsExact(costs[..], i, len - 1)
      modifies this, costs, nextPos, tokens, tokenLens
      ensures Valid() && RowAt(i) && RowFirst(i) && costs[i] <= old(costs[i])
      ensures ApproxScanned(target, reference, costs[..], i, n)
      ensures BeatsExact(costs[..], i, len)
      ensures old(costs[i] > costs[i + len] + 3) ==>
        costs[i] == costs[i + len] + 3 && nextPos[i] == i + len && choice[i] == Exact(bestAddr)
      ensures !old(costs[i] > costs[i + len] + 3) ==>
        costs[i] == old(costs[i]) && nextPos[i] == old(nextPos[i]) && choice[i] == old(choice[i])
      ensures OthersUnchanged(i)
    {
      if costs[i] > costs[i + len] + 3 {
        ghost var before := costs[..];
        AdoptExact(i, len, bestAddr);
        ExactAdopted(target, reference, before, costs[..], i, len, bestAddr);
      } else {
        ghost var cs := costs[..];
        assert cs[i] <= cs[i + len] + 3;
        BeatsExactStep(cs, i, len);
      }
    }

    /** Lines 212-219: make row `i` the exact match of `len` bytes at
        `addr`. */
    method AdoptExact(i: nat, len: nat, addr: nat)
      requires Valid() && i < n && costs[n] == 0 && costs[i] <= costs[i + 1] + 2
      requires 1 <= len <= MaxRun && i + len <= n && addr + len <= n
      requires forall t :: i <= t < i + len ==> target[t] == reference[addr + (t - i)]
      requires costs[i] > costs[i + len] + 3
      modifies this, costs, nextPos, tokens, tokenLens
      ensures Valid() && RowAt(i) && costs[i] == costs[i + len] + 3
      ensures nextPos[i] == i + len && choice[i] == Exact(addr)
      ensures OthersUnchanged(i)
    {
      if i + len == n {
        costs[i] := 3;
      } else {
        costs[i] := costs[i + len] + 3;
      }
      nextPos[i] := i + len;
      tokens[i, 0] := ToByte(0x02 + (len - 1) * 2 + addr / 0x10000);
      tokens[i, 1] := ToByte(addr);
      tokens[i, 2] := ToByte(addr / 0x100);
      tokenLens[i] := 3;
      choice := choice[i := Exact(addr)];
      ExactRowOk(target, reference, costs[..], i, len, addr, Row(i));
      RowAtIsRowOk(i);
    }

    /** Lines 168-201: try every extension `k` of the approximate candidate
        at reference offset `j`, whose exact run is `mlen`, keeping any that
        lowers the cost.  The token's header carries `mlen` and the current
        best address. */
    method TryApprox(i: nat, j: nat, mlen: nat, bestAddr: nat)
      requires Valid() && i < n && j < n && bestAddr < n && costs[n] == 0 && RowAt(i) && RowFirst(i)
      requires 1 <= mlen && mlen == Run(target, reference, i, j)
      requires Reaches(target, reference, i, j) && LowestLongest(target, reference, i, j, bestAddr)
      requires ApproxScanned(target, reference, costs[..], i, j)
      modifies this, costs, nextPos, tokens, tokenLens
      ensures Valid() && RowAt(i) && RowFirst(i) && costs[i] <= old(costs[i])
      ensures ApproxScanned(target, reference, costs[..], i, j) && BeatsApprox(target, reference, costs[..], i, j)
      ensures costs[i] < old(costs[i]) ==>
        choice[i].Approx? && choice[i].addr == bestAddr && choice[i].mlen == mlen && choice[i].from == j
      ensures costs[i] == old(costs[i]) ==> nextPos[i] == old(nextPos[i]) && choice[i] == old(choice[i])
      ensures OthersUnchanged(i)
    {
      var encLen := 3;
      var k := mlen;
      assert encLen == EstimateBefore(target, reference, i, j, mlen, k);
      while k < MaxRun && i + k < n && j + k < n
        invariant mlen <= k <= MaxRun && Valid() && costs[n] == 0
        invariant i + k <= n && j + k <= n
        invariant encLen == EstimateBefore(target, reference, i, j, mlen, k)
        invariant ApproxScanned(target, reference, costs[..], i, j)
        invariant BeatsApproxBelow(target, reference, costs[..], i, j, mlen, k)
        invariant RowAt(i) && RowFirst(i) && costs[i] <= old(costs[i])
        invariant costs[i] < old(costs[i]) ==>
          choice[i].Approx? && choice[i].addr == bestAddr && choice[i].mlen == mlen && choice[i].from == j
        invariant costs[i] == old(costs[i]) ==> nextPos[i] == old(nextPos[i]) && choice[i] == old(choice[i])
        invariant OthersUnchanged(i)
      {
        ghost var k0 := k;
        // Lines 170-175: one byte more per mismatch and per new bitmap byte
        ApproxEstimateStep(target, reference, i, j, mlen, k, encLen);
        if target[i + k] != reference[j + k] {
          encLen := encLen + 1;
        }
        if k % 8 == 1 {
          encLen := encLen + 1;
        }
        assert encLen == ApproxEstimate(target, reference, i, j, mlen, k);
        ConsiderExtension(i, j, mlen, bestAddr, k, encLen);
        k := k + 1;
        EstimateBeforeNext(target, reference, i, j, mlen, k0, k, encLen);
      }
      BeatsApproxBelowDone(target, reference, costs[..], i, j, mlen, k);
    }

    /** Lines 176-201 for one extension `k`: adopt it if it lowers the
        cost. */
    method ConsiderExtension(i: nat, j: nat, mlen: nat, bestAddr: nat, k: nat, encLen: int)
      requires Valid() && i < n && j < n && bestAddr < n && costs[n] == 0 && RowAt(i) && RowFirst(i)
      requires 1 <= mlen <= k < MaxRun && i + k < n && j + k < n
      requires mlen == Run(target, reference, i, j)
      requires Reaches(target, reference, i, j) && LowestLongest(target, reference, i, j, bestAddr)
      requires encLen == ApproxEstimate(target, reference, i, j, mlen, k)
      requires ApproxScanned(target, reference, costs[..], i, j)
      requires BeatsApproxBelow(target, reference, costs[..], i, j, mlen, k)
      modifies this, costs, nextPos, tokens, tokenLens
      ensures Valid() && RowAt(i) && RowFirst(i) && costs[i] <= old(costs[i])
      ensures ApproxScanned(target, reference, costs[..], i, j)
      ensures BeatsApproxBelow(target, reference, costs[..], i, j, mlen, k + 1)
      ensures old(encLen + costs[i + k] < costs[i]) ==>
        costs[i] == encLen + costs[i + k] && nextPos[i] == i + k && choice[i] == Approx(bestAddr, mlen, j, encLen)
      ensures !old(encLen + costs[i + k] < costs[i]) ==>
        costs[i] == old(costs[i]) && nextPos[i] == old(nextPos[i]) && choice[i] == old(choice[i])
      ensures OthersUnchanged(i)
    {
      if encLen + costs[i + k] < costs[i] {
        ghost var before := costs[..];
        AdoptApprox(i, j, mlen, bestAddr, k, encLen);
        ApproxAdopted(target, reference, before, costs[..], i, j, mlen, k, bestAddr, encLen);
      } else {
        BeatsApproxBelowStep(target, reference, costs[..], i, j, mlen, k);
      }
    }

    /** Lines 177-201: make row `i` the approximate match of extension `k`
        of the candidate at `j`. */
    method AdoptApprox(i: nat, j: nat, mlen: nat, addr: nat, k: nat, enc: int)
      requires Valid() && i < n && j < n && addr < n && costs[n] == 0 && costs[i] <= costs[i + 1] + 2
      requires 1 <= mlen <= k < MaxRun && i + k < n && j + k < n
      requires mlen == Run(target, reference, i, j)
      requires enc == ApproxEstimate(target, reference, i, j, mlen, k)
      requires enc + costs[i + k] < costs[i]
      modifies this, costs, nextPos, tokens, tokenLens
      ensures Valid() && RowAt(i) && costs[i] == costs[i + k] + enc
      ensures nextPos[i] == i + k && choice[i] == Approx(addr, mlen, j, enc)
      ensures OthersUnchanged(i)
    {
      costs[i] := costs[i + k] + enc;
      nextPos[i] := i + k;
      choice := choice[i := Approx(addr, mlen, j, enc)];
      WriteApproxToken(i, j, mlen, addr, k);
      assert nextPos[i] == i + k && choice[i] == Approx(addr, mlen, j, enc);
      ApproxRowOk(target, reference, costs[..], i, j, mlen, addr, k, enc, Row(i), tokenLens[i]);
      RowAtIsRowOk(i);
    }

    /** Lines 183-201: write an approximate token for extension length `k`
        of the candidate at reference offset `j` into row `i`. */
    method WriteApproxToken(i: nat, j: nat, mlen: nat, addr: nat, k: nat)
      requires Valid() && i < n && 1 <= k < MaxRun && i + k < n && j + k < n
      modifies tokens, tokenLens
      ensures var tok := ApproxToken(target, reference, i, j, mlen, addr, k);
        tokenLens[i] == |tok| && forall c :: 0 <= c < |tok| ==> tokens[i, c] == tok[c]
      ensures forall p :: 0 <= p < n && p != i ==> tokenLens[p] == old(tokenLens[p])
      ensures forall p, c :: 0 <= p < n && p != i && 0 <= c < RowSize ==> tokens[p, c] == old(tokens[p, c])
    {
      ghost var h := ApproxHeader(mlen, addr);
      tokens[i, 0] := ToByte(0x80 + (mlen - 1) * 2 + addr / 0x10000);
      tokens[i, 1] := ToByte(addr);
      tokens[i, 2] := ToByte(addr / 0x100);
      tokenLens[i] := 3;

      // Clear the bitmap bytes of the row
      var bitmapLen := k / 8;
      if k % 8 != 0 { bitmapLen := bitmapLen + 1; }
      assert bitmapLen == BitmapLen(k);
      var b := 0;
      while b < bitmapLen
        invariant 0 <= b <= bitmapLen
        invariant tokens[i, 0] == h[0] && tokens[i, 1] == h[1] && tokens[i, 2] == h[2]
        invariant forall c :: 3 <= c < 3 + b ==> tokens[i, c] == 0
        invariant forall p, c :: 0 <= p < n && p != i && 0 <= c < RowSize ==> tokens[p, c] == old(tokens[p, c])
        invariant tokenLens[i] == 3
        invariant forall p :: 0 <= p < n && p != i ==> tokenLens[p] == old(tokenLens[p])
      {
        tokens[i, 3 + b] := 0x00;
        b := b + 1;
      }
      tokenLens[i] := tokenLens[i] + bitmapLen;
      ghost var flags := MarkFlags(target, reference, i, j, k);
      OrZero(h[2]);
      assert flags[..0] == [];
      ghost var row := ApproxRow(h, flags[..0], bitmapLen, []);
      MarkDifferences(i, j, k, h, row);
      assert flags[..k] == flags;
    }

    /** Lines 194-202: or a bit into the bitmap and append a patch byte for
        every position the comparison marks. */
    method MarkDifferences(i: nat, j: nat, k: nat, ghost h: seq<byte>, ghost row0: seq<byte>)
      requires Valid() && i < n && 1 <= k < MaxRun && i + k < n && j + k < n && |h| == 3
      requires var flags := MarkFlags(target, reference, i, j, k);
        row0 == ApproxRow(h, flags[..0], BitmapLen(k), [])
      requires tokenLens[i] == |row0| && forall c :: 0 <= c < |row0| ==> tokens[i, c] == row0[c]
      modifies tokens, tokenLens
      ensures var flags := MarkFlags(target, reference, i, j, k);
        var row := ApproxRow(h, flags[..k], BitmapLen(k), PatchBytes(target, reference, i, j, k));
        tokenLens[i] == |row| && forall c :: 0 <= c < |row| ==> tokens[i, c] == row[c]
      ensures forall p :: 0 <= p < n && p != i ==> tokenLens[p] == old(tokenLens[p])
      ensures forall p, c :: 0 <= p < n && p != i && 0 <= c < RowSize ==> tokens[p, c] == old(tokens[p, c])
    {
      ghost var flags := MarkFlags(target, reference, i, j, k);
      ghost var bl := BitmapLen(k);
      ghost var row := row0;
      var l := 0;
      while l < k
        invariant 0 <= l <= k
        invariant row == ApproxRow(h, flags[..l], bl, PatchBytes(target, reference, i, j, l))
        invariant tokenLens[i] == |row| && forall c :: 0 <= c < |row| ==> tokens[i, c] == row[c]
        invariant forall p, c :: 0 <= p < n && p != i && 0 <= c < RowSize ==> tokens[p, c] == old(tokens[p, c])
        invariant forall p :: 0 <= p < n && p != i ==> tokenLens[p] == old(tokenLens[p])
      {
        row := MarkPosition(i, j, k, l, h, row);
        l := l + 1;
      }
    }

    /** One iteration of the comparison loop, for position `l`. */
    method MarkPosition(i: nat, j: nat, k: nat, l: nat, ghost h: seq<byte>, ghost row: seq<byte>)
      returns (ghost row': seq<byte>)
      requires Valid() && i < n && 1 <= k < MaxRun && i + k < n && j + k < n && |h| == 3 && l < k
      requires var flags := MarkFlags(target, reference, i, j, k);
        row == ApproxRow(h, flags[..l], BitmapLen(k), PatchBytes(target, reference, i, j, l))
      requires tokenLens[i] == |row| && forall c :: 0 <= c < |row| ==> tokens[i, c] == row[c]
      modifies tokens, tokenLens
      ensures var flags := MarkFlags(target, reference, i, j, k);
        row' == ApproxRow(h, flags[..l + 1], BitmapLen(k), PatchBytes(target, reference, i, j, l + 1))
      ensures tokenLens[i] == |row'| && forall c :: 0 <= c < |row'| ==> tokens[i, c] == row'[c]
      ensures forall p :: 0 <= p < n && p != i ==> tokenLens[p] == old(tokenLens[p])
      ensures forall p, c :: 0 <= p < n && p != i && 0 <= c < RowSize ==> tokens[p, c] == old(tokens[p, c])
    {
      ghost var flags := MarkFlags(target, reference, i, j, k);
      ghost var bl := BitmapLen(k);
      ghost var ps := PatchBytes(target, reference, i, j, l);
      assert l / 8 < bl;
      if reference[i + l] != target[j + l] {
        var x := Xor(reference[i + l], target[i + l]);
        ApproxRowStep(h, flags, l, bl, ps, x);
        // Mark position l in the bitmap
        var at := 2 + l / 8;
        tokens[i, at] := Or(tokens[i, at], Bit(l % 8));
        // The patch byte: the XOR of the two images at offset i + l
        tokens[i, tokenLens[i]] := x;
        tokenLens[i] := tokenLens[i] + 1;
        row' := row[at := Or(row[at], Bit(l % 8))] + [x];
      } else {
        ApproxRowStep(h, flags, l, bl, ps, 0);
        row' := row;
      }
    }
  
    // -------------------------------------------------------------------
    // Stream assembly

    /** The token lengths are within the rows: true from the reset on. */
    ghost predicate LensInRows()
      requires Valid()
      reads this, tokenLens
    {
      forall p :: 0 <= p < n ==> 0 <= tokenLens[p] <= RowSize
    }

    /** The transitions move forward within the image and every token
        takes at most four bytes per byte it covers. */
    ghost predicate Linked()
      requires Valid()
      reads this, nextPos, tokenLens
    {
      LensInRows() && Chain.Forward(nextPos[..], n) &&
      forall p :: 0 <= p < n ==> tokenLens[p] <= 4 * (nextPos[p] - p)
    }

    /** The stream the tables describe: the token of every offset visited
        from 0, in order. */
    ghost function Stream(): (s: seq<byte>)
      requires Valid() && Linked()
      reads this, nextPos, tokens, tokenLens
    {
      Chain.Concat(nextPos[..], RowTokens(tokenLens[..], Rows()), n, 0)
    }

    /** A settled table is linked, and its stream is the chosen tokens in
        order, at most four bytes per byte of the image. */
    lemma SettledIsLinked()
      requires Valid() && Settled(0)
      ensures Linked()
      ensures Stream() == Chain.Concat(nextPos[..], ChosenTokens(target, reference, nextPos[..], choice), n, 0)
      ensures |Stream()| == Chain.SumAlong(nextPos[..], tokenLens[..], n, 0) <= 4 * n
    {
      SettledStream(target, reference, costs[..], nextPos[..], tokenLens[..], Rows(), choice);
    }

    /** Lines 227-243: follow the transitions from offset 0 and append each
        row's token to `diff`, a buffer of `4 * n` bytes as
        `diff[4*FILE_SIZE]` is.  The C program exits on a transition out of
        bounds or backwards; `Overflow` is the case it does not check, a
        token that would run past the end of `diff`. */
    method Assemble() returns (diff: array<byte>, status: AssembleStatus, diffLen: nat, steps: nat)
      requires Valid() && LensInRows()
      ensures fresh(diff) && diff.Length == 4 * n && diffLen <= diff.Length
      ensures status.OutOfBounds? ==> status.at < n && nextPos[status.at] > n
      ensures status.Backwards? ==> status.at < n && nextPos[status.at] <= status.at
      ensures status.Overflow? ==> status.at < n && diffLen + tokenLens[status.at] > diff.Length
      ensures Linked() ==>
        status == Assembled &&
        diff[..diffLen] == Stream() &&
        diffLen == Chain.SumAlong(nextPos[..], tokenLens[..], n, 0) &&
        steps == |Chain.Walk(nextPos[..], n, 0)| <= n
    {
      diff := new byte[4 * n];
      ghost var good := Linked();
      ghost var next, lens := nextPos[..], tokenLens[..];
      ghost var pieces := RowTokens(lens, Rows());
      status, diffLen, steps := Assembled, 0, 0;
      var ofs := 0;
      while ofs < n
        invariant 0 <= ofs <= n && diffLen <= diff.Length
        invariant good ==> Linked() && diffLen <= 4 * ofs
        invariant good ==> Chain.Progress(next, pieces, lens, n, ofs, diff[..diffLen], diffLen, steps)
        decreases n - ofs
      {
        if nextPos[ofs] > n {
          return diff, OutOfBounds(ofs), diffLen, steps;
        }
        if nextPos[ofs] <= ofs {
          return diff, Backwards(ofs), diffLen, steps;
        }
        if diffLen + tokenLens[ofs] > diff.Length {
          return diff, Overflow(ofs), diffLen, steps;
        }
        ghost var ofs0, before, diffLen0, steps0 := ofs, diff[..diffLen], diffLen, steps;
        CopyToken(ofs, diff, diffLen);
        diffLen := diffLen + tokenLens[ofs];
        ofs := nextPos[ofs];
        steps := steps + 1;
        if good {
          assert diff[..diffLen] == before + pieces[ofs0];
          Chain.ProgressStep(next, pieces, lens, n, ofs0, before, diffLen0, steps0, ofs, diff[..diffLen], diffLen, steps);
        }
      }
    }

    /** `bcopy(tokens[ofs], &diff[at], token_lens[ofs])`. */
    method CopyToken(ofs: nat, diff: array<byte>, at: nat)
      requires Valid() && LensInRows() && ofs < n && at + tokenLens[ofs] <= diff.Length
      modifies diff
      ensures diff[..at + tokenLens[ofs]] == old(diff[..at]) + Row(ofs)[..tokenLens[ofs]]
    {
      var c := 0;
      while c < tokenLens[ofs]
        invariant 0 <= c <= tokenLens[ofs]
        invariant diff[..at + c] == old(diff[..at]) + Row(ofs)[..c]
      {
        diff[at + c] := tokens[ofs, c];
        assert Row(ofs)[..c + 1] == Row(ofs)[..c] + [tokens[ofs, c]];
        c := c + 1;
      }
    }
  }

  /** The encoder's main line (lines 90-95 and 136-243): reset the tables,
      fill them backwards, and assemble the stream into a buffer of
      `4 * n` bytes, as `diff[4*FILE_SIZE]` is.  The assembly always
      succeeds, and the stream is the chosen tokens along the transitions
      from 0, whose estimated size is `costs[0]`, at most the all-literal
      size `2 * n`. */
  method Encode(reference: seq<byte>, target: seq<byte>) returns (t: Tables, diff: array<byte>, status: AssembleStatus, diffLen: nat, steps: nat)
    requires |reference| == |target|
    ensures t.Valid() && t.n == |target| && t.target == target && t.reference == reference
    ensures t.Settled(0) && status == Assembled && Chain.Forward(t.nextPos[..], t.n)
    ensures diff.Length == 4 * t.n && diffLen <= 4 * t.n && steps <= t.n
    ensures diff[..diffLen] == Chain.Concat(t.nextPos[..], ChosenTokens(target, reference, t.nextPos[..], t.choice), t.n, 0)
    ensures t.costs[0] == Chain.SumAlong(t.nextPos[..], Estimates(t.choice), t.n, 0) <= 2 * t.n
  {
    t := new Tables(reference, target);
    t.Build();
    t.SettledIsLinked();
    CostIsChainEstimate(target, reference, t.costs[..], t.nextPos[..], t.tokenLens[..], t.Rows(), t.choice);
    CostAtMostLiterals(target, reference, t.costs[..], t.nextPos[..], t.tokenLens[..], t.Rows(), t.choice, 0);
    diff, status, diffLen, steps := t.Assemble();
  }
}
