/** The chain of transitions the encoder's tables describe: starting at an
    offset, follow `next` until the end of the image, and add up a weight
    per visited offset (an encoded size, a token length). */
module Chain {

  /** Every offset below `n` moves strictly forward, to at most `n`. */
  ghost predicate Forward(next: seq<int>, n: nat)
  {
    |next| == n && forall p :: 0 <= p < n ==> p < next[p] <= n
  }

  /** The offsets visited from `p`: `p`, `next[p]`, ... up to but not
      including `n`.  There are at most `n - p` of them, each in `[p, n)`. */
  ghost function Walk(next: seq<int>, n: nat, p: nat): (w: seq<nat>)
    requires Forward(next, n) && p <= n
    decreases n - p
    ensures |w| <= n - p
    ensures forall k :: 0 <= k < |w| ==> p <= w[k] < n
    ensures p < n ==> |w| >= 1 && w[0] == p
  {
    if p == n then [] else [p] + Walk(next, n, next[p])
  }

  /** The sum of `w[q]` over the offsets `q` visited from `p`. */
  ghost function SumAlong(next: seq<int>, w: seq<int>, n: nat, p: nat): (s: int)
    requires Forward(next, n) && |w| == n && p <= n
    decreases n - p
  {
    if p == n then 0 else w[p] + SumAlong(next, w, n, next[p])
  }

  /** When every step's weight is at most `c` per offset it advances, the
      whole walk from `p` weighs at most `c` per remaining offset. */
  lemma {:induction false} SumAlongBound(next: seq<int>, w: seq<int>, n: nat, p: nat, c: nat)
    requires Forward(next, n) && |w| == n && p <= n
    requires forall q :: 0 <= q < n ==> 0 <= w[q] <= c * (next[q] - q)
    ensures 0 <= SumAlong(next, w, n, p) <= c * (n - p)
    decreases n - p
  {
    if p < n {
      SumAlongBound(next, w, n, next[p], c);
      assert c * (next[p] - p) + c * (n - next[p]) == c * (n - p);
    }
  }

  /** A cost table that satisfies the recurrence `cost[q] = w[q] +
      cost[next[q]]`, with `cost[n] = 0`, holds at every offset the total
      weight of the walk from that offset. */
  lemma {:induction false} RecurrenceIsSumAlong(next: seq<int>, w: seq<int>, cost: seq<int>, n: nat, p: nat)
    requires Forward(next, n) && |w| == n && |cost| == n + 1 && cost[n] == 0
    requires forall q :: 0 <= q < n ==> cost[q] == w[q] + cost[next[q]]
    requires p <= n
    ensures cost[p] == SumAlong(next, w, n, p)
    decreases n - p
  {
    if p < n {
      RecurrenceIsSumAlong(next, w, cost, n, next[p]);
    }
  }

  /** The pieces of the offsets visited from `p`, in order. */
  ghost function Concat<T>(next: seq<int>, pieces: seq<seq<T>>, n: nat, p: nat): (s: seq<T>)
    requires Forward(next, n) && |pieces| == n && p <= n
    decreases n - p
  {
    if p == n then [] else pieces[p] + Concat(next, pieces, n, next[p])
  }

  /** The concatenation is as long as the sum of its pieces' lengths. */
  lemma {:induction false} ConcatLength<T>(next: seq<int>, pieces: seq<seq<T>>, w: seq<int>, n: nat, p: nat)
    requires Forward(next, n) && |pieces| == n && |w| == n && p <= n
    requires forall q :: 0 <= q < n ==> w[q] == |pieces[q]|
    ensures |Concat(next, pieces, n, p)| == SumAlong(next, w, n, p)
    decreases n - p
  {
    if p < n {
      ConcatLength(next, pieces, w, n, next[p]);
    }
  }

  /** Pieces that agree everywhere give the same concatenation. */
  lemma {:induction false} ConcatAgree<T>(next: seq<int>, pieces1: seq<seq<T>>, pieces2: seq<seq<T>>, n: nat, p: nat)
    requires Forward(next, n) && |pieces1| == n && |pieces2| == n && p <= n
    requires forall q :: 0 <= q < n ==> pieces1[q] == pieces2[q]
    ensures Concat(next, pieces1, n, p) == Concat(next, pieces2, n, p)
    decreases n - p
  {
    if p < n {
      ConcatAgree(next, pieces1, pieces2, n, next[p]);
    }
  }

  /** A walk from 0 that has reached `ofs` after `steps` steps, having
      collected `prefix` and the weight `total` on the way. */
  ghost predicate Progress<T>(next: seq<int>, pieces: seq<seq<T>>, w: seq<int>, n: nat, ofs: nat, prefix: seq<T>, total: int, steps: int)
    requires Forward(next, n) && |pieces| == n && |w| == n && ofs <= n
  {
    prefix + Concat(next, pieces, n, ofs) == Concat(next, pieces, n, 0) &&
    total + SumAlong(next, w, n, ofs) == SumAlong(next, w, n, 0) &&
    steps + |Walk(next, n, ofs)| == |Walk(next, n, 0)|
  }

  /** One step of the walk. */
  lemma ProgressStep<T>(next: seq<int>, pieces: seq<seq<T>>, w: seq<int>, n: nat, ofs: nat, prefix: seq<T>, total: int, steps: int,
                        ofs': nat, prefix': seq<T>, total': int, steps': int)
    requires Forward(next, n) && |pieces| == n && |w| == n && ofs < n
    requires Progress(next, pieces, w, n, ofs, prefix, total, steps)
    requires ofs' == next[ofs] && prefix' == prefix + pieces[ofs] && total' == total + w[ofs] && steps' == steps + 1
    ensures Progress(next, pieces, w, n, ofs', prefix', total', steps')
  {
    assert Concat(next, pieces, n, ofs) == pieces[ofs] + Concat(next, pieces, n, next[ofs]);
    assert prefix + pieces[ofs] + Concat(next, pieces, n, next[ofs]) == prefix + Concat(next, pieces, n, ofs);
  }
}
