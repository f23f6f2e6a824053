/** The partitioning rule shared by summarize_par and summarize_async:
    N elements over nh workers give nh regular chunks of `span = N / nh`
    elements, `[i*span, (i+1)*span)`, and a tail `[nh*span, N)` of
    `last_span = N % nh` elements. */
module Partition {
  import opened Sums

  /** The two quantities both parallel routines compute first. */
  datatype Split = Split(span: nat, lastSpan: nat)

  /** `span = N / nh`, `last_span = N % nh`; the worker count must be
      positive because the division is not guarded. The regular chunks and
      the tail account for every element, and the tail is shorter than one
      element per worker. */
  function SplitOf(n: nat, nh: nat): (p: Split)
    requires nh > 0
    ensures nh * p.span + p.lastSpan == n
    ensures p.lastSpan < nh
  {
    Split(n / nh, n % nh)
  }

  /** Multiplying by the same span keeps the order of chunk numbers. */
  lemma MulMonotone(a: nat, b: nat, span: nat)
    requires a <= b
    ensures a * span <= b * span
  {
    var d := b - a;
    assert b * span == a * span + d * span;
  }

  /** Every bound of regular chunk `i` lies within `[0, nh*span]`, and so
      within `[0, N]`. */
  lemma ChunkInRange(n: nat, nh: nat, i: nat)
    requires nh > 0 && i < nh
    ensures var span := SplitOf(n, nh).span;
      0 <= i * span <= (i + 1) * span <= nh * span <= n
  {
    var span := SplitOf(n, nh).span;
    MulMonotone(i, i + 1, span);
    MulMonotone(i + 1, nh, span);
  }

  /** Chunk `i` begins where chunk `i - 1` ends, and a later chunk begins
      no earlier than an earlier one ends: regular chunks are contiguous and
      pairwise disjoint. */
  lemma ChunksDisjoint(i: nat, j: nat, span: nat)
    requires i < j
    ensures (i + 1) * span <= j * span
    ensures i * span <= (i + 1) * span
  {
    MulMonotone(i + 1, j, span);
    MulMonotone(i, i + 1, span);
  }

  /** Every index below `nh*span` lies in a regular chunk, the one numbered
      `k / span`: together the regular chunks cover `[0, nh*span)`. */
  lemma ChunksCover(nh: nat, span: nat, k: nat)
    requires k < nh * span
    ensures span > 0
    ensures var i := k / span; i < nh && i * span <= k < (i + 1) * span
  {
    var i := k / span;
    assert i * span + k % span == k;
    if nh <= i {
      MulMonotone(nh, i, span);
    }
  }

  /** An index lies in no regular chunk other than chunk `k / span`. */
  lemma ChunkOfIndexIsUnique(span: nat, k: nat, j: nat)
    requires j * span <= k < (j + 1) * span
    ensures j == k / span
  {
    var i := k / span;
    assert i * span + k % span == k;
    if j < i {
      MulMonotone(j + 1, i, span);
    } else if i < j {
      MulMonotone(i + 1, j, span);
    }
  }

  /** The sum of regular chunk `i`, started from 0 as every worker does. */
  function ChunkSum(s: seq<int>, i: nat, span: nat): (r: int)
    requires (i + 1) * span <= |s|
  {
    Sum(s[i * span..(i + 1) * span])
  }

  /** The partial results of chunks `0 .. n-1`, in slot order: one per chunk. */
  function ChunkSums(s: seq<int>, n: nat, span: nat): (r: seq<int>)
    requires n * span <= |s|
    ensures |r| == n
  {
    if n == 0 then [] else
      assert (n - 1) * span <= n * span by { MulMonotone(n - 1, n, span); }
      ChunkSums(s, n - 1, span) + [ChunkSum(s, n - 1, span)]
  }

  /** Slot `i` of the partial results holds the sum of chunk `i`. */
  lemma {:induction false} ChunkSumsAt(s: seq<int>, n: nat, span: nat, i: nat)
    requires n * span <= |s| && i < n
    ensures (i + 1) * span <= |s|
    ensures |ChunkSums(s, n, span)| == n
    ensures ChunkSums(s, n, span)[i] == ChunkSum(s, i, span)
  {
    MulMonotone(i + 1, n, span);
    MulMonotone(n - 1, n, span);
    if i < n - 1 {
      ChunkSumsAt(s, n - 1, span, i);
    }
  }

  /** Summing the partial results gives the sum of the elements the regular
      chunks cover, `[0, n*span)`: no element is skipped or counted twice. */
  lemma {:induction false} SumOfChunkSums(s: seq<int>, n: nat, span: nat)
    requires n * span <= |s|
    ensures Sum(ChunkSums(s, n, span)) == Sum(s[..n * span])
  {
    if n > 0 {
      var lo, hi := (n - 1) * span, n * span;
      ChunkSumsStep(s, n, span, lo, hi);
      var prev, last := ChunkSums(s, n - 1, span), Sum(s[lo..hi]);
      SumOfChunkSums(s, n - 1, span);
      SumSnoc(prev, last);
      SumPrefixStep(s, lo, hi);
    }
  }

  /** The partial results of `n` chunks are those of the first `n - 1`
      chunks, which end at `lo`, followed by the sum of chunk `n - 1`,
      `[lo, hi)`. */
  lemma ChunkSumsStep(s: seq<int>, n: nat, span: nat, lo: nat, hi: nat)
    requires 0 < n && n * span <= |s|
    requires lo == (n - 1) * span && hi == n * span
    ensures lo <= hi <= |s|
    ensures ChunkSums(s, n, span) == ChunkSums(s, n - 1, span) + [Sum(s[lo..hi])]
  {
    MulMonotone(n - 1, n, span);
  }

  /** The combination of summarize_par and summarize_async without the
      caller's initial value: the tail, summed from 0 only when
      `last_span > 0`, plus the partial results. */
  function ChunkedSum(s: seq<int>, nh: nat): (r: int)
    requires nh > 0
  {
    var p := SplitOf(|s|, nh);
    (if p.lastSpan > 0 then Sum(s[nh * p.span..]) else 0)
      + Sum(ChunkSums(s, nh, p.span))
  }

  /** The chunked reduction equals the sequential sum for every worker count. */
  lemma ChunkedSumIsSequential(s: seq<int>, nh: nat)
    requires nh > 0
    ensures ChunkedSum(s, nh) == Sum(s)
  {
    var p := SplitOf(|s|, nh);
    var cut := nh * p.span;
    var tail := if p.lastSpan > 0 then Sum(s[cut..]) else 0;
    assert ChunkedSum(s, nh) == tail + Sum(ChunkSums(s, nh, p.span));
    SumOfChunkSums(s, nh, p.span);
    SumSplit(s, cut);
    if p.lastSpan == 0 {
      assert s[cut..] == [];
    }
    assert tail == Sum(s[cut..]);
  }

  /** Skipping the tail when `last_span == 0` loses nothing: the tail range
      is then empty, so always adding it would give the same result. */
  lemma TailSkipIsHarmless(s: seq<int>, nh: nat)
    requires nh > 0
    ensures SplitOf(|s|, nh).lastSpan == 0 <==> |s[nh * SplitOf(|s|, nh).span..]| == 0
    ensures ChunkedSum(s, nh)
      == Sum(s[nh * SplitOf(|s|, nh).span..]) + Sum(ChunkSums(s, nh, SplitOf(|s|, nh).span))
  {
    var p := SplitOf(|s|, nh);
    if p.lastSpan == 0 {
      assert s[nh * p.span..] == [];
    }
  }

  /** With fewer elements than workers every regular chunk is empty, each
      partial result is 0, and the tail is the whole input. */
  lemma FewerElementsThanWorkers(s: seq<int>, nh: nat)
    requires 0 < nh && |s| < nh
    ensures SplitOf(|s|, nh).span == 0
    ensures SplitOf(|s|, nh).lastSpan == |s|
    ensures Sum(ChunkSums(s, nh, 0)) == 0
    ensures s[nh * SplitOf(|s|, nh).span..] == s
  {
    SumOfChunkSums(s, nh, 0);
    assert s[..nh * 0] == [];
  }
}
