/** The three summation routines of main.cpp over a vector of `int`.
    For `summarize` an iterator into the vector is its index in `s`; the
    parallel routines take the forward range itself as `s`, and
    `std::next(start, k)` is index `k`. The worker threads and futures are
    run one after another in chunk order; each partial result is produced
    once and read only after its own task has completed. */
module Summarize {
  import opened Sums
  import opened Partition

  /** `summarize(start, stop, initial)`: add every element of
      `[start, stop)` to `initial`, left to right. The loop runs while
      `it < stop`, so a range whose start lies past its stop adds nothing. */
  method Summarize(s: seq<int>, start: nat, stop: nat, initial: int) returns (total: int)
    requires start <= |s| && stop <= |s|
    ensures start <= stop ==> total == initial + Sum(s[start..stop])
    ensures stop <= start ==> total == initial
  {
    total := initial;
    var it := start;
    while it < stop
      invariant start <= it && (start <= stop ==> it <= stop)
      invariant it == start || it <= stop
      invariant total == initial + Sum(s[start..it])
    {
      assert s[start..it + 1] == s[start..it] + [s[it]];
      SumSnoc(s[start..it], s[it]);
      total := total + s[it];
      it := it + 1;
    }
  }

  /** `std::accumulate(first, last, init)` with `+`: the loop runs while
      `first != last`, so the range must be valid, `first <= last`. */
  method Accumulate(s: seq<int>, first: nat, last: nat, init: int) returns (acc: int)
    requires first <= last <= |s|
    ensures acc == init + Sum(s[first..last])
  {
    acc := init;
    var it := first;
    while it != last
      invariant first <= it <= last
      invariant acc == init + Sum(s[first..it])
    {
      assert s[first..it + 1] == s[first..it] + [s[it]];
      SumSnoc(s[first..it], s[it]);
      acc := acc + s[it];
      it := it + 1;
    }
  }

  /** The body of worker thread `i` in summarize_par: sum chunk `i` from 0
      into slot `vr[i]`, and touch no other slot. */
  method ChunkTask(s: seq<int>, span: nat, vr: array<int>, i: nat)
    requires i < vr.Length && (i + 1) * span <= |s|
    modifies vr
    ensures vr[i] == ChunkSum(s, i, span)
    ensures forall j :: 0 <= j < vr.Length && j != i ==> vr[j] == old(vr[j])
  {
    assert i * span <= (i + 1) * span by { MulMonotone(i, i + 1, span); }
    vr[i] := Summarize(s, i * span, (i + 1) * span, 0);
  }

  /** The fork and join of summarize_par: one worker per slot of `vr`, worker
      `i` summing chunk `i`. Run one after another, each worker writes only
      its own slot, so afterwards the slots hold the partial results in
      chunk order. */
  method ForkJoin(s: seq<int>, span: nat, vr: array<int>)
    requires vr.Length * span <= |s|
    modifies vr
    ensures vr[..] == ChunkSums(s, vr.Length, span)
  {
    var i := 0;
    while i < vr.Length
      invariant 0 <= i <= vr.Length
      invariant i * span <= |s|
      invariant vr[..i] == ChunkSums(s, i, span)
    {
      assert (i + 1) * span <= |s| by { MulMonotone(i + 1, vr.Length, span); }
      ChunkTask(s, span, vr, i);
      assert vr[..i + 1] == vr[..i] + [vr[i]];
      i := i + 1;
    }
    assert vr[..] == vr[..i];
  }

  /** `summarize_par(start, stop, initial)` with `nh` workers: fork one
      worker per regular chunk, join them, add the tail when `last_span > 0`,
      then add the partial results. The result is the sequential sum, with
      `initial` counted once. */
  method SummarizePar(s: seq<int>, initial: int, nh: nat) returns (total: int)
    requires nh > 0
    ensures total == initial + Sum(s)
  {
    total := initial;
    var n := |s|;
    var span := n / nh;
    var lastSpan := n % nh;
    assert SplitOf(n, nh) == Split(span, lastSpan);
    var vr := new int[nh];
    ForkJoin(s, span, vr);
    // add last span
    ghost var tailSum := if lastSpan > 0 then Sum(s[nh * span..]) else 0;
    if lastSpan > 0 {
      var tail := Summarize(s, nh * span, n, 0);
      assert s[nh * span..n] == s[nh * span..];
      total := total + tail;
    }
    var partials := Summarize(vr[..], 0, nh, 0);
    assert vr[..][0..nh] == vr[..];
    total := total + partials;
    assert tailSum + Sum(ChunkSums(s, nh, span)) == Sum(s) by {
      ChunkedSumIsSequential(s, nh);
    }
  }

  /** The value the future of chunk `i` in summarize_async resolves to:
      `std::accumulate` over chunk `i` from 0. */
  method AsyncChunkTask(s: seq<int>, i: nat, span: nat) returns (r: int)
    requires (i + 1) * span <= |s|
    ensures r == ChunkSum(s, i, span)
  {
    assert i * span <= (i + 1) * span by { MulMonotone(i, i + 1, span); }
    r := Accumulate(s, i * span, (i + 1) * span, 0);
  }

  /** The fork of summarize_async: one future per slot of `vf`, future `i`
      resolving to the sum of chunk `i`. The futures are created in slot
      order and each is stored in its own slot. */
  method ForkFutures(s: seq<int>, span: nat, vf: array<int>)
    requires vf.Length * span <= |s|
    modifies vf
    ensures vf[..] == ChunkSums(s, vf.Length, span)
  {
    for i := 0 to vf.Length
      invariant i * span <= |s|
      invariant vf[..i] == ChunkSums(s, i, span)
    {
      assert (i + 1) * span <= |s| by { MulMonotone(i + 1, vf.Length, span); }
      vf[i] := AsyncChunkTask(s, i, span);
      assert vf[..i + 1] == vf[..i] + [vf[i]];
    }
    assert vf[..] == vf[..vf.Length];
  }

  /** `summarize_async(start, stop, initial)` with `nh` workers: the same
      partition as summarize_par, one future per regular chunk, the tail
      added when `last_span > 0`, then the futures' values accumulated in
      slot order. The result is the sequential sum. */
  method SummarizeAsync(s: seq<int>, initial: int, nh: nat) returns (total: int)
    requires nh > 0
    ensures total == initial + Sum(s)
  {
    total := initial;
    var n := |s|;
    var span := n / nh;
    var lastSpan := n % nh;
    assert SplitOf(n, nh) == Split(span, lastSpan);
    var vf := new int[nh];
    ForkFutures(s, span, vf);
    // add last span
    ghost var tailSum := if lastSpan > 0 then Sum(s[nh * span..]) else 0;
    if lastSpan > 0 {
      var tail := Accumulate(s, nh * span, n, 0);
      assert s[nh * span..n] == s[nh * span..];
      total := total + tail;
    }
    // a + b.get() over the futures in slot order
    var partials := Accumulate(vf[..], 0, nh, 0);
    assert vf[..][0..nh] == vf[..];
    total := total + partials;
    assert tailSum + Sum(ChunkSums(s, nh, span)) == Sum(s) by {
      ChunkedSumIsSequential(s, nh);
    }
  }

  /** The comparison `main` makes: the sequential, thread-parallel and
      future-based sums of the same vector, from the same initial value,
      agree for every worker count. */
  method CompareSums(s: seq<int>, initial: int, nh: nat)
    returns (sequential: int, parallel: int, asynchronous: int)
    requires nh > 0
    ensures sequential == parallel == asynchronous
    ensures sequential == initial + Sum(s)
  {
    sequential := Summarize(s, 0, |s|, initial);
    assert s[0..|s|] == s;
    parallel := SummarizePar(s, initial, nh);
    asynchronous := SummarizeAsync(s, initial, nh);
  }
}
