# Chunked summation, modelled in Dafny

The program sums a vector of numbers three ways and prints the three
results side by side:

- `summarize` adds the elements of an iterator range to an initial value,
  left to right.
- `summarize_par` splits the range over `nh` worker threads. With `N`
  elements, `span = N / nh` and `last_span = N % nh`. Worker `i` sums the
  regular chunk `[i*span, (i+1)*span)` from 0 into its own slot `vr[i]`.
  After the join, the tail `[nh*span, N)` is summed from 0 and added, but
  only when `last_span > 0`. Then the slots are added in index order on top
  of the initial value.
- `summarize_async` uses the same partition. It keeps one future per chunk
  (`std::async` over `std::accumulate`) and adds the futures' values in
  index order.

The model has three modules:

- `Sums` (`sums.dfy`) holds the sum every routine is measured against, a
  left fold of `+` from 0, and the lemmas that a sum splits over a
  concatenation.
- `Partition` (`partition.dfy`) holds the partitioning rule. It covers the
  division into `span` and `last_span`, the chunk bounds, the partial
  results of the chunks in slot order, and the combined value.
- `Summarize` (`summarize.dfy`) holds the routines themselves as imperative
  methods with loops. The vectors `vr` and `vf` are arrays of `nh` slots.

For `summarize`, an iterator into the vector is its index in a `seq<int>`
`s`, so a reversed pair of iterators can be stated and returns `initial`.
`SummarizePar` and `SummarizeAsync` instead take the range itself as `s`, so
the source's iterator pair becomes a forward range and `std::next(start, k)`
is index `k`; a reversed pair is outside the parallel model. The worker count `nh`, which the program
reads from `std::thread::hardware_concurrency()`, is a parameter. The source
divides by it with no guard and has no fallback for a count of 0, so every
parallel routine requires `nh > 0`.

The threads and futures run one after another in chunk order. In
summarize_par each worker writes only its own slot (`ChunkTask` states that
no other slot changes), and `vr` is read after every thread has been joined
(main.cpp:47). summarize_async has no join: the calling thread stores each
future in `vf[i]` (main.cpp:78), sums the tail while the futures may still
run (main.cpp:83-84), and reads each future through `get()`, which waits for
that future alone (main.cpp:85). Either way, each partial result is produced
once and read after its own task completes, so running the tasks in chunk
order gives the same value.

## Model

| member | source | states |
|---|---|---|
| `Summarize.Summarize` | main.cpp:24-29 | For a range with `start <= stop`, the result is `initial` plus the sum of `[start, stop)`. Because the loop runs while `it < stop`, a range whose start lies past its stop returns `initial` unchanged. An empty range also returns `initial`. |
| `Summarize.Accumulate` | main.cpp:79-85 | `std::accumulate(first, last, init)` over a valid range returns `init` plus the sum of `[first, last)`. |
| `Partition.SplitOf` | main.cpp:34-36 | `span = N / nh` and `last_span = N % nh` account for every element: `nh*span + last_span == N` and `last_span < nh`. It requires `nh > 0`. |
| `Partition.ChunkInRange` | main.cpp:41-44 | For every chunk `i < nh`, `0 <= i*span <= (i+1)*span <= nh*span <= N`, so every iterator `std::next(start, ...)` stays inside the vector. |
| `Partition.ChunksDisjoint` | main.cpp:41-44 | A chunk ends no later than any later chunk begins. Chunk `i` ends exactly where chunk `i+1` begins, so the chunks are contiguous and pairwise disjoint. |
| `Partition.ChunksCover` | main.cpp:41-44 | Every index below `nh*span` lies in regular chunk `k / span`, and that chunk number is below `nh`. |
| `Partition.ChunkOfIndexIsUnique` | main.cpp:43 | An index lies in no regular chunk other than chunk `k / span`. |
| `Partition.ChunkSumsAt` | main.cpp:39-44 | There is one partial result per chunk. Slot `i` holds the sum of chunk `i` started from 0, not from `initial`. |
| `Partition.SumOfChunkSums` | main.cpp:43-51 | Adding the partial results gives exactly the sum of `[0, n*span)`: no element is skipped or counted twice. |
| `Partition.ChunkedSumIsSequential` | main.cpp:49-51 | The tail (added only when `last_span > 0`) plus the partial results equals the sum of the whole vector, for every `nh > 0`. |
| `Partition.TailSkipIsHarmless` | main.cpp:49-50 | `last_span == 0` exactly when the tail range is empty. So adding the tail unconditionally would give the same combined value. |
| `Partition.FewerElementsThanWorkers` | main.cpp:35-36 | When `N < nh`, `span == 0` and `last_span == N`. The partial results add up to 0, and the tail is the whole vector. |
| `Summarize.ChunkTask` | main.cpp:42-44 | Worker `i` stores the sum of chunk `i` (from 0) in `vr[i]` and leaves every other slot as it was. |
| `Summarize.ForkJoin` | main.cpp:38-47 | After the fork and join, the slots `vr[0..nh)` hold the partial results of the chunks in index order; each fork step appends the sum of the next chunk. |
| `Summarize.SummarizePar` | main.cpp:31-53 | For every `nh > 0` the result is `initial` plus the sum of the whole vector, which is the value `summarize` returns, with `initial` counted once. |
| `Summarize.AsyncChunkTask` | main.cpp:78-80 | The future of chunk `i` resolves to the sum of chunk `i` started from 0. |
| `Summarize.ForkFutures` | main.cpp:75-81 | After the fork, the futures' values `vf[0..nh)` are the partial results of the chunks in index order. |
| `Summarize.SummarizeAsync` | main.cpp:68-87 | For every `nh > 0` the result is `initial` plus the sum of the whole vector. The tail is added when `last_span > 0`, then the futures' values are accumulated in index order. |
| `Summarize.CompareSums` | main.cpp:117-119 | The sequential, thread-parallel and future-based sums of the same vector are equal. |

## Left out

- `generate` (main.cpp:7-22) draws random numbers from `std::random_device`. The model takes the vector as a parameter instead.
- Real threads and futures are not modelled, nor the order in which they run or complete: `std::jthread` creation and join, `std::async`, `future::get` and `hardware_concurrency()`. The workers run sequentially in chunk order, and a future is its resolved value.
- The worker count 0 is not modelled. `hardware_concurrency()` may return 0, and the source then divides by zero.
- `task_1`, `task_async` and `ejemplo_de_async` (main.cpp:55-66) are not modelled. Each is one addition plus console output.
- The promise/future exchange `task_producer`, `task_consumer` and `ejemplo` (main.cpp:89-113) is not modelled. It is a scripted two-thread handshake with sleeps and console output.
- Console output in `main` is not modelled. `CompareSums` keeps only the comparison of the three sums.
- The `double` instantiation is not modelled, and neither is the overflow of fixed-width `int`. All sums are over mathematical integers. The inner chunk sums and the tail start from the literal `0`, and over `int` this makes no difference.
