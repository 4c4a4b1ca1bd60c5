# SumInt: five ways to add up an `int[]`, proved equal

The repository is a micro-benchmark. Its class `SumInt` holds a
10,000-element `int[]`. The constructor fills it by widening the bytes of a
seeded random byte array. The class then offers five hand-written
strategies that add the array up:

- `ArraySum`, the baseline: one indexed loop;
- `SpanSum`: the same loop over a `Span<int>` view of the array;
- `UnrolledSum`: blocks of four additions, then a scalar tail;
- `VectorizedSum`: four stripes of `Length / 4` elements summed side by side
  into four partial sums, then combined, then a scalar tail;
- `SimdSum`: chunks of `Vector<int>.Count` lanes accumulated into one
  vector, its lanes folded, then a scalar tail.

C# `int` addition is unchecked by default, so every `+=` wraps modulo 2^32.

The model has three modules:

- `Wrapping` (`wrapping.dfy`):
  - the 32-bit integer `int32` and the unchecked addition `Add`;
  - the one specification of the sum, `WrappingSum`: every element added in
    index order to an accumulator that starts at 0;
  - its partner `IntSum`, the exact mathematical sum;
  - the laws that let a sum be regrouped: associativity, the exchange of
    middle operands,
    splitting a range, shifting a range.
- `Lanes` (`lanes.dfy`): `Vector<int>` as a sequence of `L` lanes, with
  lane-wise addition and a horizontal fold. `L` is a parameter.
- `Sum` (`sumint.dfy`): the class `SumInt` with its two read-only arrays,
  the constructor and the five strategies.

Each strategy is an imperative method with its loops and invariants. Each
is proved to return `WrappingSum(data[..])`, the baseline's result, for
every array length and, for `SimdSum`, for every lane count `L >= 1`.

## Model

| member | source | states |
|---|---|---|
| Wrapping.Wrap | Sum/SumInt.cs:34 | a value already in the `int` range is kept unchanged |
| Wrapping.WrapIsTruncation | Sum/SumInt.cs:34 | a wrapped value is two's-complement truncation, `(x + 2^31) mod 2^32 - 2^31` |
| Wrapping.WrapShift | Sum/SumInt.cs:34 | integers that differ by a multiple of 2^32 wrap to the same `int` |
| Wrapping.WrapWrap | Sum/SumInt.cs:34 | wrapping an intermediate result does not change the final wrapped value |
| Wrapping.Add | Sum/SumInt.cs:34 | unchecked `a + b` is the exact sum whenever that sum is representable |
| Wrapping.AddIsWrap | Sum/SumInt.cs:34 | unchecked `a + b` is the truncation of the exact sum |
| Wrapping.AddZero | Sum/SumInt.cs:32 | 0 is neutral on each side of unchecked addition |
| Wrapping.AddAssociative | Sum/SumInt.cs:101-104 | unchecked addition is associative, so a regrouped sum is the same sum |
| Wrapping.AddInterchange | Sum/SumInt.cs:123-125 | `(a + b) + (c + d) == (a + c) + (b + d)` under wrapping, the step behind lane-wise accumulation |
| Wrapping.TotalRange | Sum/SumInt.cs:34 | the exact sum of a range, with no wrapping; tied to the wrapping fold by `SumRangeIsWrappedTotal` and bounded for bytes by `TotalRangeOfBytes` |
| Wrapping.IntSum | Sum/SumInt.cs:34 | the exact sum of a whole sequence, the partner of `WrappingSum`; `NoWrapWhenInRange` equates the two when it fits in an `int` |
| Wrapping.SumRange | Sum/SumInt.cs:32-34 | the `result += s[i]` fold over a range in index order; `SumRangeIsWrappedTotal` makes it the truncated exact sum and `SumRangeSplit` lets it be cut anywhere |
| Wrapping.WrappingSum | Sum/SumInt.cs:30-37 | the reference result every strategy must return: the fold of the whole sequence from 0; by `SumRangeIsWrappedTotal` it is the exact sum truncated to 32 bits |
| Wrapping.WrappingSumEmpty | Sum/SumInt.cs:32-34 | the sum of an empty array is 0 |
| Wrapping.SumRangeIsWrappedTotal | Sum/SumInt.cs:32-34 | the index-order wrapping sum of a range is the truncation of its exact sum |
| Wrapping.SumRangeSplit | Sum/SumInt.cs:68 | summing a range equals summing two adjacent parts and adding the results, wherever the cut is |
| Wrapping.SumRangeShift | Sum/SumInt.cs:88-91 | two ranges that hold the same elements have the same sum, wherever each sits |
| Wrapping.TotalRangeOfBytes | Sum/SumInt.cs:20-23 | the exact sum of `n` values in [0, 255] lies in [0, 255 n] |
| Wrapping.NoWrapWhenInRange | Sum/SumInt.cs:15-23 | when the exact sum fits in an `int`, the wrapping sum equals it |
| Lanes.Zero | Sum/SumInt.cs:121 | `Vector<int>.Zero` has `L` lanes, each 0; `ZeroTotal` shows its lanes fold to 0 |
| Lanes.LaneAdd | Sum/SumInt.cs:123 | vector `+` keeps the width and adds lane `j` to lane `j` with unchecked addition, with no carry between lanes; `LaneAddTotal` shows the horizontal sum distributes over it |
| Lanes.ZeroTotal | Sum/SumInt.cs:121 | every lane of `Vector<int>.Zero` is 0, so any prefix of its lanes sums to 0 |
| Lanes.LaneAddRange | Sum/SumInt.cs:123 | folding the first `n` lanes of `u + v` equals adding the folds of the first `n` lanes of `u` and of `v` |
| Lanes.LaneAddTotal | Sum/SumInt.cs:123-125 | the horizontal sum of `u + v` is the sum of their horizontal sums |
| Lanes.HorizontalSum | Sum/SumInt.cs:125 | the lane loop adds the lanes in lane order onto the caller's accumulator: it ends with `acc` plus the wrapping sum of the lanes |
| Sum.LastBlockIndex | Sum/SumInt.cs:58 | `Length - Length % size` lies in `[0, Length]` and leaves fewer than `size` elements after it |
| Sum.LastBlockIndexIsMultiple | Sum/SumInt.cs:58 | the block boundary equals `(Length / size) * size` and is a multiple of `size` |
| Sum.LastBlockIndexUnique | Sum/SumInt.cs:123 | a multiple of `size` that leaves fewer than `size` elements after it is the block boundary, so the chunk loop of `SimdSum` stops exactly there |
| Sum.LastBlockIndexShort | Sum/SumInt.cs:123 | with fewer elements than a block the boundary is 0, so only the tail runs |
| Sum.StripesEndAtLastBlock | Sum/SumInt.cs:106 | four stripes of `Length / 4` end exactly at `Length - Length % 4`, where the tail loop starts |
| Sum.StripesCover | Sum/SumInt.cs:88-91 | the four slices of length `s` at `0`, `s`, `2s`, `3s` lie in bounds and, concatenated, are exactly the first `4s` elements |
| Sum.Slice | Sum/SumInt.cs:88-91 | `span.Slice(start, length)` has `length` elements and element `k` is `span[start + k]`; C# throws outside the span, and here every call is proved in range; `SliceSum` and `StripesCover` fix what it contributes to a sum |
| Sum.SliceSum | Sum/SumInt.cs:89 | the sum of `span.Slice(start, length)` is the sum of that range of the span |
| Sum.StripedRegroup | Sum/SumInt.cs:93-104 | adding the four stripes' partial sums in the order 1, 2, 3, 4 gives the index-order sum of the first `4s` elements |
| Sum.SumInt.Widened | Sum/SumInt.cs:20-23 | the state the constructor leaves: `N` bytes in `source` and `data[k] == source[k]` for every `k`; `WidenedSumFits` shows such data never wraps |
| Sum.WidenedSumFits | Sum/SumInt.cs:15 | for `N` widened bytes the exact sum is at most 2,550,000 and the wrapping sum equals it |
| Sum.SumInt.constructor | Sum/SumInt.cs:18-24 | `source` holds the given `N` bytes; `data` has length `N` with `data[k] == source[k]`, every element in [0, 255], and a sum that does not wrap |
| Sum.SumInt.ArraySum | Sum/SumInt.cs:30-37 | returns the wrapping sum of `data` in index order |
| Sum.SumInt.SpanSum | Sum/SumInt.cs:40-48 | returns the same value as `ArraySum` |
| Sum.SumInt.UnrolledSum | Sum/SumInt.cs:51-71 | returns the same value as `ArraySum`, for every length, including `Length < 4` and `Length % 4 == 0` |
| Sum.AddBlockOfFour | Sum/SumInt.cs:60-66 | one unrolled iteration adds `span[i]` to `span[i + 3]` in order, extending the prefix sum by four elements |
| Sum.SumInt.VectorizedSum | Sum/SumInt.cs:74-110 | returns the same value as `ArraySum`; every slice access is in bounds |
| Sum.SumInt.SimdSum | Sum/SumInt.cs:113-130 | returns the same value as `ArraySum` for every lane count `L >= 1`, including when `L` does not divide the length |
| Sum.AddTail | Sum/SumInt.cs:68 | given the sum of the first `start` elements, the scalar tail loop ends with the sum of the whole span |
| Sum.CompareStrategies | Sum/SumInt.cs:26-130 | the five strategies, run on one object, all return the baseline's value |

## Left out

- `LinqSum` (Sum/SumInt.cs:27) is not modelled. It calls `Enumerable.Sum`, a library whose code is not part of this model. That call also uses checked arithmetic and throws on overflow, so it does not share the other strategies' meaning.
- `new Random(1).NextBytes(source)` (Sum/SumInt.cs:21) is a foreign pseudo-random generator. The constructor takes the `N` bytes it would produce as a parameter, and every result holds for any such bytes.
- The BenchmarkDotNet attributes and job configuration are left out. They are harness metadata and do not affect results.
- Hardware SIMD is left out. `Vector<int>` is a sequence of `L` lanes with lane-wise wrapping addition. The platform's `Vector<int>.Count` is the parameter `simdLength`, constrained only by `simdLength >= 1`.
- Timing and instruction-level parallelism are left out. They motivate the code but are not properties of its results.
- Index variables in the five loops are unbounded integers rather than C# `int`s. No `int` index in the source can overflow at any array length: each loop guard keeps its index within `[0, Length]` before it is used, and `SimdSum`'s guard `i <= length - simdLength` gives `i + simdLength <= length` on every pass. The invariants carry exactly these bounds (for `SimdSum`, `0 <= i <= length`), so the unbounded indices take the same values as the source's.
- Sum.SumInt.SimdSum: the tail loop reads `data[i]` and the model reads the span. The span views the same storage, so the values are identical.
- Sum.AddTail and Lanes.HorizontalSum: the scalar tail loops and the lane fold are written once as methods, and the strategies call them. Each call site corresponds to the loop in the source.
- The strategies read `data` and never write it. In the model they have no `modifies` clause, so Dafny rules out any write; no separate `ensures` states it.
