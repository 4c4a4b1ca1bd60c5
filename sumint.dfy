/** The benchmark class `SumInt`: one shared input array and five hand-written
    ways of adding it up. Every strategy is proved to return the unchecked
    32-bit sum of the array in index order, which is what the baseline
    `ArraySum` computes. */
module Sum {
  import opened Wrapping
  import opened Lanes

  /** Length of the benchmark input. */
  const N: nat := 10000

  /** Unroll factor of `UnrolledSum` and stripe count of `VectorizedSum`. */
  const Size: nat := 4

  /** `length - length % size`: where the whole blocks of `size` elements end
      and the scalar tail begins. It lies at most `size - 1` elements before
      the end; `LastBlockIndexUnique` shows it is the only multiple of `size`
      that does. */
  function LastBlockIndex(length: nat, size: nat): (b: nat)
    requires size >= 1
    ensures b <= length && length - b < size
  {
    length - length % size
  }

  /** A multiple of `size` that leaves fewer than `size` elements after it
      is the block boundary: nothing else can be where the blocks end. */
  lemma LastBlockIndexUnique(length: nat, size: nat, q: nat)
    requires size >= 1
    requires q * size <= length < q * size + size
    ensures q * size == LastBlockIndex(length, size)
  {
    var p := length / size;
    assert length == p * size + length % size;
    if q < p {
      assert q * size + size == (q + 1) * size;
      MulMonotone(q + 1, p, size);
    } else if p < q {
      assert p * size + size == (p + 1) * size;
      MulMonotone(p + 1, q, size);
    }
  }

  /** The block boundary is a whole number of blocks: `size * (length / size)`,
      a multiple of `size`. With `LastBlockIndex`'s own contract this is the
      largest multiple of `size` not above `length`. */
  lemma LastBlockIndexIsMultiple(length: nat, size: nat)
    requires size >= 1
    ensures LastBlockIndex(length, size) == (length / size) * size
    ensures LastBlockIndex(length, size) % size == 0
  {
    var q := length / size;
    assert length == q * size + length % size;
    var b := LastBlockIndex(length, size);
    var d := b / size;
    var r := b % size;
    assert b == d * size + r;
    if d < q {
      NextMultiple(d, size);
      MulMonotone(d + 1, q, size);
    } else if q < d {
      NextMultiple(q, size);
      MulMonotone(q + 1, d, size);
    }
  }

  /** Fewer than `size` elements make no whole block: everything is tail. */
  lemma LastBlockIndexShort(length: nat, size: nat)
    requires size >= 1 && length < size
    ensures LastBlockIndex(length, size) == 0
  {
  }

  lemma NextMultiple(q: nat, size: nat)
    ensures q * size + size == (q + 1) * size
  {
  }

  lemma MulMonotone(a: nat, b: nat, c: nat)
    requires a <= b
    ensures a * c <= b * c
  {
  }

  /** `span.Slice(start, length)`: the `length` elements from `start` on, a
      view of the same storage. C# throws when the range leaves the span;
      here the range must be proved to lie inside it. */
  function Slice(t: seq<int32>, start: nat, length: nat): (r: seq<int32>)
    requires start + length <= |t|
    ensures |r| == length && forall k :: 0 <= k < length ==> r[k] == t[start + k]
  {
    t[start..start + length]
  }

  /** The four stripes of `length / 4` elements end exactly where the scalar
      tail starts, so between them they leave no gap and count nothing twice. */
  lemma StripesEndAtLastBlock(length: nat, s: nat)
    requires s == length / Size
    ensures s * 4 == LastBlockIndex(length, Size)
  {
  }

  /** The four stripes of `s` elements at `0`, `s`, `s * 2` and `s * 3` lie
      inside `t`, do not overlap, and together are exactly `t[..s * 4]`. */
  lemma StripesCover(t: seq<int32>, s: nat)
    requires s * 4 <= |t|
    ensures Slice(t, 0, s) + Slice(t, s, s) + Slice(t, s * 2, s) + Slice(t, s * 3, s) == t[..s * 4]
  {
  }

  /** The sum of a slice is the sum of the range of the span it views. */
  lemma SliceSum(t: seq<int32>, start: nat, length: nat)
    requires start + length <= |t|
    ensures SumRange(Slice(t, start, length), 0, length) == SumRange(t, start, start + length)
  {
    SumRangeShift(Slice(t, start, length), t, start, 0, length);
  }

  /** Adding the partial sums of the four stripes in the order 1, 2, 3, 4
      gives the sum of `t[..s * 4]` in index order. */
  lemma StripedRegroup(t: seq<int32>, s: nat, p1: int32, p2: int32, p3: int32, p4: int32)
    requires s * 4 <= |t|
    requires p1 == SumRange(Slice(t, 0, s), 0, s)
    requires p2 == SumRange(Slice(t, s, s), 0, s)
    requires p3 == SumRange(Slice(t, s * 2, s), 0, s)
    requires p4 == SumRange(Slice(t, s * 3, s), 0, s)
    ensures Add(Add(Add(Add(0, p1), p2), p3), p4) == SumRange(t, 0, s * 4)
  {
    var s2, s3, s4 := s * 2, s * 3, s * 4;
    assert Add(0, p1) == SumRange(t, 0, s) by {
      SliceSum(t, 0, s);
      AddZero(p1);
    }
    assert Add(Add(0, p1), p2) == SumRange(t, 0, s2) by {
      SliceSum(t, s, s);
      assert s + s == s2;
      SumRangeSplit(t, 0, s, s2);
    }
    assert Add(Add(Add(0, p1), p2), p3) == SumRange(t, 0, s3) by {
      SliceSum(t, s2, s);
      assert s2 + s == s3;
      SumRangeSplit(t, 0, s2, s3);
    }
    SliceSum(t, s3, s);
    assert s3 + s == s4;
    SumRangeSplit(t, 0, s3, s4);
  }

  /** The benchmark input: N widened bytes. Their true sum is at most
      255 * N = 2,550,000, far below 2^31, so the wrapping sum of the input
      is its exact sum. */
  lemma WidenedSumFits(t: seq<int32>)
    requires |t| == N
    requires forall k :: 0 <= k < |t| ==> 0 <= t[k] <= 255
    ensures 0 <= IntSum(t) <= 2_550_000
    ensures WrappingSum(t) as int == IntSum(t)
  {
    TotalRangeOfBytes(t, 0, |t|);
    NoWrapWhenInRange(t);
  }

  class SumInt {
    /** The random bytes; `readonly`, written only by the constructor. */
    const source: array<uint8>
    /** The input of every strategy; `readonly`, written only by the constructor. */
    const data: array<int32>

    /** What the constructor leaves behind: N bytes and their widened copy. */
    ghost predicate Widened()
      reads source, data
    {
      && source.Length == N
      && data.Length == N
      && forall k :: 0 <= k < N ==> data[k] as int == source[k] as int
    }

    /** `randomBytes` stands for what `new Random(1).NextBytes` writes into
        `source`. `Array.Copy(source, data, N)` widens each byte to an `int`. */
    constructor (randomBytes: seq<uint8>)
      requires |randomBytes| == N
      ensures fresh(source) && fresh(data)
      ensures Widened()
      ensures source[..] == randomBytes
      ensures forall k :: 0 <= k < N ==> 0 <= data[k] <= 255
      ensures WrappingSum(data[..]) as int == IntSum(data[..]) <= 2_550_000
    {
      source := new uint8[N];
      data := new int32[N];
      new;
      forall k | 0 <= k < N {
        source[k] := randomBytes[k];
      }
      assert source[..] == randomBytes;
      forall k | 0 <= k < N {
        data[k] := source[k] as int as int32;
      }
      WidenedSumFits(data[..]);
    }

    /** The baseline: one accumulator, elements added in index order. */
    method ArraySum() returns (result: int32)
      ensures result == WrappingSum(data[..])
    {
      result := 0;
      for i := 0 to data.Length
        invariant result == SumRange(data[..], 0, i)
      {
        result := Add(result, data[i]);
      }
    }

    /** The same loop over a `Span<int>`: a read-only view of the same
        storage with the same length. */
    method SpanSum() returns (result: int32)
      ensures result == WrappingSum(data[..])
    {
      result := 0;
      var span := data[..];
      for i := 0 to |span|
        invariant result == SumRange(span, 0, i)
      {
        result := Add(result, span[i]);
      }
    }

    /** Blocks of four additions up to the last multiple of 4, then a scalar
        tail for the remaining `Length % 4` elements. */
    method UnrolledSum() returns (result: int32)
      ensures result == WrappingSum(data[..])
    {
      result := 0;
      var span := data[..];
      var lastBlockIndex := LastBlockIndex(data.Length, Size);

      var i := 0;
      while i < lastBlockIndex
        invariant 0 <= i <= lastBlockIndex
        invariant i % 4 == 0
        invariant result == SumRange(span, 0, i)
      {
        AddBlockOfFour(span, i);
        result := Add(result, span[i + 0]);
        result := Add(result, span[i + 1]);
        result := Add(result, span[i + 2]);
        result := Add(result, span[i + 3]);
        i := i + 4;
      }

      result := AddTail(span, lastBlockIndex, result);
    }

    /** Four stripes of `Length / 4` elements summed side by side into four
        partial sums, which are then combined; the elements from
        `Length - Length % 4` on are added by a scalar tail. */
    method VectorizedSum() returns (result: int32)
      ensures result == WrappingSum(data[..])
    {
      result := 0;
      var partial1, partial2, partial3, partial4: int32 := 0, 0, 0, 0;

      var sliceLength := data.Length / Size;

      var span := data[..];
      var slice1 := Slice(span, 0, sliceLength);
      var slice2 := Slice(span, sliceLength, sliceLength);
      var slice3 := Slice(span, sliceLength * 2, sliceLength);
      var slice4 := Slice(span, sliceLength * 3, sliceLength);

      for i := 0 to sliceLength
        invariant partial1 == SumRange(slice1, 0, i)
        invariant partial2 == SumRange(slice2, 0, i)
        invariant partial3 == SumRange(slice3, 0, i)
        invariant partial4 == SumRange(slice4, 0, i)
      {
        partial1 := Add(partial1, slice1[i]);
        partial2 := Add(partial2, slice2[i]);
        partial3 := Add(partial3, slice3[i]);
        partial4 := Add(partial4, slice4[i]);
      }
      result := Add(result, partial1);
      result := Add(result, partial2);
      result := Add(result, partial3);
      result := Add(result, partial4);
      StripedRegroup(span, sliceLength, partial1, partial2, partial3, partial4);

      var lastBlockIndex := LastBlockIndex(data.Length, Size);
      StripesEndAtLastBlock(data.Length, sliceLength);
      result := AddTail(span, lastBlockIndex, result);
    }

    /** Chunks of `simdLength` lanes accumulated into one vector, the lanes
        folded into one scalar, then a scalar tail from where the chunks
        stopped. `simdLength` is `Vector<int>.Count`, which the platform
        fixes and which is at least 1. */
    method SimdSum(simdLength: nat) returns (result: int32)
      requires simdLength >= 1
      ensures result == WrappingSum(data[..])
    {
      result := 0;
      var length := data.Length;
      var span := data[..];

      var i := 0;
      var vResult := Zero(simdLength);
      ZeroTotal(simdLength, simdLength);

      ghost var chunks: nat := 0;
      while i <= length - simdLength
        invariant 0 <= i <= length
        invariant i == chunks * simdLength
        invariant |vResult| == simdLength
        invariant WrappingSum(vResult) == SumRange(span, 0, i)
      {
        var chunk: Vector := Slice(span, i, simdLength);
        SliceSum(span, i, simdLength);
        SumRangeSplit(span, 0, i, i + simdLength);
        LaneAddTotal(vResult, chunk);
        vResult := LaneAdd(vResult, chunk);
        NextMultiple(chunks, simdLength);
        i := i + simdLength;
        chunks := chunks + 1;
      }
      LastBlockIndexUnique(length, simdLength, chunks);
      assert i == LastBlockIndex(length, simdLength);

      result := HorizontalSum(vResult, result);
      AddZero(WrappingSum(vResult));

      result := AddTail(span, i, result);
    }
  }

  /** The scalar tail loop `for (; i < span.Length; i++) result += span[i]`
      of the blocked strategies: given the sum of `span[..start]`, it adds
      the remaining elements one at a time and so ends with the sum of the
      whole span. */
  method AddTail(span: seq<int32>, start: nat, acc: int32) returns (result: int32)
    requires start <= |span|
    requires acc == SumRange(span, 0, start)
    ensures result == WrappingSum(span)
  {
    result := acc;
    for i := start to |span|
      invariant result == SumRange(span, 0, i)
    {
      result := Add(result, span[i]);
    }
  }

  /** One iteration of the unrolled loop adds the four elements at
      `i`, `i + 1`, `i + 2`, `i + 3`, one after another. */
  lemma AddBlockOfFour(t: seq<int32>, i: nat)
    requires i + 4 <= |t|
    ensures SumRange(t, 0, i + 4)
            == Add(Add(Add(Add(SumRange(t, 0, i), t[i]), t[i + 1]), t[i + 2]), t[i + 3])
  {
    assert SumRange(t, 0, i + 1) == Add(SumRange(t, 0, i), t[i]);
    assert SumRange(t, 0, i + 2) == Add(SumRange(t, 0, i + 1), t[i + 1]);
    assert SumRange(t, 0, i + 3) == Add(SumRange(t, 0, i + 2), t[i + 2]);
  }

  /** A caller that runs every strategy on one object: all five agree with
      the baseline. */
  method CompareStrategies(b: SumInt, simdLength: nat)
    returns (baseline: int32, span: int32, unrolled: int32, striped: int32, simd: int32)
    requires simdLength >= 1
    ensures baseline == WrappingSum(b.data[..])
    ensures span == baseline && unrolled == baseline && striped == baseline && simd == baseline
  {
    baseline := b.ArraySum();
    span := b.SpanSum();
    unrolled := b.UnrolledSum();
    striped := b.VectorizedSum();
    simd := b.SimdSum(simdLength);
  }
}
