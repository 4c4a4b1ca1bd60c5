/** 32-bit two's-complement integers as C# `int` has them in an unchecked
    context: every `+=` of the summation strategies wraps silently on overflow.
    The reference meaning of "the sum of a sequence" is defined here once. */
module Wrapping {

  /** A C# `byte`. */
  newtype uint8 = x: int | 0 <= x < 0x100

  /** A C# `int`. */
  newtype int32 = x: int | -0x8000_0000 <= x < 0x8000_0000

  const Modulus: int := 0x1_0000_0000
  const Half: int := 0x8000_0000

  /** Truncation of a mathematical integer to its low 32 bits, read back as
      a signed value (what the hardware adder leaves in a register): `x`
      moved by whole multiples of 2^32 into [-2^31, 2^31). */
  function Wrap(x: int): (r: int32)
    ensures -Half <= x < Half ==> r as int == x
    decreases if x < -Half then -x else if x >= Half then x else 0
  {
    if x < -Half then Wrap(x + Modulus)
    else if x >= Half then Wrap(x - Modulus)
    else x as int32
  }

  lemma ModUnique(a: int, q: int, r: int)
    requires 0 <= r < Modulus && a == q * Modulus + r
    ensures a % Modulus == r
  {
  }

  lemma ModShift(a: int, k: int)
    ensures (a + k * Modulus) % Modulus == a % Modulus
  {
  }

  /** Wrap is two's-complement truncation: the low 32 bits of `x + 2^31`,
      shifted back down by 2^31. */
  lemma {:induction false} WrapIsTruncation(x: int)
    ensures Wrap(x) as int == (x + Half) % Modulus - Half
    decreases if x < -Half then -x else if x >= Half then x else 0
  {
    if x < -Half {
      WrapIsTruncation(x + Modulus);
      ModShift(x + Half, 1);
    } else if x >= Half {
      WrapIsTruncation(x - Modulus);
      ModShift(x + Half, -1);
    } else {
      ModUnique(x + Half, 0, x + Half);
    }
  }

  /** Wrap identifies exactly the integers that agree modulo 2^32. */
  lemma WrapShift(x: int, k: int)
    ensures Wrap(x + k * Modulus) == Wrap(x)
  {
    WrapIsTruncation(x);
    WrapIsTruncation(x + k * Modulus);
    ModShift(x + Half, k);
    assert x + k * Modulus + Half == (x + Half) + k * Modulus;
  }

  /** Wrapping an intermediate result does not change the final wrap. */
  lemma WrapWrap(x: int, y: int)
    ensures Wrap(Wrap(x) as int + y) == Wrap(x + y)
  {
    WrapIsTruncation(x);
    var k := (x + Half) / Modulus;
    assert x + Half == k * Modulus + (x + Half) % Modulus;
    assert Wrap(x) as int + y == (x + y) + (-k) * Modulus;
    WrapShift(x + y, -k);
  }

  /** The unchecked `a + b` on two C# `int`s: the exact sum whenever it is
      representable, and otherwise the exact sum moved by 2^32. */
  function Add(a: int32, b: int32): (r: int32)
    ensures -Half <= a as int + b as int < Half ==> r as int == a as int + b as int
  {
    var x := a as int + b as int;
    // Two 32-bit operands are at most one wrap away from the range.
    if x < -Half then (x + Modulus) as int32
    else if x >= Half then (x - Modulus) as int32
    else x as int32
  }

  /** The unchecked sum is the truncation of the exact sum. */
  lemma AddIsWrap(a: int32, b: int32)
    ensures Add(a, b) == Wrap(a as int + b as int)
  {
  }

  lemma AddZero(a: int32)
    ensures Add(0, a) == a && Add(a, 0) == a
  {
  }

  /** Wrapping addition is associative: regrouping never changes a sum. */
  lemma AddAssociative(a: int32, b: int32, c: int32)
    ensures Add(Add(a, b), c) == Add(a, Add(b, c))
  {
  }

  /** Exchanging the middle operands of a two-by-two sum: what lane-wise
      vector addition followed by a horizontal fold relies on. */
  lemma AddInterchange(a: int32, b: int32, c: int32, d: int32)
    ensures Add(Add(a, b), Add(c, d)) == Add(Add(a, c), Add(b, d))
  {
  }

  /** The mathematical sum of `s[lo..hi]`, without any wrapping. */
  function TotalRange(s: seq<int32>, lo: nat, hi: nat): int
    requires lo <= hi <= |s|
    decreases hi - lo
  {
    if lo == hi then 0 else TotalRange(s, lo, hi - 1) + s[hi - 1] as int
  }

  /** `result = 0; for (i = lo; i < hi; i++) result += s[i];` with unchecked
      32-bit additions, in index order. */
  function SumRange(s: seq<int32>, lo: nat, hi: nat): int32
    requires lo <= hi <= |s|
    decreases hi - lo
  {
    if lo == hi then 0 else Add(SumRange(s, lo, hi - 1), s[hi - 1])
  }

  /** The mathematical sum of a whole sequence. */
  function IntSum(s: seq<int32>): int
  {
    TotalRange(s, 0, |s|)
  }

  /** The reference result: every element of `s` added in index order to an
      accumulator that starts at 0, with unchecked 32-bit additions. */
  function WrappingSum(s: seq<int32>): int32
  {
    SumRange(s, 0, |s|)
  }

  /** Nothing to add leaves the accumulator at 0. */
  lemma WrappingSumEmpty()
    ensures WrappingSum([]) == 0
  {
  }

  /** The order-dependent fold equals the wrapped mathematical sum, so any
      order of additions that adds each element once gives the same value. */
  lemma {:induction false} SumRangeIsWrappedTotal(s: seq<int32>, lo: nat, hi: nat)
    requires lo <= hi <= |s|
    ensures SumRange(s, lo, hi) == Wrap(TotalRange(s, lo, hi))
    decreases hi - lo
  {
    if lo < hi {
      SumRangeIsWrappedTotal(s, lo, hi - 1);
      AddIsWrap(SumRange(s, lo, hi - 1), s[hi - 1]);
      WrapWrap(TotalRange(s, lo, hi - 1), s[hi - 1] as int);
    }
  }

  /** Summing `s[lo..hi]` equals adding the sums of `s[lo..mid]` and
      `s[mid..hi]`: a range can be cut anywhere and the parts summed apart. */
  lemma {:induction false} SumRangeSplit(s: seq<int32>, lo: nat, mid: nat, hi: nat)
    requires lo <= mid <= hi <= |s|
    ensures SumRange(s, lo, hi) == Add(SumRange(s, lo, mid), SumRange(s, mid, hi))
    decreases hi - mid
  {
    if mid == hi {
      AddZero(SumRange(s, lo, mid));
    } else {
      SumRangeSplit(s, lo, mid, hi - 1);
      AddAssociative(SumRange(s, lo, mid), SumRange(s, mid, hi - 1), s[hi - 1]);
    }
  }

  /** Two ranges holding the same elements have the same sum, wherever they
      sit: the sum of a slice is the sum of the range it views. */
  lemma {:induction false} SumRangeShift(s: seq<int32>, t: seq<int32>, d: nat, lo: nat, hi: nat)
    requires lo <= hi <= |s| && d + hi <= |t|
    requires forall k :: lo <= k < hi ==> s[k] == t[d + k]
    ensures SumRange(s, lo, hi) == SumRange(t, d + lo, d + hi)
    decreases hi - lo
  {
    if lo < hi {
      SumRangeShift(s, t, d, lo, hi - 1);
    }
  }

  /** A sum of values in [0, 255] is between 0 and 255 times the length. */
  lemma {:induction false} TotalRangeOfBytes(s: seq<int32>, lo: nat, hi: nat)
    requires lo <= hi <= |s|
    requires forall k :: lo <= k < hi ==> 0 <= s[k] <= 255
    ensures 0 <= TotalRange(s, lo, hi) <= 255 * (hi - lo)
    decreases hi - lo
  {
    if lo < hi {
      TotalRangeOfBytes(s, lo, hi - 1);
    }
  }

  /** When the mathematical sum fits in 32 bits nothing wraps. */
  lemma NoWrapWhenInRange(s: seq<int32>)
    requires -Half <= IntSum(s) < Half
    ensures WrappingSum(s) as int == IntSum(s)
  {
    SumRangeIsWrappedTotal(s, 0, |s|);
  }
}
