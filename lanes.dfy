/** `System.Numerics.Vector<int>` reduced to what the summation uses: a
    fixed number L of 32-bit lanes, the all-zero vector, construction from L
    consecutive elements, lane-wise wrapping addition and indexed lane
    reads. The hardware chooses L; the model leaves it a parameter. */
module Lanes {
  import opened Wrapping

  /** A vector register, lane j at index j. */
  type Vector = seq<int32>

  /** `Vector<int>.Zero` with `L` lanes. */
  function Zero(L: nat): (z: Vector)
    ensures |z| == L && forall j :: 0 <= j < L ==> z[j] == 0
  {
    seq(L, _ => 0)
  }

  /** `u + v` on two vectors of the same width: lane j of the result is the
      unchecked sum of lane j of each, with no interaction between lanes. */
  function LaneAdd(u: Vector, v: Vector): (w: Vector)
    requires |u| == |v|
    ensures |w| == |u| && forall j :: 0 <= j < |u| ==> w[j] == Add(u[j], v[j])
  {
    seq(|u|, j requires 0 <= j < |u| => Add(u[j], v[j]))
  }

  /** The horizontal reduction of the zero vector is zero. */
  lemma {:induction false} ZeroTotal(L: nat, k: nat)
    requires k <= L
    ensures SumRange(Zero(L), 0, k) == 0
  {
    if k > 0 {
      ZeroTotal(L, k - 1);
    }
  }

  /** Folding the first `n` lanes of `u + v` gives the sum of the folds of
      the first `n` lanes of `u` and of `v`. */
  lemma {:induction false} LaneAddRange(u: Vector, v: Vector, n: nat)
    requires |u| == |v| && n <= |u|
    ensures SumRange(LaneAdd(u, v), 0, n) == Add(SumRange(u, 0, n), SumRange(v, 0, n))
  {
    if n > 0 {
      LaneAddRange(u, v, n - 1);
      AddInterchange(SumRange(u, 0, n - 1), SumRange(v, 0, n - 1), u[n - 1], v[n - 1]);
    }
  }

  /** Adding vectors lane-wise and reducing afterwards loses nothing: the
      horizontal sum of `u + v` is the sum of the horizontal sums. */
  lemma LaneAddTotal(u: Vector, v: Vector)
    requires |u| == |v|
    ensures WrappingSum(LaneAdd(u, v)) == Add(WrappingSum(u), WrappingSum(v))
  {
    LaneAddRange(u, v, |u|);
  }

  /** The horizontal reduction `for (j = 0; j < L; j++) result += v[j]`:
      the lanes of `v` added in lane order onto the accumulator `acc`. */
  method HorizontalSum(v: Vector, acc: int32) returns (total: int32)
    ensures total == Add(acc, WrappingSum(v))
  {
    total := acc;
    for j := 0 to |v|
      invariant total == Add(acc, SumRange(v, 0, j))
    {
      AddAssociative(acc, SumRange(v, 0, j), v[j]);
      total := Add(total, v[j]);
    }
  }
}
