/**
  Folding a scalar vector in place, one round of the inner-product argument
  (sxt/proof/inner_product/scalar_fold_kernel.cc).

  With n = |x| and m = n - mid, the low half [0, mid) is rewritten: entries
  that have a partner mid + i in the high half are recombined with it, the
  unpaired tail [m, mid) is only scaled, and the high half is left alone.
 */
module ScalarFold {
  import opened Field

  /** mid, m and the loop index are 32-bit `unsigned` values. */
  const UnsignedLimit: nat := 0x1_0000_0000

  /** The precondition the kernel asserts, 0 < mid < n <= 2·mid, with 2·mid
      evaluated as an `unsigned`: it holds only when 2·mid does not wrap. */
  predicate FoldableLength(n: nat, mid: nat) {
    0 < mid < n <= 2 * mid < UnsignedLimit
  }

  /** The assertion as written, for an `unsigned` mid: `n <= 2u * mid` compares n
      with 2·mid reduced mod 2^32. It holds exactly when FoldableLength does, and
      then the largest index the overlap kernel reads, mid + (n - mid - 1) = n - 1,
      is an `unsigned` value too, so no index wraps around. */
  lemma AssertionAsWritten(n: nat, mid: nat)
    requires mid < UnsignedLimit
    ensures (0 < mid < n && n <= (2 * mid) % UnsignedLimit) <==> FoldableLength(n, mid)
    ensures FoldableLength(n, mid) ==> n - 1 < UnsignedLimit
  {
    if 2 * mid >= UnsignedLimit {
      assert (2 * mid) % UnsignedLimit == 2 * mid - UnsignedLimit < mid;
    }
  }

  /** One overlap-region update: x := m_low·x, then x := m_high·hi + x. */
  function FoldPair(lo: Scalar, hi: Scalar, mLow: Scalar, mHigh: Scalar): (r: Scalar)
    ensures r == (mLow * lo + mHigh * hi) % L
  {
    var scaled := Mul(mLow, lo);
    CongReduce(mLow * lo);
    CongAdd(mHigh * hi, mHigh * hi, scaled, mLow * lo);
    MulAdd(mHigh, hi, scaled)
  }

  /** Entry i after the fold: paired in the overlap, scaled in the unpaired
      tail, untouched from mid on. */
  function FoldEntry(x: seq<Scalar>, mLow: Scalar, mHigh: Scalar, mid: nat, i: nat): (v: Scalar)
    requires mid <= |x| && i < |x|
    ensures i < |x| - mid ==> v == FoldPair(x[i], x[mid + i], mLow, mHigh)
    ensures |x| - mid <= i < mid ==> v == Mul(mLow, x[i])
  {
    if i < |x| - mid then FoldPair(x[i], x[mid + i], mLow, mHigh)
    else if i < mid then Mul(mLow, x[i])
    else x[i]
  }

  /** The fold as a pure "read the old vector, write the new one" function. */
  function Fold(x: seq<Scalar>, mLow: Scalar, mHigh: Scalar, mid: nat): (r: seq<Scalar>)
    requires FoldableLength(|x|, mid)
    ensures |r| == |x|
    ensures forall i :: 0 <= i < |x| - mid ==> r[i] == (mLow * x[i] + mHigh * x[mid + i]) % L
    ensures forall i :: |x| - mid <= i < mid ==> r[i] == (mLow * x[i]) % L
    ensures r[mid..] == x[mid..]
  {
    seq(|x|, i requires 0 <= i < |x| => FoldEntry(x, mLow, mHigh, mid, i))
  }

  /** `fold_scalars`: the overlap kernel on [0, n - mid), then, unless
      n == 2·mid, the tail kernel on [n - mid, mid). */
  method FoldScalars(scalars: seq<Scalar>, mLow: Scalar, mHigh: Scalar, mid: nat)
    returns (r: seq<Scalar>)
    requires FoldableLength(|scalars|, mid)
    ensures r == Fold(scalars, mLow, mHigh, mid)
  {
    var m := |scalars| - mid;
    r := FoldScalarsCase1(scalars, mLow, mHigh, mid);
    if m != mid {
      r := FoldScalarsCase2(r, mLow, m, mid);
    }
  }

  /** `fold_scalars_case1`: data[i] := m_low·data[i] + m_high·data[mid + i] for
      i < n - mid. Every read of data[mid + i] sees an entry that no iteration
      writes, so the in-place loop pairs each entry with its original partner. */
  method FoldScalarsCase1(data: seq<Scalar>, mLow: Scalar, mHigh: Scalar, mid: nat)
    returns (r: seq<Scalar>)
    requires FoldableLength(|data|, mid)
    ensures |r| == |data|
    ensures forall j :: 0 <= j < |data| - mid ==> r[j] == FoldPair(data[j], data[mid + j], mLow, mHigh)
    ensures forall j :: |data| - mid <= j < |data| ==> r[j] == data[j]
    ensures r == OverlapKernel(data, mLow, mHigh, mid)
  {
    r := data;
    var i := 0;
    while i < |data| - mid
      invariant 0 <= i <= |data| - mid && |r| == |data|
      invariant forall j :: 0 <= j < i ==> r[j] == FoldPair(data[j], data[mid + j], mLow, mHigh)
      invariant forall j :: i <= j < |data| ==> r[j] == data[j]
    {
      r := r[i := Mul(mLow, r[i])];
      r := r[i := MulAdd(mHigh, r[mid + i], r[i])];
      i := i + 1;
    }
  }

  /** `fold_scalars_case2`: data[i] := m_low·data[i] for the unpaired entries
      m <= i < mid. */
  method FoldScalarsCase2(data: seq<Scalar>, mLow: Scalar, m: nat, mid: nat)
    returns (r: seq<Scalar>)
    requires m <= mid <= |data|
    ensures |r| == |data|
    ensures forall j :: m <= j < mid ==> r[j] == Mul(mLow, data[j])
    ensures forall j :: 0 <= j < |data| && !(m <= j < mid) ==> r[j] == data[j]
    ensures r == TailKernel(data, mLow, m, mid)
  {
    r := data;
    var i := 0;
    while i < mid - m
      invariant 0 <= i <= mid - m && |r| == |data|
      invariant forall j :: m <= j < m + i ==> r[j] == Mul(mLow, data[j])
      invariant forall j :: 0 <= j < |data| && !(m <= j < m + i) ==> r[j] == data[j]
    {
      r := r[m + i := Mul(mLow, r[m + i])];
      i := i + 1;
    }
  }

  // ---------------------------------------------------------------------------
  // fold_scalars launches both kernels at once and awaits them together. Their
  // write sets [0, m) and [m, mid) are disjoint and the overlap kernel reads
  // only its own entry and the high half, so either completion order gives
  // the same vector.
  // ---------------------------------------------------------------------------

  /** The effect of the overlap kernel as a whole. */
  function OverlapKernel(x: seq<Scalar>, mLow: Scalar, mHigh: Scalar, mid: nat): (r: seq<Scalar>)
    requires FoldableLength(|x|, mid)
    ensures |r| == |x|
  {
    seq(|x|, i requires 0 <= i < |x| =>
      if i < |x| - mid then FoldPair(x[i], x[mid + i], mLow, mHigh) else x[i])
  }

  /** The effect of the tail kernel as a whole. */
  function TailKernel(x: seq<Scalar>, mLow: Scalar, m: nat, mid: nat): (r: seq<Scalar>)
    ensures |r| == |x|
  {
    seq(|x|, i requires 0 <= i < |x| => if m <= i < mid then Mul(mLow, x[i]) else x[i])
  }

  /** Running the tail kernel before, or after, the overlap kernel gives the fold. */
  lemma KernelsCommute(x: seq<Scalar>, mLow: Scalar, mHigh: Scalar, mid: nat)
    requires FoldableLength(|x|, mid)
    ensures TailKernel(OverlapKernel(x, mLow, mHigh, mid), mLow, |x| - mid, mid) == Fold(x, mLow, mHigh, mid)
    ensures OverlapKernel(TailKernel(x, mLow, |x| - mid, mid), mLow, mHigh, mid) == Fold(x, mLow, mHigh, mid)
  {
  }

  /** When n == 2·mid there is no tail: every low entry has a partner. */
  lemma EvenFoldHasNoTail(x: seq<Scalar>, mLow: Scalar, mHigh: Scalar, mid: nat)
    requires FoldableLength(|x|, mid) && |x| == 2 * mid
    ensures forall i :: 0 <= i < mid ==> Fold(x, mLow, mHigh, mid)[i] == FoldPair(x[i], x[mid + i], mLow, mHigh)
  {
  }

  // ---------------------------------------------------------------------------
  // The overlap kernel runs its iterations in an unspecified order. Applying
  // the updates one at a time, in any order that visits each index of
  // [0, m) once, yields the same vector.
  // ---------------------------------------------------------------------------

  /** One iteration of the overlap kernel, applied to the current vector. */
  function OverlapStep(x: seq<Scalar>, i: nat, mLow: Scalar, mHigh: Scalar, mid: nat): (r: seq<Scalar>)
    requires i < mid && mid + i < |x|
    ensures |r| == |x|
  {
    x[i := FoldPair(x[i], x[mid + i], mLow, mHigh)]
  }

  /** Index i may be visited by the overlap kernel. */
  predicate InOverlap(i: nat, n: nat, mid: nat) {
    i < n - mid && i < mid
  }

  /** The overlap kernel's iterations applied sequentially in the given order. */
  function OverlapInOrder(x: seq<Scalar>, order: seq<nat>, mLow: Scalar, mHigh: Scalar, mid: nat): (r: seq<Scalar>)
    requires forall k :: 0 <= k < |order| ==> InOverlap(order[k], |x|, mid)
    ensures |r| == |x|
    decreases |order|
  {
    if |order| == 0 then x
    else
      assert InOverlap(order[0], |x|, mid);
      OverlapInOrder(OverlapStep(x, order[0], mLow, mHigh, mid), order[1..], mLow, mHigh, mid)
  }

  predicate Distinct(order: seq<nat>) {
    forall k, l :: 0 <= k < l < |order| ==> order[k] != order[l]
  }

  /** Each visited index gets the fold of its ORIGINAL pair; the rest keep their values. */
  lemma {:induction false} OverlapInAnyOrder(x: seq<Scalar>, order: seq<nat>, mLow: Scalar, mHigh: Scalar, mid: nat)
    requires FoldableLength(|x|, mid)
    requires forall k :: 0 <= k < |order| ==> InOverlap(order[k], |x|, mid)
    requires Distinct(order)
    ensures forall i :: i in order ==> OverlapInOrder(x, order, mLow, mHigh, mid)[i] == FoldPair(x[i], x[mid + i], mLow, mHigh)
    ensures forall i :: 0 <= i < |x| && i !in order ==> OverlapInOrder(x, order, mLow, mHigh, mid)[i] == x[i]
    decreases |order|
  {
    if |order| > 0 {
      var i0 := order[0];
      var rest := order[1..];
      var x1 := OverlapStep(x, i0, mLow, mHigh, mid);
      assert i0 !in rest;
      OverlapInAnyOrder(x1, rest, mLow, mHigh, mid);
      assert OverlapInOrder(x, order, mLow, mHigh, mid) == OverlapInOrder(x1, rest, mLow, mHigh, mid);
      forall i | i in rest
        ensures x1[i] == x[i] && x1[mid + i] == x[mid + i]
      {
      }
    }
  }

  /** An order visiting each index of [0, m) exactly once reproduces the pure fold
      on the overlap region and leaves every other entry unchanged. */
  lemma OverlapOrderIrrelevant(x: seq<Scalar>, order: seq<nat>, mLow: Scalar, mHigh: Scalar, mid: nat)
    requires FoldableLength(|x|, mid)
    requires forall k :: 0 <= k < |order| ==> InOverlap(order[k], |x|, mid)
    requires Distinct(order)
    requires forall i :: 0 <= i < |x| - mid ==> i in order
    ensures OverlapInOrder(x, order, mLow, mHigh, mid)[..|x| - mid] == Fold(x, mLow, mHigh, mid)[..|x| - mid]
    ensures OverlapInOrder(x, order, mLow, mHigh, mid)[|x| - mid..] == x[|x| - mid..]
  {
    OverlapInAnyOrder(x, order, mLow, mHigh, mid);
  }
}
