/**
  Sums of pairwise products: the scalar inner product and, in the Z_L
  representation of the group, the multiexponentiation Σ u[i]·g[i].
 */
module InnerProduct {
  import opened Field

  function Min(a: nat, b: nat): nat {
    if a <= b then a else b
  }

  /** Σ_{i<n} u[i]·v[i] mod L, accumulated in ascending index order. */
  function Dot(u: seq<Scalar>, v: seq<Scalar>, n: nat): Scalar
    requires n <= |u| && n <= |v|
  {
    if n == 0 then 0 else Add(Dot(u, v, n - 1), Mul(u[n - 1], v[n - 1]))
  }

  /** The same sum over the integers, unreduced. */
  function IntDot(u: seq<int>, v: seq<int>, n: nat): int
    requires n <= |u| && n <= |v|
  {
    if n == 0 then 0 else IntDot(u, v, n - 1) + u[n - 1] * v[n - 1]
  }

  /** ⟨u, v⟩ over the shorter operand, i.e. with the shorter one zero padded. */
  function ScalarInnerProduct(u: seq<Scalar>, v: seq<Scalar>): Scalar {
    Dot(u, v, Min(|u|, |v|))
  }

  /** Σ_{i<|u|} u[i]·g[i]: the multiexponentiation of the first |u| generators. */
  function MultiExp(g: seq<Point>, u: seq<Scalar>): Point
    requires |u| <= |g|
  {
    Dot(u, g, |u|)
  }

  /** Reducing once at the end gives the same sum as reducing at every step. */
  lemma {:induction false} DotIsReducedIntDot(u: seq<Scalar>, v: seq<Scalar>, n: nat)
    requires n <= |u| && n <= |v|
    ensures Dot(u, v, n) == IntDot(u, v, n) % L
  {
    if n > 0 {
      DotIsReducedIntDot(u, v, n - 1);
      var s: int := IntDot(u, v, n - 1);
      var p: int := (u[n - 1] as int) * (v[n - 1] as int);
      assert Dot(u, v, n) == Add(s % L, p % L);
      AddOfReduced(s, p);
    }
  }

  lemma AddOfReduced(s: int, p: int)
    ensures Add(s % L, p % L) == (s + p) % L
  {
    CongReduce(s);
    CongReduce(p);
    CongAdd(s % L, s, p % L, p);
  }

  /** The integer sum depends on its operands only modulo L. */
  lemma {:induction false} IntDotCong(u: seq<int>, uu: seq<int>, v: seq<int>, vv: seq<int>, n: nat)
    requires n <= |u| && n <= |uu| && n <= |v| && n <= |vv|
    requires forall i :: 0 <= i < n ==> Cong(u[i], uu[i])
    requires forall i :: 0 <= i < n ==> Cong(v[i], vv[i])
    ensures Cong(IntDot(u, v, n), IntDot(uu, vv, n))
  {
    if n > 0 {
      IntDotCong(u, uu, v, vv, n - 1);
      CongMul(u[n - 1], uu[n - 1], v[n - 1], vv[n - 1]);
      CongAdd(IntDot(u, v, n - 1), IntDot(uu, vv, n - 1), u[n - 1] * v[n - 1], uu[n - 1] * vv[n - 1]);
    }
  }

  /** A sum over m + n terms splits into the first m and the next n. */
  lemma {:induction false} IntDotSplit(u: seq<int>, v: seq<int>, m: nat, n: nat)
    requires m + n <= |u| && m + n <= |v|
    ensures IntDot(u, v, m + n) == IntDot(u, v, m) + IntDot(u[m..], v[m..], n)
  {
    if n > 0 {
      IntDotSplit(u, v, m, n - 1);
    }
  }

  /** Only the first n entries of each operand matter. */
  lemma {:induction false} IntDotPrefix(u: seq<int>, uu: seq<int>, v: seq<int>, vv: seq<int>, n: nat)
    requires n <= |u| && n <= |uu| && n <= |v| && n <= |vv|
    requires u[..n] == uu[..n] && v[..n] == vv[..n]
    ensures IntDot(u, v, n) == IntDot(uu, vv, n)
  {
    if n > 0 {
      assert u[..n - 1] == uu[..n - 1] && v[..n - 1] == vv[..n - 1] by {
        assert u[..n - 1] == u[..n][..n - 1];
        assert uu[..n - 1] == uu[..n][..n - 1];
        assert v[..n - 1] == v[..n][..n - 1];
        assert vv[..n - 1] == vv[..n][..n - 1];
      }
      assert u[n - 1] == u[..n][n - 1] == uu[n - 1];
      assert v[n - 1] == v[..n][n - 1] == vv[n - 1];
      IntDotPrefix(u, uu, v, vv, n - 1);
    }
  }

  /** Expanding a sum of folded pairs:
      Σ (x·a + y·c)(y·b + x·d) = xy⟨a,b⟩ + x²⟨a,d⟩ + y²⟨c,b⟩ + xy⟨c,d⟩. */
  lemma {:induction false} IntDotFoldExpansion(
    aa: seq<int>, bb: seq<int>, a: seq<int>, b: seq<int>, c: seq<int>, d: seq<int>, x: int, y: int, n: nat)
    requires n <= |aa| && n <= |bb| && n <= |a| && n <= |b| && n <= |c| && n <= |d|
    requires forall i :: 0 <= i < n ==> aa[i] == x * a[i] + y * c[i]
    requires forall i :: 0 <= i < n ==> bb[i] == y * b[i] + x * d[i]
    ensures IntDot(aa, bb, n)
         == x * y * IntDot(a, b, n) + x * x * IntDot(a, d, n)
          + y * y * IntDot(c, b, n) + x * y * IntDot(c, d, n)
  {
    if n > 0 {
      IntDotFoldExpansion(aa, bb, a, b, c, d, x, y, n - 1);
      var k := n - 1;
      PairExpansion(x, y, a[k], b[k], c[k], d[k]);
      var s1, s2, s3, s4 := IntDot(a, b, k), IntDot(a, d, k), IntDot(c, b, k), IntDot(c, d, k);
      var t1, t2, t3, t4 := a[k] * b[k], a[k] * d[k], c[k] * b[k], c[k] * d[k];
      assert IntDot(a, b, n) == s1 + t1;
      assert IntDot(a, d, n) == s2 + t2;
      assert IntDot(c, b, n) == s3 + t3;
      assert IntDot(c, d, n) == s4 + t4;
      Distribute(x * y, s1, t1);
      Distribute(x * x, s2, t2);
      Distribute(y * y, s3, t3);
      Distribute(x * y, s4, t4);
    }
  }

  lemma PairExpansion(x: int, y: int, a: int, b: int, c: int, d: int)
    ensures (x * a + y * c) * (y * b + x * d)
         == x * y * (a * b) + x * x * (a * d) + y * y * (c * b) + x * y * (c * d)
  {
  }

  lemma Distribute(k: int, s: int, t: int)
    ensures k * (s + t) == k * s + k * t
  {
  }

  /** Extending both operands with terms of which one factor is zero leaves the sum unchanged. */
  lemma {:induction false} IntDotZeroPadded(u: seq<int>, v: seq<int>, uu: seq<int>, vv: seq<int>, k: nat, n: nat)
    requires k <= |u| && k <= |v| && k <= n <= |uu| && n <= |vv|
    requires forall i :: 0 <= i < k ==> uu[i] == u[i] && vv[i] == v[i]
    requires forall i :: k <= i < n ==> uu[i] == 0 || vv[i] == 0
    ensures IntDot(u, v, k) == IntDot(uu, vv, n)
  {
    if n > k {
      IntDotZeroPadded(u, v, uu, vv, k, n - 1);
      assert uu[n - 1] * vv[n - 1] == 0;
    } else if k > 0 {
      IntDotZeroPadded(u, v, uu, vv, k - 1, k - 1);
    }
  }
}
