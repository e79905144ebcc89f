/**
  The algebra behind one round of the inner-product argument, stated about
  the driver's own operations: with x·x⁻¹ = 1, the prover's commitment to the
  folded state is x²·L + P + x⁻²·R, where P is the commitment before the
  round and (L, R) are the partial commitments `CommitToFold` produced.
  This is the relation a verifier replays round by round.
 */
module IpaRound {
  import opened Field
  import opened InnerProduct
  import ScalarFold
  import opened IpaDriver

  /** The prover's commitment to the current state: Σ a[i]·g[i] + ⟨a, b⟩·q. */
  function ProverCommitment(ws: Workspace): Point
    requires |ws.aVector| <= |ws.gVector|
  {
    CommitPartial(ws.gVector, ws.descriptor.qValue, ws.aVector, ws.bVector)
  }

  /** sp is s followed by zeros up to length n. */
  predicate ZeroPadded(sp: seq<int>, s: seq<int>, n: nat) {
    && |s| <= n && |sp| == n
    && (forall i :: 0 <= i < |s| ==> sp[i] == s[i])
    && (forall i :: |s| <= i < n ==> sp[i] == 0)
  }

  lemma ZeroPad(s: seq<int>, n: nat) returns (sp: seq<int>)
    requires |s| <= n
    ensures ZeroPadded(sp, s, n)
  {
    sp := s + seq(n - |s|, _ => 0);
  }

  /** The shape under which a non-terminal round is analysed: a and b have
      one length n with mid < n <= 2·mid, and g has length exactly 2·mid. */
  predicate RoundShape(ws: Workspace) {
    && |ws.aVector| == |ws.bVector|
    && |ws.gVector| == 2 * Mid(ws) && Mid(ws) > 1
    && ScalarFold.FoldableLength(|ws.aVector|, Mid(ws))
  }

  /** u' is the fold of the two halves of u (|u| = 2·mid) with multipliers x and y. */
  predicate FoldedFrom(u: seq<int>, u': seq<int>, x: int, y: int, mid: nat) {
    && |u| == 2 * mid && |u'| == mid
    && forall i :: 0 <= i < mid ==> u'[i] == (x * u[i] + y * u[mid + i]) % L
  }

  /** The verification equation of one non-terminal round. It holds also when
      a and b are shorter than g: their missing entries act as zeros. */
  lemma RoundPreservesCommitment(ws: Workspace, c: Challenge)
    requires RoundShape(ws)
    requires IsInverse(c.x, c.xInv)
    ensures CanCommit(ws) && CanFold(ws)
    ensures |Fold(ws, c).aVector| <= |Fold(ws, c).gVector|
    ensures ProverCommitment(Fold(ws, c))
         == PointAdd(PointAdd(ScalarMul(Mul(c.x, c.x), CommitToFold(ws).0), ProverCommitment(ws)),
                     ScalarMul(Mul(c.xInv, c.xInv), CommitToFold(ws).1))
  {
    var mid, x, y, q := Mid(ws), c.x, c.xInv, ws.descriptor.qValue;
    var ap := ZeroPad(ws.aVector, 2 * mid);
    var bp := ZeroPad(ws.bVector, 2 * mid);
    var ag, ab := PaddedCommitment(ws, ap, bp);
    var lg, lb := LeftCrossTerms(ws, ap, bp);
    var rg, rb := RightCrossTerms(ws, ap, bp);
    var a', b', g' := FoldedVectors(ws, c, ap, bp);
    var e', p' := FoldedSums(ap, bp, ws.gVector, a', b', g', x, y, q, mid, ag, ab, lg, lb, rg, rb);
    CollectTerms(e', p', ag, ab, lg, lb, rg, rb, q, x, y,
      CommitToFold(ws).0, CommitToFold(ws).1, ProverCommitment(ws), ProverCommitment(Fold(ws, c)));
  }

  /** P as sums over the zero-padded a and b. */
  lemma PaddedCommitment(ws: Workspace, ap: seq<int>, bp: seq<int>) returns (ag: int, ab: int)
    requires RoundShape(ws)
    requires ZeroPadded(ap, ws.aVector, 2 * Mid(ws)) && ZeroPadded(bp, ws.bVector, 2 * Mid(ws))
    ensures ag == IntDot(ap, ws.gVector, 2 * Mid(ws)) && ab == IntDot(ap, bp, 2 * Mid(ws))
    ensures CommitsTo(ProverCommitment(ws), ag, ab, ws.descriptor.qValue)
  {
    var a, b, g, n := ws.aVector, ws.bVector, ws.gVector, 2 * Mid(ws);
    CommitPartialValue(g, ws.descriptor.qValue, a, b);
    ag, ab := IntDot(a, g, |a|), IntDot(a, b, Min(|a|, |b|));
    IntDotZeroPadded(a, g, ap, g, |a|, n);
    IntDotZeroPadded(a, b, ap, bp, |a|, n);
  }

  /** L as sums over the zero-padded a and b. */
  lemma LeftCrossTerms(ws: Workspace, ap: seq<int>, bp: seq<int>) returns (lg: int, lb: int)
    requires RoundShape(ws)
    requires ZeroPadded(ap, ws.aVector, 2 * Mid(ws)) && ZeroPadded(bp, ws.bVector, 2 * Mid(ws))
    ensures CanCommit(ws)
    ensures lg == IntDot(ap, ws.gVector[Mid(ws)..], Mid(ws)) && lb == IntDot(ap, bp[Mid(ws)..], Mid(ws))
    ensures CommitsTo(CommitToFold(ws).0, lg, lb, ws.descriptor.qValue)
  {
    var mid := Mid(ws);
    var u, v, w := ws.aVector[..mid], ws.bVector[mid..], ws.gVector[mid..];
    CommitPartialValue(w, ws.descriptor.qValue, u, v);
    lg, lb := IntDot(u, w, |u|), IntDot(u, v, Min(|u|, |v|));
    PaddedLow(ws.aVector, ap, w, mid);
    PaddedLowAgainstHigh(ws.aVector, ws.bVector, ap, bp, mid);
  }

  /** R as sums over the zero-padded a and b. */
  lemma RightCrossTerms(ws: Workspace, ap: seq<int>, bp: seq<int>) returns (rg: int, rb: int)
    requires RoundShape(ws)
    requires ZeroPadded(ap, ws.aVector, 2 * Mid(ws)) && ZeroPadded(bp, ws.bVector, 2 * Mid(ws))
    ensures CanCommit(ws)
    ensures rg == IntDot(ap[Mid(ws)..], ws.gVector, Mid(ws)) && rb == IntDot(ap[Mid(ws)..], bp, Mid(ws))
    ensures CommitsTo(CommitToFold(ws).1, rg, rb, ws.descriptor.qValue)
  {
    var mid := Mid(ws);
    var u, v, w := ws.aVector[mid..], ws.bVector[..mid], ws.gVector[..mid];
    CommitPartialValue(w, ws.descriptor.qValue, u, v);
    rg, rb := IntDot(u, w, |u|), IntDot(u, v, Min(|u|, |v|));
    PaddedHighAgainstLow(ws.aVector, ws.gVector, ap, ws.gVector, mid);
    PaddedHighAgainstLow(ws.aVector, ws.bVector, ap, bp, mid);
  }

  /** The vectors of the folded workspace, as folds of the zero-padded ones. */
  lemma FoldedVectors(ws: Workspace, c: Challenge, ap: seq<int>, bp: seq<int>)
    returns (a': seq<Scalar>, b': seq<Scalar>, g': seq<Point>)
    requires RoundShape(ws)
    requires ZeroPadded(ap, ws.aVector, 2 * Mid(ws)) && ZeroPadded(bp, ws.bVector, 2 * Mid(ws))
    ensures CanFold(ws)
    ensures |a'| <= |g'| && ProverCommitment(Fold(ws, c)) == CommitPartial(g', ws.descriptor.qValue, a', b')
    ensures FoldedFrom(ap, a', c.x, c.xInv, Mid(ws))
    ensures FoldedFrom(bp, b', c.xInv, c.x, Mid(ws))
    ensures FoldedFrom(ws.gVector, g', c.xInv, c.x, Mid(ws))
  {
    var ws' := Fold(ws, c);
    a', b', g' := ws'.aVector, ws'.bVector, ws'.gVector;
    FoldedA(ws, c, ap);
    FoldedB(ws, c, bp);
    FoldedG(ws, c);
  }

  lemma FoldedA(ws: Workspace, c: Challenge, ap: seq<int>)
    requires RoundShape(ws) && ZeroPadded(ap, ws.aVector, 2 * Mid(ws))
    ensures CanFold(ws) && FoldedFrom(ap, Fold(ws, c).aVector, c.x, c.xInv, Mid(ws))
  {
    FoldValuesA(ws, c);
    PaddedFold(ws.aVector, ap, Fold(ws, c).aVector, c.x, c.xInv, Mid(ws));
  }

  lemma FoldedB(ws: Workspace, c: Challenge, bp: seq<int>)
    requires RoundShape(ws) && ZeroPadded(bp, ws.bVector, 2 * Mid(ws))
    ensures CanFold(ws) && FoldedFrom(bp, Fold(ws, c).bVector, c.xInv, c.x, Mid(ws))
  {
    FoldValuesB(ws, c);
    PaddedFold(ws.bVector, bp, Fold(ws, c).bVector, c.xInv, c.x, Mid(ws));
  }

  lemma FoldedG(ws: Workspace, c: Challenge)
    requires RoundShape(ws)
    ensures CanFold(ws) && FoldedFrom(ws.gVector, Fold(ws, c).gVector, c.xInv, c.x, Mid(ws))
  {
    FoldValuesG(ws, c);
  }

  /** A fold with an unpaired tail is the plain fold of the zero-padded vector. */
  lemma PaddedFold(u: seq<Scalar>, up: seq<int>, u': seq<Scalar>, x: Scalar, y: Scalar, mid: nat)
    requires ScalarFold.FoldableLength(|u|, mid) && |u'| == mid && ZeroPadded(up, u, 2 * mid)
    requires forall i :: 0 <= i < |u| - mid ==> u'[i] == (x * u[i] + y * u[mid + i]) % L
    requires forall i :: |u| - mid <= i < mid ==> u'[i] == (x * u[i]) % L
    ensures FoldedFrom(up, u', x, y, mid)
  {
    forall i | 0 <= i < mid
      ensures u'[i] == (x * up[i] + y * up[mid + i]) % L
    {
      assert up[i] == u[i];
      if i < |u| - mid {
        assert up[mid + i] == u[mid + i];
      } else {
        assert up[mid + i] == 0;
        assert y * up[mid + i] == 0;
      }
    }
  }

  /** The folded commitment's two sums, each congruent to the unfolded sum
      plus x² times the low-high cross term plus x⁻² times the high-low one. */
  lemma FoldedSums(ap: seq<int>, bp: seq<int>, g: seq<int>, a': seq<Scalar>, b': seq<Scalar>, g': seq<Point>,
                   x: Scalar, y: Scalar, q: Point, mid: nat, ag: int, ab: int, lg: int, lb: int, rg: int, rb: int)
    returns (e': int, p': int)
    requires IsInverse(x, y)
    requires FoldedFrom(ap, a', x, y, mid) && FoldedFrom(bp, b', y, x, mid) && FoldedFrom(g, g', y, x, mid)
    requires ag == IntDot(ap, g, 2 * mid) && ab == IntDot(ap, bp, 2 * mid)
    requires lg == IntDot(ap, g[mid..], mid) && lb == IntDot(ap, bp[mid..], mid)
    requires rg == IntDot(ap[mid..], g, mid) && rb == IntDot(ap[mid..], bp, mid)
    ensures |a'| <= |g'| && CommitsTo(CommitPartial(g', q, a', b'), e', p', q)
    ensures Cong(e', ag + x * x * lg + y * y * rg)
    ensures Cong(p', ab + x * x * lb + y * y * rb)
  {
    e', p' := IntDot(a', g', mid), IntDot(a', b', mid);
    FoldedSum(ap, g, a', g', x, y, mid);
    FoldedSum(ap, bp, a', b', x, y, mid);
    CommitPartialValue(g', q, a', b');
  }

  /** e' and p' are the folded sums against g and b, ag and ab the unfolded
      ones, (lg, lb) and (rg, rb) the cross terms of L and R. */
  lemma CollectTerms(e': int, p': int, ag: int, ab: int, lg: int, lb: int, rg: int, rb: int, q: int,
                     x: Scalar, y: Scalar, l: Scalar, r: Scalar, p: Scalar, pFolded: Scalar)
    requires Cong(e', ag + x * x * lg + y * y * rg)
    requires Cong(p', ab + x * x * lb + y * y * rb)
    requires CommitsTo(l, lg, lb, q) && CommitsTo(r, rg, rb, q)
    requires CommitsTo(p, ag, ab, q) && CommitsTo(pFolded, e', p', q)
    ensures pFolded == PointAdd(PointAdd(ScalarMul(Mul(x, x), l), p), ScalarMul(Mul(y, y), r))
  {
    CongMul(p', ab + x * x * lb + y * y * rb, q, q);
    CongAdd(e', ag + x * x * lg + y * y * rg, p' * q, (ab + x * x * lb + y * y * rb) * q);
    var lhs := ag + x * x * lg + y * y * rg + (ab + x * x * lb + y * y * rb) * q;
    RoundAlgebra(ag, ab, lg, lb, rg, rb, q, x, y, l, r, p);
    CongTrans(e' + p' * q, lhs, PointAdd(PointAdd(ScalarMul(Mul(x, x), l), p), ScalarMul(Mul(y, y), r)));
    CongReduce(e' + p' * q);
  }

  /** The ring identity behind the round equation, reduced mod L. */
  lemma RoundAlgebra(ag: int, ab: int, lg: int, lb: int, rg: int, rb: int, q: int,
                     x: Scalar, y: Scalar, l: Scalar, r: Scalar, p: Scalar)
    requires l == (lg + lb * q) % L && r == (rg + rb * q) % L && p == (ag + ab * q) % L
    ensures Cong(ag + x * x * lg + y * y * rg + (ab + x * x * lb + y * y * rb) * q,
                 PointAdd(PointAdd(ScalarMul(Mul(x, x), l), p), ScalarMul(Mul(y, y), r)))
  {
    Regroup(ag, ab, lg, lb, rg, rb, q, x * x, y * y);
    ScaledTerm(x, lg + lb * q, l);
    ScaledTerm(y, rg + rb * q, r);
    CongReduce(ag + ab * q);
    var sl := ScalarMul(Mul(x, x), l);
    var sr := ScalarMul(Mul(y, y), r);
    CongAdd((x * x) * (lg + lb * q), sl, ag + ab * q, p);
    CongReduce(sl + p);
    CongAdd((x * x) * (lg + lb * q) + (ag + ab * q), PointAdd(sl, p), (y * y) * (rg + rb * q), sr);
    CongReduce(PointAdd(sl, p) + sr);
  }

  lemma Regroup(ag: int, ab: int, lg: int, lb: int, rg: int, rb: int, q: int, xx: int, yy: int)
    ensures ag + xx * lg + yy * rg + (ab + xx * lb + yy * rb) * q
         == xx * (lg + lb * q) + (ag + ab * q) + yy * (rg + rb * q)
  {
  }

  /** x²·t is congruent to the group operation Mul(x, x)·(t mod L). */
  lemma ScaledTerm(x: Scalar, t: int, s: Scalar)
    requires s == t % L
    ensures Cong((x * x) * t, ScalarMul(Mul(x, x), s))
  {
    CongReduce(x * x);
    CongReduce(t);
    CongMul(x * x, Mul(x, x), t, s);
    CongReduce(Mul(x, x) * s);
  }

  /** Folding u with (x, y) and v with (y, x) and pairing the results:
      Σ u'[i]·v'[i] ≡ ⟨u, v⟩ + x²·⟨u_low, v_high⟩ + y²·⟨u_high, v_low⟩ when x·y ≡ 1. */
  lemma FoldedSum(u: seq<int>, v: seq<int>, u': seq<Scalar>, v': seq<Scalar>, x: Scalar, y: Scalar, mid: nat)
    requires FoldedFrom(u, u', x, y, mid) && FoldedFrom(v, v', y, x, mid)
    requires IsInverse(x, y)
    ensures Cong(IntDot(u', v', mid),
                 IntDot(u, v, 2 * mid) + x * x * IntDot(u, v[mid..], mid) + y * y * IntDot(u[mid..], v, mid))
  {
    var uu := Combine(u, x, y, mid);
    var vv := Combine(v, y, x, mid);
    ReducedCombine(u, u', x, y, mid);
    ReducedCombine(v, v', y, x, mid);
    IntDotCong(u', uu, v', vv, mid);
    CombinedSum(u, v, IntDot(u', v', mid), x, y, mid);
  }

  /** The unreduced fold of the two halves of u: x·u[i] + y·u[mid + i]. */
  function Combine(u: seq<int>, x: int, y: int, mid: nat): (r: seq<int>)
    requires |u| == 2 * mid
    ensures |r| == mid
    ensures forall i :: 0 <= i < mid ==> r[i] == x * u[i] + y * u[mid + i]
  {
    seq(mid, i requires 0 <= i < mid => x * u[i] + y * u[mid + i])
  }

  lemma ReducedCombine(u: seq<int>, u': seq<Scalar>, x: Scalar, y: Scalar, mid: nat)
    requires FoldedFrom(u, u', x, y, mid)
    ensures forall i :: 0 <= i < mid ==> Cong(u'[i], Combine(u, x, y, mid)[i])
  {
    forall i | 0 <= i < mid
      ensures Cong(u'[i], Combine(u, x, y, mid)[i])
    {
      CongReduce(Combine(u, x, y, mid)[i]);
    }
  }

  /** Any e congruent to the sum of the unreduced folded pairs is congruent to
      ⟨u, v⟩ + x²·⟨u_low, v_high⟩ + y²·⟨u_high, v_low⟩. */
  lemma CombinedSum(u: seq<int>, v: seq<int>, e: int, x: Scalar, y: Scalar, mid: nat)
    requires |u| == |v| == 2 * mid
    requires IsInverse(x, y)
    requires Cong(e, IntDot(Combine(u, x, y, mid), Combine(v, y, x, mid), mid))
    ensures Cong(e, IntDot(u, v, 2 * mid) + x * x * IntDot(u, v[mid..], mid) + y * y * IntDot(u[mid..], v, mid))
  {
    var d := IntDot(Combine(u, x, y, mid), Combine(v, y, x, mid), mid);
    var s1, s2, s3, s4 := IntDot(u, v, mid), IntDot(u, v[mid..], mid), IntDot(u[mid..], v, mid), IntDot(u[mid..], v[mid..], mid);
    var s := IntDot(u, v, 2 * mid);
    assert d == x * y * s1 + x * x * s2 + y * y * s3 + x * y * s4 by {
      IntDotFoldExpansion(Combine(u, x, y, mid), Combine(v, y, x, mid), u, v, u[mid..], v[mid..], x, y, mid);
    }
    assert s == s1 + s4 by {
      IntDotSplit(u, v, mid, mid);
      assert mid + mid == 2 * mid;
    }
    CollectFold(e, d, x, y, s1, s2, s3, s4, s);
  }

  /** The fold expansion with the cross factors x·y dropped: with x·y ≡ 1, any
      e ≡ x·y·s1 + x²·s2 + y²·s3 + x·y·s4 is ≡ (s1 + s4) + x²·s2 + y²·s3. */
  lemma CollectFold(e: int, d: int, x: Scalar, y: Scalar, s1: int, s2: int, s3: int, s4: int, s: int)
    requires IsInverse(x, y)
    requires d == x * y * s1 + x * x * s2 + y * y * s3 + x * y * s4
    requires s == s1 + s4 && Cong(e, d)
    ensures Cong(e, s + x * x * s2 + y * y * s3)
  {
    InverseCong(x, y, s1);
    InverseCong(x, y, s4);
    DropInverseFactors(d, x * y * s1, x * x * s2, y * y * s3, x * y * s4, s1, s4, s);
    CongTrans(e, d, s + x * x * s2 + y * y * s3);
  }

  /** e = t1 + t2 + t3 + t4 with t1 ≡ s1 and t4 ≡ s4 gives e ≡ (s1 + s4) + t2 + t3. */
  lemma DropInverseFactors(e: int, t1: int, t2: int, t3: int, t4: int, s1: int, s4: int, s: int)
    requires e == t1 + t2 + t3 + t4
    requires Cong(t1, s1) && Cong(t4, s4) && s == s1 + s4
    ensures Cong(e, s + t2 + t3)
  {
    CongAdd(t1, s1, t4, s4);
    CongAdd(t1 + t4, s1 + s4, t2 + t3, t2 + t3);
  }

  // The driver's sums over a and b of length n (mid < n <= 2·mid) equal the
  // same sums over a and b zero padded to 2·mid.

  lemma PaddedLow(a: seq<Scalar>, ap: seq<int>, w: seq<int>, mid: nat)
    requires ScalarFold.FoldableLength(|a|, mid) && mid <= |w| && ZeroPadded(ap, a, 2 * mid)
    ensures IntDot(a[..mid], w, mid) == IntDot(ap, w, mid)
  {
    IntDotZeroPadded(a[..mid], w, ap, w, mid, mid);
  }

  lemma PaddedLowAgainstHigh(a: seq<Scalar>, v: seq<int>, ap: seq<int>, vp: seq<int>, mid: nat)
    requires |a| == |v| && ScalarFold.FoldableLength(|a|, mid)
    requires ZeroPadded(ap, a, 2 * mid) && ZeroPadded(vp, v, 2 * mid)
    ensures IntDot(a[..mid], v[mid..], Min(mid, |v| - mid)) == IntDot(ap, vp[mid..], mid)
  {
    forall i | 0 <= i < |a| - mid ensures vp[mid..][i] == v[mid..][i] {
      assert vp[mid..][i] == vp[mid + i];
    }
    forall i | |a| - mid <= i < mid ensures vp[mid..][i] == 0 {
      assert vp[mid..][i] == vp[mid + i];
    }
    IntDotZeroPadded(a[..mid], v[mid..], ap, vp[mid..], |a| - mid, mid);
  }

  lemma PaddedHighAgainstLow(a: seq<Scalar>, v: seq<int>, ap: seq<int>, vp: seq<int>, mid: nat)
    requires ScalarFold.FoldableLength(|a|, mid) && mid <= |v|
    requires ZeroPadded(ap, a, 2 * mid) && |vp| >= mid && vp[..mid] == v[..mid]
    ensures IntDot(a[mid..], v[..mid], |a| - mid) == IntDot(ap[mid..], vp, mid)
  {
    forall i | 0 <= i < |a| - mid ensures ap[mid..][i] == a[mid..][i] && vp[i] == v[..mid][i] {
      assert ap[mid..][i] == ap[mid + i];
      assert vp[i] == vp[..mid][i];
    }
    forall i | |a| - mid <= i < mid ensures ap[mid..][i] == 0 {
      assert ap[mid..][i] == ap[mid + i];
    }
    IntDotZeroPadded(a[mid..], v[..mid], ap[mid..], vp, |a| - mid, mid);
  }
}
