/**
  The round state machine of the inner-product argument's device driver
  (sxt/proof/inner_product/gpu_driver.cc), with every `co_await` read as
  plain sequencing and device copies read as sequence copies.

  A workspace holds the current a, b and g vectors and the round counter.
  Each round `CommitToFold` produces the partial commitments (L, R) and
  `Fold` halves the vectors with the caller's challenge x.
 */
module IpaDriver {
  import opened Field
  import opened InnerProduct
  import ScalarFold

  /** Public proof parameters, borrowed by every workspace of the proof. */
  datatype ProofDescriptor = ProofDescriptor(bVector: seq<Scalar>, qValue: Point, gVector: seq<Point>)

  /** Per-proof round state. */
  datatype Workspace = Workspace(
    descriptor: ProofDescriptor,
    roundIndex: nat,
    aVector: seq<Scalar>,
    bVector: seq<Scalar>,
    gVector: seq<Point>)

  /** A round challenge together with the result of the field inversion of x,
      which is a primitive outside this model. */
  datatype Challenge = Challenge(x: Scalar, xInv: Scalar)

  /** The half-length every round of the driver works with: |g| / 2. */
  function Mid(ws: Workspace): nat {
    |ws.gVector| / 2
  }

  /** The start-of-round shape: a, b and g have one common length. */
  predicate SameLengths(ws: Workspace) {
    |ws.aVector| == |ws.bVector| == |ws.gVector|
  }

  // ---------------------------------------------------------------------------
  // make_workspace
  // ---------------------------------------------------------------------------

  /** Copies a, b and g into a fresh workspace at round 0. No lengths are compared. */
  function MakeWorkspace(descriptor: ProofDescriptor, aVector: seq<Scalar>): (ws: Workspace)
    ensures ws.roundIndex == 0
    ensures ws.descriptor == descriptor
    ensures ws.aVector == aVector
    ensures ws.bVector == descriptor.bVector && ws.gVector == descriptor.gVector
  {
    Workspace(descriptor, 0, aVector, descriptor.bVector, descriptor.gVector)
  }

  /** The new workspace has the start-of-round shape exactly when the caller's
      vectors agree in length; the driver itself does not check this. */
  lemma MakeWorkspaceShape(descriptor: ProofDescriptor, aVector: seq<Scalar>)
    ensures SameLengths(MakeWorkspace(descriptor, aVector))
        <==> |aVector| == |descriptor.bVector| == |descriptor.gVector|
    ensures Mid(MakeWorkspace(descriptor, aVector)) == |descriptor.gVector| / 2
  {
  }

  // ---------------------------------------------------------------------------
  // commit_to_fold
  // ---------------------------------------------------------------------------

  /** commit_to_fold_partial: Σ u[i]·g[i] + ⟨u, v⟩·q. */
  function CommitPartial(g: seq<Point>, q: Point, u: seq<Scalar>, v: seq<Scalar>): Point
    requires |u| <= |g|
  {
    PointAdd(MultiExp(g, u), ScalarMul(ScalarInnerProduct(u, v), q))
  }

  /** c is the commitment to the integer sums e and p: e + p·q, reduced mod L. */
  predicate CommitsTo(c: int, e: int, p: int, q: int) {
    c == (e + p * q) % L
  }

  /** What commit_to_fold needs: a positive half-length, and every subspan it
      takes lying inside its vector. */
  predicate CanCommit(ws: Workspace) {
    var mid := Mid(ws);
    0 < mid && mid <= |ws.aVector| <= 2 * mid && mid <= |ws.bVector|
  }

  /** The round's partial commitments (L, R); the workspace is left as it was.
      L pairs the low half of a with the high halves of g and b, R pairs the
      high half of a with the low halves. */
  function CommitToFold(ws: Workspace): (lr: (Point, Point))
    requires CanCommit(ws)
  {
    var mid := Mid(ws);
    var a, b, g, q := ws.aVector, ws.bVector, ws.gVector, ws.descriptor.qValue;
    (CommitPartial(g[mid..], q, a[..mid], b[mid..]), CommitPartial(g[..mid], q, a[mid..], b[..mid]))
  }

  /** L and R as sums over a: L = Σ_{i<mid} a[i]·g[mid+i] + ⟨a_low, b_high⟩·q and
      R = Σ_{i<|a|-mid} a[mid+i]·g[i] + ⟨a_high, b_low⟩·q. */
  lemma CommitToFoldValue(ws: Workspace)
    requires CanCommit(ws)
    ensures var mid := Mid(ws);
      var a, b, g, q := ws.aVector, ws.bVector, ws.gVector, ws.descriptor.qValue;
      && CommitsTo(CommitToFold(ws).0, IntDot(a, g[mid..], mid), IntDot(a, b[mid..], Min(mid, |b| - mid)), q)
      && CommitsTo(CommitToFold(ws).1, IntDot(a[mid..], g, |a| - mid), IntDot(a[mid..], b, |a| - mid), q)
  {
    CommitToFoldLeft(ws);
    CommitToFoldRight(ws);
  }

  lemma CommitToFoldLeft(ws: Workspace)
    requires CanCommit(ws)
    ensures var mid := Mid(ws);
      var a, b, g, q := ws.aVector, ws.bVector, ws.gVector, ws.descriptor.qValue;
      CommitsTo(CommitToFold(ws).0, IntDot(a, g[mid..], mid), IntDot(a, b[mid..], Min(mid, |b| - mid)), q)
  {
    var mid := Mid(ws);
    var a, b, g, q := ws.aVector, ws.bVector, ws.gVector, ws.descriptor.qValue;
    CommitPartialValue(g[mid..], q, a[..mid], b[mid..]);
    IntDotPrefix(a[..mid], a, g[mid..], g[mid..], mid);
    IntDotPrefix(a[..mid], a, b[mid..], b[mid..], Min(mid, |b| - mid));
  }

  lemma CommitToFoldRight(ws: Workspace)
    requires CanCommit(ws)
    ensures var mid := Mid(ws);
      var a, b, g, q := ws.aVector, ws.bVector, ws.gVector, ws.descriptor.qValue;
      CommitsTo(CommitToFold(ws).1, IntDot(a[mid..], g, |a| - mid), IntDot(a[mid..], b, |a| - mid), q)
  {
    var mid := Mid(ws);
    var a, b, g, q := ws.aVector, ws.bVector, ws.gVector, ws.descriptor.qValue;
    CommitPartialValue(g[..mid], q, a[mid..], b[..mid]);
    IntDotPrefix(a[mid..], a[mid..], g[..mid], g, |a| - mid);
    IntDotPrefix(a[mid..], a[mid..], b[..mid], b, |a| - mid);
  }

  /** A partial commitment as one reduction of an integer sum. */
  lemma CommitPartialValue(g: seq<Point>, q: Point, u: seq<Scalar>, v: seq<Scalar>)
    requires |u| <= |g|
    ensures CommitsTo(CommitPartial(g, q, u, v), IntDot(u, g, |u|), IntDot(u, v, Min(|u|, |v|)), q)
  {
    var e := IntDot(u, g, |u|);
    var p := IntDot(u, v, Min(|u|, |v|));
    DotIsReducedIntDot(u, g, |u|);
    DotIsReducedIntDot(u, v, Min(|u|, |v|));
    CongReduce(p);
    CongMul(p % L, p, q, q);
    CongReduce((p % L) * q);
    CongReduce(e);
    CongAdd(e % L, e, ((p % L) * q) % L, p * q);
  }

  // ---------------------------------------------------------------------------
  // fold
  // ---------------------------------------------------------------------------

  /** One folded generator: the group sum mLow·lo + mHigh·hi. */
  function FoldGeneratorPair(lo: Point, hi: Point, mLow: Scalar, mHigh: Scalar): (r: Point)
    ensures r == (mLow * lo + mHigh * hi) % L
  {
    AddOfReduced(mLow * lo, mHigh * hi);
    PointAdd(ScalarMul(mLow, lo), ScalarMul(mHigh, hi))
  }

  /** The generator fold in the Z_L representation: g'[i] = x⁻¹·g[i] + x·g[mid + i]
      for the first mid = |g| / 2 entries. */
  function FoldGenerators(g: seq<Point>, mLow: Scalar, mHigh: Scalar): (r: seq<Point>)
    requires |g| >= 2
    ensures |r| == |g| / 2
    ensures forall i :: 0 <= i < |r| ==> r[i] == (mLow * g[i] + mHigh * g[|g| / 2 + i]) % L
  {
    var mid := |g| / 2;
    assert mid + mid <= |g|;
    var r := seq(mid, i requires 0 <= i < mid => FoldGeneratorPair(g[i], g[mid + i], mLow, mHigh));
    assert forall i :: 0 <= i < mid ==> r[i] == FoldGeneratorPair(g[i], g[mid + i], mLow, mHigh);
    r
  }

  /** What fold needs: fold_scalars' precondition for a, and for b as well
      unless this is the terminal round (mid == 1). */
  predicate CanFold(ws: Workspace) {
    var mid := Mid(ws);
    && ScalarFold.FoldableLength(|ws.aVector|, mid)
    && (mid > 1 ==> ScalarFold.FoldableLength(|ws.bVector|, mid))
  }

  /** One round: a is folded with (x, x⁻¹), b with the swapped pair (x⁻¹, x),
      g with the generator fold, and each shrinks to mid. In the terminal
      round only a is folded. */
  function Fold(ws: Workspace, c: Challenge): (r: Workspace)
    requires CanFold(ws)
    ensures r.roundIndex == ws.roundIndex + 1
    ensures r.descriptor == ws.descriptor
    ensures |r.aVector| == Mid(ws)
    ensures Mid(ws) == 1 ==> r.bVector == ws.bVector && r.gVector == ws.gVector
    ensures Mid(ws) > 1 ==> |r.bVector| == Mid(ws) && |r.gVector| == Mid(ws)
  {
    var mid := Mid(ws);
    var ws1 := ws.(roundIndex := ws.roundIndex + 1);
    var a := ScalarFold.Fold(ws.aVector, c.x, c.xInv, mid)[..mid];
    if mid == 1 then
      ws1.(aVector := a)
    else
      var b := ScalarFold.Fold(ws.bVector, c.xInv, c.x, mid)[..mid];
      var g := FoldGenerators(ws.gVector, c.xInv, c.x);
      ws1.(aVector := a, bVector := b, gVector := g)
  }

  /** The folded a: a'[i] = x·a[i] + x⁻¹·a[mid+i] where a[mid+i] exists and
      x·a[i] in the unpaired tail. */
  lemma FoldValuesA(ws: Workspace, c: Challenge)
    requires CanFold(ws)
    ensures var mid, a, a' := Mid(ws), ws.aVector, Fold(ws, c).aVector;
      && (forall i :: 0 <= i < |a| - mid ==> a'[i] == (c.x * a[i] + c.xInv * a[mid + i]) % L)
      && (forall i :: |a| - mid <= i < mid ==> a'[i] == (c.x * a[i]) % L)
  {
    FoldedPrefix(ws.aVector, c.x, c.xInv, Mid(ws), Fold(ws, c).aVector);
  }

  /** The folded b, outside the terminal round: as for a with x and x⁻¹ swapped. */
  lemma FoldValuesB(ws: Workspace, c: Challenge)
    requires CanFold(ws)
    ensures var mid, b, b' := Mid(ws), ws.bVector, Fold(ws, c).bVector;
      mid > 1 ==>
      && (forall i :: 0 <= i < |b| - mid ==> b'[i] == (c.xInv * b[i] + c.x * b[mid + i]) % L)
      && (forall i :: |b| - mid <= i < mid ==> b'[i] == (c.xInv * b[i]) % L)
  {
    if Mid(ws) > 1 {
      FoldedPrefix(ws.bVector, c.xInv, c.x, Mid(ws), Fold(ws, c).bVector);
    }
  }

  /** The folded g, outside the terminal round: g'[i] = x⁻¹·g[i] + x·g[mid+i]. */
  lemma FoldValuesG(ws: Workspace, c: Challenge)
    requires CanFold(ws)
    ensures var mid, g, g' := Mid(ws), ws.gVector, Fold(ws, c).gVector;
      mid > 1 ==> forall i :: 0 <= i < mid ==> g'[i] == (c.xInv * g[i] + c.x * g[mid + i]) % L
  {
  }

  /** The first mid entries of a folded vector, entry by entry. */
  lemma FoldedPrefix(x: seq<Scalar>, mLow: Scalar, mHigh: Scalar, mid: nat, y: seq<Scalar>)
    requires ScalarFold.FoldableLength(|x|, mid)
    requires y == ScalarFold.Fold(x, mLow, mHigh, mid)[..mid]
    ensures |y| == mid
    ensures forall i :: 0 <= i < |x| - mid ==> y[i] == (mLow * x[i] + mHigh * x[mid + i]) % L
    ensures forall i :: |x| - mid <= i < mid ==> y[i] == (mLow * x[i]) % L
  {
  }

  /** A non-terminal round of an even-length workspace keeps the start-of-round
      shape. The length bound is fold_scalars' own: 2·mid must be an `unsigned`. */
  lemma FoldKeepsShape(ws: Workspace, c: Challenge)
    requires SameLengths(ws) && |ws.gVector| % 2 == 0 && |ws.gVector| >= 4
    requires |ws.gVector| < ScalarFold.UnsignedLimit
    ensures CanFold(ws)
    ensures SameLengths(Fold(ws, c))
    ensures |Fold(ws, c).aVector| == |ws.aVector| / 2
  {
  }

  // ---------------------------------------------------------------------------
  // Running the rounds
  // ---------------------------------------------------------------------------

  function Pow2(k: nat): (r: nat)
    ensures r >= 1
  {
    if k == 0 then 1 else 2 * Pow2(k - 1)
  }

  /** Applies one fold per challenge to a workspace whose vectors all have
      length 2^k (below 2^32, as fold_scalars asserts); at most k challenges
      can be used. */
  function Rounds(ws: Workspace, challenges: seq<Challenge>, k: nat): (r: Workspace)
    requires |ws.aVector| == Pow2(k) < ScalarFold.UnsignedLimit && SameLengths(ws)
    requires |challenges| <= k
    ensures r.roundIndex == ws.roundIndex + |challenges|
    ensures |r.aVector| == Pow2(k - |challenges|)
    ensures |challenges| < k ==> SameLengths(r)
    decreases |challenges|
  {
    if |challenges| == 0 then ws
    else
      var next := Fold(ws, challenges[0]);
      if k == 1 then next
      else Rounds(next, challenges[1..], k - 1)
  }

  /** Starting from length 2^k, a reaches length 1 after exactly k folds,
      and each fold advanced the round counter by one. */
  lemma {:induction false} RoundsReachSingleScalar(ws: Workspace, challenges: seq<Challenge>, k: nat)
    requires |ws.aVector| == Pow2(k) < ScalarFold.UnsignedLimit && SameLengths(ws)
    requires |challenges| == k
    ensures |Rounds(ws, challenges, k).aVector| == 1
    ensures Rounds(ws, challenges, k).roundIndex == ws.roundIndex + k
    ensures forall j :: 0 <= j < k ==> |Rounds(ws, challenges[..j], k).aVector| > 1
  {
    forall j | 0 <= j < k
      ensures |Rounds(ws, challenges[..j], k).aVector| > 1
    {
      Pow2Grows(k - j);
    }
  }

  lemma {:induction false} Pow2Grows(k: nat)
    requires k >= 1
    ensures Pow2(k) >= 2
  {
  }
}
