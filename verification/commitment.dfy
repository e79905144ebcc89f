/**
  The naive CPU computation of Pedersen commitments
  (sxt/seqcommit/naive/commitment_computation_cpu.cc).

  A value sequence holds n elements of w = element_nbytes bytes each,
  little-endian, packed one after another. Its commitment is
  Σ_{i<n} decode(row i)·g(i), where g(i) is the generator of row i. The
  generator function is a primitive outside this model (compute_base_element)
  and is a parameter here; so is the value a commitment buffer entry gets
  for an empty sequence, which comes from the default constructor of
  `element_p3`, defined outside the modelled files.
 */
module Commitment {
  import opened Field
  import opened InnerProduct

  type Byte = x: int | 0 <= x < 256

  /** Width of the scalar buffer every row is widened into. */
  const ScalarBytes: nat := 32

  /** `exponent_sequence`: n elements of elementNbytes bytes each, starting at data. */
  datatype ExponentSequence = ExponentSequence(elementNbytes: nat, n: nat, data: seq<Byte>)

  /** What the loop relies on: rows fit the 32-byte scalar buffer and the data
      holds all n rows. The source checks neither; the C API rejects widths
      outside 1..32, and the pointer's extent is the caller's promise. */
  predicate WellFormed(s: ExponentSequence) {
    s.elementNbytes <= ScalarBytes && s.n * s.elementNbytes <= |s.data|
  }

  // ---------------------------------------------------------------------------
  // Bytes and little-endian values
  // ---------------------------------------------------------------------------

  function Pow256(k: nat): (r: nat)
    ensures r >= 1
  {
    if k == 0 then 1 else 256 * Pow256(k - 1)
  }

  function Zeros(k: nat): (r: seq<Byte>)
    ensures |r| == k
    ensures forall i :: 0 <= i < k ==> r[i] == 0
  {
    seq(k, _ => 0)
  }

  /** The number the bytes encode, least significant byte first. */
  function LeValue(bytes: seq<Byte>): nat {
    if |bytes| == 0 then 0 else bytes[0] + 256 * LeValue(bytes[1..])
  }

  /** The w-byte little-endian encoding of v. */
  function LeEncode(v: nat, w: nat): (r: seq<Byte>)
    requires v < Pow256(w)
    ensures |r| == w
  {
    if w == 0 then [] else [v % 256] + LeEncode(v / 256, w - 1)
  }

  /** w bytes encode a number below 256^w. */
  lemma {:induction false} LeValueBound(bytes: seq<Byte>)
    ensures LeValue(bytes) < Pow256(|bytes|)
  {
    if |bytes| > 0 {
      LeValueBound(bytes[1..]);
    }
  }

  /** Trailing zero bytes do not change the value. */
  lemma {:induction false} LeValueZeroExtended(bytes: seq<Byte>, k: nat)
    ensures LeValue(bytes + Zeros(k)) == LeValue(bytes)
  {
    if |bytes| == 0 {
      LeValueOfZeros(k);
      assert bytes + Zeros(k) == Zeros(k);
    } else {
      assert (bytes + Zeros(k))[1..] == bytes[1..] + Zeros(k);
      LeValueZeroExtended(bytes[1..], k);
    }
  }

  lemma {:induction false} LeValueOfZeros(k: nat)
    ensures LeValue(Zeros(k)) == 0
  {
    if k > 0 {
      assert Zeros(k)[1..] == Zeros(k - 1);
      LeValueOfZeros(k - 1);
    }
  }

  /** Decoding an encoding gives the number back. */
  lemma {:induction false} DecodeEncode(v: nat, w: nat)
    requires v < Pow256(w)
    ensures LeValue(LeEncode(v, w)) == v
  {
    if w > 0 {
      var r := LeEncode(v, w);
      assert r[1..] == LeEncode(v / 256, w - 1);
      DecodeEncode(v / 256, w - 1);
    }
  }

  /** Encoding a decoded value at the same width gives the bytes back. */
  lemma {:induction false} EncodeDecode(bytes: seq<Byte>)
    ensures LeValue(bytes) < Pow256(|bytes|)
    ensures LeEncode(LeValue(bytes), |bytes|) == bytes
  {
    LeValueBound(bytes);
    if |bytes| > 0 {
      var v := LeValue(bytes);
      EncodeDecode(bytes[1..]);
      assert v % 256 == bytes[0] && v / 256 == LeValue(bytes[1..]);
      assert bytes == [bytes[0]] + bytes[1..];
    }
  }

  // ---------------------------------------------------------------------------
  // Rows
  // ---------------------------------------------------------------------------

  lemma RowInBounds(i: nat, n: nat, w: nat)
    requires i < n
    ensures i * w + w <= n * w
  {
    assert i * w + w == (i + 1) * w;
    assert (i + 1) * w <= n * w by {
      MulMonotone(i + 1, n, w);
    }
  }

  lemma MulMonotone(a: nat, b: nat, w: nat)
    requires a <= b
    ensures a * w <= b * w
  {
  }

  /** The bytes of row i: data[i·w, i·w + w). */
  function RowBytes(s: ExponentSequence, i: nat): (r: seq<Byte>)
    requires WellFormed(s) && i < s.n
    ensures |r| == s.elementNbytes
  {
    RowInBounds(i, s.n, s.elementNbytes);
    s.data[i * s.elementNbytes .. i * s.elementNbytes + s.elementNbytes]
  }

  /** The first k rows, laid end to end. */
  function Rows(s: ExponentSequence, k: nat): seq<Byte>
    requires WellFormed(s) && k <= s.n
  {
    if k == 0 then [] else Rows(s, k - 1) + RowBytes(s, k - 1)
  }

  /** The rows tile the data: the first k rows are exactly its first k·w bytes. */
  lemma {:induction false} RowsTileData(s: ExponentSequence, k: nat)
    requires WellFormed(s) && k <= s.n
    ensures k * s.elementNbytes <= |s.data|
    ensures Rows(s, k) == s.data[..k * s.elementNbytes]
  {
    var w := s.elementNbytes;
    if k > 0 {
      var lo, hi := (k - 1) * w, k * w;
      assert lo + w == hi;
      RowInBounds(k - 1, s.n, w);
      RowsTileData(s, k - 1);
      assert RowBytes(s, k - 1) == s.data[lo..hi];
      assert s.data[..hi] == s.data[..lo] + s.data[lo..hi];
    } else {
      MulMonotone(0, s.n, w);
    }
  }

  /** `fill_data`: the row's bytes at the start of a 32-byte buffer, zeros after. */
  function FillData(bytes: seq<Byte>): (a: seq<Byte>)
    requires |bytes| <= ScalarBytes
    ensures |a| == ScalarBytes
    ensures a[..|bytes|] == bytes
    ensures forall i :: |bytes| <= i < ScalarBytes ==> a[i] == 0
  {
    bytes + Zeros(ScalarBytes - |bytes|)
  }

  /** Widening a row to 32 bytes keeps its value, which stays below 256^w. */
  lemma FillDataKeepsValue(bytes: seq<Byte>)
    requires |bytes| <= ScalarBytes
    ensures LeValue(FillData(bytes)) == LeValue(bytes)
    ensures LeValue(FillData(bytes)) < Pow256(|bytes|)
  {
    var z := Zeros(ScalarBytes - |bytes|);
    assert FillData(bytes) == bytes + z;
    LeValueZeroExtended(bytes, ScalarBytes - |bytes|);
    LeValueBound(bytes);
  }

  /** The scalar of row i: the little-endian value of its w bytes. */
  function RowValue(s: ExponentSequence, i: nat): nat
    requires WellFormed(s) && i < s.n
  {
    LeValue(RowBytes(s, i))
  }

  // ---------------------------------------------------------------------------
  // Commitments
  // ---------------------------------------------------------------------------

  /** Σ_{i<k} value(i)·g(i) over the integers. */
  function IntSum(s: ExponentSequence, gen: nat -> Point, k: nat): int
    requires WellFormed(s) && k <= s.n
  {
    if k == 0 then 0 else IntSum(s, gen, k - 1) + RowValue(s, k - 1) * gen(k - 1)
  }

  /** The Pedersen commitment of a sequence: Σ_{i<n} value(i)·g(i) in the group. */
  function PedersenCommitment(s: ExponentSequence, gen: nat -> Point): Point
    requires WellFormed(s)
  {
    IntSum(s, gen, s.n) % L
  }

  /** The loop's accumulator after rows 0..k-1: row 0 initialises it, later
      rows are added to it. */
  function Accumulated(s: ExponentSequence, gen: nat -> Point, k: nat): Point
    requires WellFormed(s) && 1 <= k <= s.n
  {
    var h := ScalarMul(LeValue(FillData(RowBytes(s, k - 1))), gen(k - 1));
    if k == 1 then h else PointAdd(Accumulated(s, gen, k - 1), h)
  }

  /** "Initialise with row 0, then add rows 1..k-1" is Σ_{i<k} value(i)·g(i). */
  lemma {:induction false} AccumulatedIsSum(s: ExponentSequence, gen: nat -> Point, k: nat)
    requires WellFormed(s) && 1 <= k <= s.n
    ensures Accumulated(s, gen, k) == IntSum(s, gen, k) % L
  {
    var v := RowValue(s, k - 1);
    FillDataKeepsValue(RowBytes(s, k - 1));
    var p := v * gen(k - 1);
    if k == 1 {
      assert IntSum(s, gen, 1) == p;
    } else {
      AccumulatedIsSum(s, gen, k - 1);
      AddOfReduced(IntSum(s, gen, k - 1), p);
    }
  }

  /** The commitment uses the generators of rows 0..n-1 only. */
  lemma {:induction false} GeneratorsOfRowsOnly(s: ExponentSequence, gen1: nat -> Point, gen2: nat -> Point, k: nat)
    requires WellFormed(s) && k <= s.n
    requires forall i :: 0 <= i < s.n ==> gen1(i) == gen2(i)
    ensures IntSum(s, gen1, k) == IntSum(s, gen2, k)
  {
    if k > 0 {
      GeneratorsOfRowsOnly(s, gen1, gen2, k - 1);
    }
  }

  /** `compute_commitments_cpu`: entry k of the buffer receives the commitment of
      sequence k; for an empty sequence it receives `unset`, the value of a
      default-constructed element. Ristretto compression is not modelled: the
      entry holds the group element itself. */
  method ComputeCommitmentsCpu(commitments: seq<Point>, valueSequences: seq<ExponentSequence>,
                               gen: nat -> Point, unset: Point)
    returns (r: seq<Point>)
    requires |commitments| == |valueSequences|
    requires forall k :: 0 <= k < |valueSequences| ==> WellFormed(valueSequences[k])
    ensures |r| == |commitments|
    ensures forall k :: 0 <= k < |r| && valueSequences[k].n > 0 ==>
      r[k] == PedersenCommitment(valueSequences[k], gen)
    ensures forall k :: 0 <= k < |r| && valueSequences[k].n == 0 ==> r[k] == unset
  {
    r := commitments;
    var column := 0;
    while column < |commitments|
      invariant 0 <= column <= |commitments| && |r| == |commitments|
      invariant forall k :: 0 <= k < column && valueSequences[k].n > 0 ==>
        r[k] == PedersenCommitment(valueSequences[k], gen)
      invariant forall k :: 0 <= k < column && valueSequences[k].n == 0 ==> r[k] == unset
    {
      var p := CommitColumn(valueSequences[column], gen, unset);
      r := r[column := p];
      column := column + 1;
    }
  }

  /** The body of the outer loop for one sequence. */
  method CommitColumn(s: ExponentSequence, gen: nat -> Point, unset: Point) returns (p: Point)
    requires WellFormed(s)
    ensures s.n > 0 ==> p == PedersenCommitment(s, gen)
    ensures s.n == 0 ==> p == unset
  {
    p := unset;
    var row := 0;
    while row < s.n
      invariant 0 <= row <= s.n
      invariant row == 0 ==> p == unset
      invariant row > 0 ==> p == Accumulated(s, gen, row)
    {
      var a := FillData(RowBytes(s, row));
      var h := ScalarMul(LeValue(a), gen(row));
      if row == 0 {
        p := h;
      } else {
        p := PointAdd(p, h);
      }
      row := row + 1;
    }
    if s.n > 0 {
      AccumulatedIsSum(s, gen, s.n);
    }
  }
}
