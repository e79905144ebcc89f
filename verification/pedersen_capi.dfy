/**
  The C entry points of the library (sxt/seqcommit/cbindings/pedersen_capi.h): argument
  validation, the two commitment entry points and `sxt_get_generators`.

  C pointers are modelled as `Option` values: `None` is a null pointer and
  `Some(xs)` the array it points at. A call returns a status (0 on success,
  1 for an error) and the contents of the output buffer afterwards.
 */
module PedersenCapi {
  import opened Field
  import opened Commitment

  /** `SXT_DENSE_SEQUENCE_TYPE`. */
  const DenseSequenceType: nat := 1

  /** Indices of `sxt_get_generators` are `uint64_t` values. */
  const TwoTo64: nat := 0x1_0000_0000_0000_0000

  datatype Option<T> = None | Some(value: T)

  /** `sxt_dense_sequence_descriptor`: `data` is the array the pointer addresses. */
  datatype DenseSequenceDescriptor = DenseSequenceDescriptor(elementNbytes: nat, n: nat, data: Option<seq<Byte>>)

  /** `sxt_sequence_descriptor`: a type tag and the dense variant of the union. */
  datatype SequenceDescriptor = SequenceDescriptor(sequenceType: nat, dense: DenseSequenceDescriptor)

  /** A descriptor none of whose listed error conditions holds. */
  predicate ValidDescriptor(d: SequenceDescriptor) {
    && d.sequenceType == DenseSequenceType
    && !(d.dense.n > 0 && d.dense.data.None?)
    && d.dense.elementNbytes != 0
    && d.dense.elementNbytes <= ScalarBytes
  }

  /** A request none of whose listed error conditions holds. */
  predicate ValidRequest(backendReady: bool, commitments: Option<seq<Point>>,
                         descriptors: Option<seq<SequenceDescriptor>>)
  {
    && backendReady
    && descriptors.Some?
    && commitments.Some?
    && forall i :: 0 <= i < |descriptors.value| ==> ValidDescriptor(descriptors.value[i])
  }

  /** The caller's promise about array extents: each array holds num_sequences
      entries and each data pointer addresses n elements of element_nbytes bytes. */
  predicate CallerExtents(commitments: Option<seq<Point>>, numSequences: nat,
                          descriptors: Option<seq<SequenceDescriptor>>)
  {
    && (commitments.Some? ==> |commitments.value| == numSequences)
    && (descriptors.Some? ==> |descriptors.value| == numSequences)
    && (descriptors.Some? ==> forall i :: 0 <= i < |descriptors.value| ==>
          descriptors.value[i].dense.data.Some? ==>
            descriptors.value[i].dense.n * descriptors.value[i].dense.elementNbytes
              <= |descriptors.value[i].dense.data.value|)
  }

  /** Index of the first descriptor at or after i that is not valid. */
  function FirstInvalid(ds: seq<SequenceDescriptor>, i: nat): (r: Option<nat>)
    requires i <= |ds|
    ensures r.None? <==> forall j :: i <= j < |ds| ==> ValidDescriptor(ds[j])
    ensures r.Some? ==> i <= r.value < |ds| && !ValidDescriptor(ds[r.value])
    ensures r.Some? ==> forall j :: i <= j < r.value ==> ValidDescriptor(ds[j])
    decreases |ds| - i
  {
    if i == |ds| then None
    else if !ValidDescriptor(ds[i]) then Some(i)
    else FirstInvalid(ds, i + 1)
  }

  /** The status of a commitment request: an empty request is skipped, any
      other goes through the listed checks one after the other. It is 0 exactly
      when the request is empty or valid. */
  function CommitStatus(backendReady: bool, commitments: Option<seq<Point>>, numSequences: nat,
                        descriptors: Option<seq<SequenceDescriptor>>): (status: int)
    ensures status == 0 || status == 1
    ensures status == 0 <==> numSequences == 0 || ValidRequest(backendReady, commitments, descriptors)
  {
    if numSequences == 0 then 0
    else if !backendReady then 1
    else if descriptors.None? then 1
    else if commitments.None? then 1
    else if FirstInvalid(descriptors.value, 0).Some? then 1
    else 0
  }

  /** The sequence a valid dense descriptor describes. */
  function SequenceOf(d: SequenceDescriptor): (s: ExponentSequence)
    ensures s.elementNbytes == d.dense.elementNbytes && s.n == d.dense.n
    ensures d.dense.data.Some? ==> s.data == d.dense.data.value
  {
    ExponentSequence(d.dense.elementNbytes, d.dense.n,
                     if d.dense.data.Some? then d.dense.data.value else [])
  }

  lemma SequenceOfWellFormed(d: SequenceDescriptor)
    requires ValidDescriptor(d)
    requires d.dense.data.Some? ==> d.dense.n * d.dense.elementNbytes <= |d.dense.data.value|
    ensures WellFormed(SequenceOf(d))
  {
    if d.dense.data.None? {
      assert d.dense.n == 0;
    }
  }

  /** The value entry k of the buffer holds after a successful call. */
  function Expected(d: SequenceDescriptor, gen: nat -> Point, unset: Point): Point
    requires WellFormed(SequenceOf(d))
  {
    if d.dense.n > 0 then PedersenCommitment(SequenceOf(d), gen) else unset
  }

  /** The header's formula Prod_{j} g_j^a_ij is the empty product, the identity,
      for a sequence without elements. The entry matches that formula for every
      sequence exactly when the default element is the identity. */
  lemma ExpectedIsHeaderFormula(d: SequenceDescriptor, gen: nat -> Point, unset: Point)
    requires WellFormed(SequenceOf(d))
    ensures Expected(d, gen, Identity) == PedersenCommitment(SequenceOf(d), gen)
    ensures Expected(d, gen, unset) == PedersenCommitment(SequenceOf(d), gen) <==> d.dense.n > 0 || unset == Identity
  {
  }

  /** The commitments of all descriptors, computed by the CPU backend. */
  method CommitAll(commitments: seq<Point>, descriptors: seq<SequenceDescriptor>,
                   gen: nat -> Point, unset: Point)
    returns (out: seq<Point>)
    requires |commitments| == |descriptors|
    requires forall i :: 0 <= i < |descriptors| ==> ValidDescriptor(descriptors[i])
    requires forall i :: 0 <= i < |descriptors| ==> descriptors[i].dense.data.Some? ==>
      descriptors[i].dense.n * descriptors[i].dense.elementNbytes <= |descriptors[i].dense.data.value|
    ensures |out| == |descriptors|
    ensures forall k :: 0 <= k < |out| ==> WellFormed(SequenceOf(descriptors[k]))
    ensures forall k :: 0 <= k < |out| && descriptors[k].dense.n > 0 ==>
      out[k] == PedersenCommitment(SequenceOf(descriptors[k]), gen)
    ensures forall k :: 0 <= k < |out| && descriptors[k].dense.n == 0 ==> out[k] == unset
  {
    var seqs: seq<ExponentSequence> := [];
    var i := 0;
    while i < |descriptors|
      invariant 0 <= i <= |descriptors| && |seqs| == i
      invariant forall k :: 0 <= k < i ==> seqs[k] == SequenceOf(descriptors[k])
      invariant forall k :: 0 <= k < i ==> WellFormed(seqs[k])
    {
      SequenceOfWellFormed(descriptors[i]);
      seqs := seqs + [SequenceOf(descriptors[i])];
      i := i + 1;
    }
    out := ComputeCommitmentsCpu(commitments, seqs, gen, unset);
  }

  /** `sxt_compute_pedersen_commitments`: on success entry k holds the commitment
      of sequence k against the library generators `gen`; on error the buffer is
      not written. num_sequences == 0 succeeds without looking at the other
      arguments and writes nothing. */
  method ComputePedersenCommitments(backendReady: bool, commitments: Option<seq<Point>>,
                                    numSequences: nat, descriptors: Option<seq<SequenceDescriptor>>,
                                    gen: nat -> Point, unset: Point)
    returns (status: int, out: Option<seq<Point>>)
    requires CallerExtents(commitments, numSequences, descriptors)
    ensures status == 0 <==> numSequences == 0 || ValidRequest(backendReady, commitments, descriptors)
    ensures status != 0 ==> status == 1
    ensures status != 0 || numSequences == 0 ==> out == commitments
    ensures status == 0 && numSequences > 0 ==> out.Some? && |out.value| == numSequences
    ensures status == 0 && numSequences > 0 ==> forall k :: 0 <= k < numSequences ==>
      WellFormed(SequenceOf(descriptors.value[k])) && out.value[k] == Expected(descriptors.value[k], gen, unset)
  {
    status := CommitStatus(backendReady, commitments, numSequences, descriptors);
    if status != 0 || numSequences == 0 {
      return status, commitments;
    }
    var written := CommitAll(commitments.value, descriptors.value, gen, unset);
    out := Some(written);
  }

  /** The generator function a user-supplied generator array stands for; rows
      beyond the array are never used (see `WithGeneratorsUsesRowsOnly`). */
  function TableGenerators(generators: seq<Point>): nat -> Point {
    (j: nat) => if j < |generators| then generators[j] else Identity
  }

  /** Every sequence has at most as many rows as there are user generators. */
  predicate GeneratorsCoverRows(descriptors: seq<SequenceDescriptor>, generators: seq<Point>) {
    forall i :: 0 <= i < |descriptors| ==> descriptors[i].dense.n <= |generators|
  }

  /** `sxt_compute_pedersen_commitments_with_generators`: as above, with row j of
      every sequence committed against `generators[j]`. */
  method ComputePedersenCommitmentsWithGenerators(
    backendReady: bool, commitments: Option<seq<Point>>, numSequences: nat,
    descriptors: Option<seq<SequenceDescriptor>>, generators: Option<seq<Point>>, unset: Point)
    returns (status: int, out: Option<seq<Point>>)
    requires CallerExtents(commitments, numSequences, descriptors)
    requires descriptors.Some? && generators.Some? ==> GeneratorsCoverRows(descriptors.value, generators.value)
    ensures status == 0 <==>
      numSequences == 0 || (generators.Some? && ValidRequest(backendReady, commitments, descriptors))
    ensures status != 0 ==> status == 1
    ensures status != 0 || numSequences == 0 ==> out == commitments
    ensures status == 0 && numSequences > 0 ==> out.Some? && generators.Some? && |out.value| == numSequences
    ensures status == 0 && numSequences > 0 ==> forall k :: 0 <= k < numSequences ==>
      WellFormed(SequenceOf(descriptors.value[k]))
      && out.value[k] == Expected(descriptors.value[k], TableGenerators(generators.value), unset)
  {
    if numSequences == 0 {
      return 0, commitments;
    }
    if generators.None? {
      return 1, commitments;
    }
    status, out := ComputePedersenCommitments(backendReady, commitments, numSequences, descriptors,
                                              TableGenerators(generators.value), unset);
  }

  /** The uint64 index of the i-th generator requested from `offset`. */
  function GeneratorIndex(offset: nat, i: nat): (j: nat)
    ensures j < TwoTo64
    ensures offset + i < TwoTo64 ==> j == offset + i
  {
    (offset + i) % TwoTo64
  }

  /** The count generators starting at index offset. */
  function GeneratorRange(gen: nat -> Point, offset: nat, count: nat): (r: seq<Point>)
    ensures |r| == count
  {
    seq<Point>(count, (i: nat) => gen(GeneratorIndex(offset, i)))
  }

  /** `sxt_get_generators`: the first num_generators entries of the buffer get
      generators offset, offset + 1, … (indices wrap as uint64); the rest of the
      buffer is untouched. num_generators == 0 writes nothing; a null buffer with
      num_generators > 0 is an error. */
  method GetGenerators(generators: Option<seq<Point>>, offset: nat, numGenerators: nat, gen: nat -> Point)
    returns (status: int, out: Option<seq<Point>>)
    requires offset < TwoTo64 && numGenerators < TwoTo64
    requires generators.Some? ==> numGenerators <= |generators.value|
    ensures status == 0 || status == 1
    ensures status != 0 <==> numGenerators > 0 && generators.None?
    ensures status != 0 || numGenerators == 0 ==> out == generators
    ensures status == 0 && numGenerators > 0 ==>
      && generators.Some? && out.Some?
      && |out.value| == |generators.value|
      && (forall i :: 0 <= i < numGenerators ==> out.value[i] == gen(GeneratorIndex(offset, i)))
      && (forall i :: numGenerators <= i < |out.value| ==> out.value[i] == generators.value[i])
    ensures status == 0 && numGenerators > 0 ==> out.value[..numGenerators] == GeneratorRange(gen, offset, numGenerators)
  {
    if numGenerators == 0 {
      return 0, generators;
    }
    if generators.None? {
      return 1, generators;
    }
    var buffer := generators.value;
    var i := 0;
    while i < numGenerators
      invariant 0 <= i <= numGenerators && |buffer| == |generators.value|
      invariant forall j :: 0 <= j < i ==> buffer[j] == gen(GeneratorIndex(offset, j))
      invariant forall j :: i <= j < |buffer| ==> buffer[j] == generators.value[j]
    {
      buffer := buffer[i := gen(GeneratorIndex(offset, i))];
      i := i + 1;
    }
    assert buffer[..numGenerators] == GeneratorRange(gen, offset, numGenerators);
    return 0, Some(buffer);
  }

  /** Asking for c1 + c2 generators from offset gives the c1 from offset followed by
      the c2 from offset + c1, with the uint64 wrap-around on both sides. */
  lemma GeneratorRangeSplits(gen: nat -> Point, offset: nat, c1: nat, c2: nat)
    ensures GeneratorRange(gen, offset, c1 + c2)
         == GeneratorRange(gen, offset, c1) + GeneratorRange(gen, GeneratorIndex(offset, c1), c2)
  {
    var whole := GeneratorRange(gen, offset, c1 + c2);
    var tail := GeneratorRange(gen, GeneratorIndex(offset, c1), c2);
    forall i | 0 <= i < c2
      ensures whole[c1 + i] == tail[i]
    {
      WrapAssociates(offset, c1, i);
    }
  }

  lemma WrapAssociates(offset: nat, c: nat, i: nat)
    ensures GeneratorIndex(GeneratorIndex(offset, c), i) == GeneratorIndex(offset, c + i)
  {
    var m := TwoTo64;
    var q := (offset + c) / m;
    assert (offset + c) % m + i == (offset + c + i) - q * m;
    ShiftByMultipleMod(offset + c + i, q);
  }

  lemma ShiftByMultipleMod(a: int, q: int)
    ensures (a - q * TwoTo64) % TwoTo64 == a % TwoTo64
  {
  }

  /** Committing against the array `sxt_get_generators` returns for offset 0 and at
      least n_i generators gives the commitments of `sxt_compute_pedersen_commitments`. */
  lemma WithGeneratorsUsesRowsOnly(s: ExponentSequence, gen: nat -> Point, count: nat)
    requires WellFormed(s) && s.n <= count < TwoTo64
    ensures PedersenCommitment(s, TableGenerators(GeneratorRange(gen, 0, count))) == PedersenCommitment(s, gen)
  {
    var table := TableGenerators(GeneratorRange(gen, 0, count));
    var range := GeneratorRange(gen, 0, count);
    forall i | 0 <= i < s.n
      ensures table(i) == gen(i)
    {
      assert table(i) == range[i] == gen(GeneratorIndex(0, i));
    }
    GeneratorsOfRowsOnly(s, table, gen, s.n);
  }
}
