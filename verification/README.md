# Blitzar commitment and inner-product core in Dafny

This project models the algebraic core of Blitzar, a library for Pedersen
commitments and inner-product-argument (IPA) proofs over the ristretto255
group. It has four parts:

- `fold_scalars` is the in-place scalar fold of one IPA round. It has two kernels: one for the overlap region and one for the unpaired tail.
- The device driver's round state machine consists of `make_workspace`, `commit_to_fold` (with `commit_to_fold_partial`) and `fold`.
- `compute_commitments_cpu` is the naive Pedersen commitment. It decodes the little-endian rows of each sequence and sums value·generator over the rows.
- The C API covers the documented argument validation of `sxt_compute_pedersen_commitments` and its `_with_generators` variant, plus the index mapping of `sxt_get_generators`.

ristretto255 has prime order ℓ (section 4 of RFC 9496). So both scalars and
group elements are represented as integers mod ℓ (`Field.L`). Scalar
multiplication and group addition become arithmetic mod ℓ. On top of the
per-operation contracts, the project proves the relation the verifier checks
each round: with x·x⁻¹ = 1, an honest prover's folded commitment equals
x²·L + P + x⁻²·R (`IpaRound.RoundPreservesCommitment`), given the generator
fold stated under Left out. This is the completeness of a round; soundness
against a cheating prover is not stated.

Files:

- `field.dfy` defines ℓ, the scalar and group operations, and congruence facts.
- `inner_product.dfy` defines the inner product and multiexponentiation as sums, with lemmas about them.
- `scalar_fold.dfy` covers `scalar_fold_kernel.cc`.
- `ipa_driver.dfy` covers `gpu_driver.cc`.
- `ipa_round.dfy` holds the per-round commitment equation.
- `commitment.dfy` covers `commitment_computation_cpu.cc`, including little-endian decoding.
- `pedersen_capi.dfy` covers the C entry points of `pedersen_capi.h`.

Modelling choices:

- Futures and `co_await` are read as plain sequencing. Device arrays are sequences, and `shrink(mid)` is taking the first `mid` entries.
- A C pointer is an `Option`: `None` is null, and `Some(xs)` is the array the pointer addresses. A C entry point returns its status (0, or 1 for an error) together with the contents of its output buffer.
- Foreign primitives become parameters:
  - the field inversion of x, as `Challenge.xInv`;
  - `compute_base_element` and `generate_random_ristretto`, as a generator function `gen: nat -> Point`;
  - whether `sxt_init` succeeded, as `backendReady`;
  - the default-constructed `element_p3` that an empty sequence leaves in its commitment slot, as `unset`, assumed to be one fixed element for every column (see Left out).
- The fold's `mid`, `m` and loop index are 32-bit `unsigned` values, and the kernel's assertion computes `2u * mid` in that width. `ScalarFold.FoldableLength` includes 2·mid < 2^32, which is exactly when the assertion as written holds (`ScalarFold.AssertionAsWritten`). Under that bound, the driver's `size_t` to `unsigned` conversion of mid (gpu_driver.cc:108, 116, 125) loses nothing. The driver lemmas over whole rounds carry the same bound on the vector length.
- `num_sequences == 0` returns success before any other check. The header lists the null-pointer errors without a condition, but it also says an empty request skips the computation. The model reads the skip as coming first, the same way `sxt_get_generators` treats a zero count.

## Model

| member | source | states |
|---|---|---|
| ScalarFold.FoldPair | sxt/proof/inner_product/scalar_fold_kernel.cc:29-31 | The two in-place updates `x := m_low·x; x := m_high·data[mid+i] + x` leave exactly (m_low·x + m_high·data[mid+i]) mod ℓ |
| ScalarFold.AssertionAsWritten | sxt/proof/inner_product/scalar_fold_kernel.cc:61-71 | For an `unsigned` mid, the assertion 0 < mid < n ≤ 2u·mid, with 2u·mid reduced mod 2^32, holds exactly when 0 < mid < n ≤ 2·mid < 2^32 (`FoldableLength`). Then every index the kernels read, up to n − 1, is below 2^32 |
| ScalarFold.FoldScalars | sxt/proof/inner_product/scalar_fold_kernel.cc:60-78 | Under the asserted 0 < mid < n ≤ 2·mid < 2^32, the in-place kernels (case 1, then case 2 unless m == mid) produce the read-old/write-new fold `ScalarFold.Fold`. That fold keeps the length, gives x'[i] = m_low·x[i] + m_high·x[mid+i] for i < n−mid and x'[i] = m_low·x[i] on the tail n−mid ≤ i < mid, and leaves every index ≥ mid unchanged |
| ScalarFold.FoldScalarsCase1 | sxt/proof/inner_product/scalar_fold_kernel.cc:17-35 | The in-place loop over i < n−mid pairs every entry with its ORIGINAL partner data[mid+i] and leaves every index ≥ n−mid untouched |
| ScalarFold.FoldScalarsCase2 | sxt/proof/inner_product/scalar_fold_kernel.cc:40-55 | Exactly the entries m ≤ i < mid are scaled by m_low; every other entry is unchanged |
| ScalarFold.KernelsCommute | sxt/proof/inner_product/scalar_fold_kernel.cc:72-77 | The two concurrently launched kernels give the fold in either order, hence under any interleaving: their write sets are disjoint |
| ScalarFold.EvenFoldHasNoTail | sxt/proof/inner_product/scalar_fold_kernel.cc:71-75 | When n == 2·mid every low entry is a recombined pair, so the tail kernel has nothing to do |
| ScalarFold.OverlapInAnyOrder | sxt/proof/inner_product/scalar_fold_kernel.cc:22-34 | Applying the overlap updates one at a time in any order of distinct indices sets each visited index to the fold of its original pair and leaves every other index unchanged |
| ScalarFold.OverlapOrderIrrelevant | sxt/proof/inner_product/scalar_fold_kernel.cc:29-34 | Any order visiting each index of [0, n−mid) once reproduces the pure fold on that region and leaves the rest of the vector as it was |
| IpaDriver.MakeWorkspace | sxt/proof/inner_product/gpu_driver.cc:45-77 | The new workspace is at round 0, borrows the descriptor, and holds a copy of a and of the descriptor's b and g with their own lengths and contents |
| IpaDriver.MakeWorkspaceShape | sxt/proof/inner_product/gpu_driver.cc:56-74 | No length is compared: the workspace has equal-length vectors if and only if the caller's a, b and g have equal lengths. The round's mid is len(g)/2 |
| IpaDriver.CommitPartialValue | sxt/proof/inner_product/gpu_driver.cc:28-40 | A partial commitment is Σ_{i<len(u)} u[i]·g[i] + ⟨u, v⟩·q, reduced once mod ℓ, where ⟨u, v⟩ is taken over the shorter of u and v (an assumption about the inner product, which is not modelled here; see Left out) |
| IpaDriver.CommitToFoldValue | sxt/proof/inner_product/gpu_driver.cc:82-101 | With mid = len(g)/2: L = Σ_{i<mid} a[i]·g[mid+i] + ⟨a_low, b_high⟩·q and R = Σ_{i<len(a)−mid} a[mid+i]·g[i] + ⟨a_high, b_low⟩·q. The workspace is not an output |
| IpaDriver.Fold | sxt/proof/inner_product/gpu_driver.cc:106-138 | round_index goes up by exactly one and the descriptor is kept. a shrinks to mid. If mid == 1, b and g keep their contents and lengths; otherwise both shrink to mid |
| IpaDriver.FoldValuesA | sxt/proof/inner_product/gpu_driver.cc:106-117 | a is folded with (x, x⁻¹): a'[i] = x·a[i] + x⁻¹·a[mid+i] where a[mid+i] exists, and a'[i] = x·a[i] in the scale-only tail |
| IpaDriver.FoldValuesB | sxt/proof/inner_product/gpu_driver.cc:118-126 | when mid > 1, b is folded with the swapped pair (x⁻¹, x), including its scale-only tail |
| IpaDriver.FoldValuesG | sxt/proof/inner_product/gpu_driver.cc:118-133 | when mid > 1, g'[i] = x⁻¹·g[i] + x·g[mid+i] for every i < mid |
| IpaDriver.FoldGenerators | sxt/proof/inner_product/gpu_driver.cc:129-133 | The generator fold halves g, and entry i combines g[i] with multiplier x⁻¹ and g[mid+i] with multiplier x |
| IpaDriver.FoldKeepsShape | sxt/proof/inner_product/gpu_driver.cc:116-133 | A non-terminal round on equal-length vectors of even length between 4 and 2^32 is foldable, halves a, and leaves a, b and g of one common length |
| IpaDriver.Rounds | sxt/proof/inner_product/gpu_driver.cc:108-133 | Each applied fold advances the round counter by one and halves a: after j of k rounds from length 2^k < 2^32, a has length 2^(k−j) |
| IpaDriver.RoundsReachSingleScalar | sxt/proof/inner_product/gpu_driver.cc:108-133 | From length 2^k < 2^32, a reaches length 1 after exactly k folds, and is longer than 1 after fewer |
| IpaRound.RoundPreservesCommitment | sxt/proof/inner_product/gpu_driver.cc:82-138 | For a round with mid > 1, len(g) = 2·mid and x·x⁻¹ = 1, the state after `fold` commits to x²·L + P + x⁻²·R, where P commits to the state before and (L, R) come from `commit_to_fold`. Shorter a and b behave as if zero-padded |
| Commitment.ComputeCommitmentsCpu | sxt/seqcommit/naive/commitment_computation_cpu.cc:20-54 | For buffers of equal length, entry k receives Σ_{i<n_k} decode(row i of sequence k)·g(i) when n_k > 0, and then it depends on sequence k only. When n_k == 0 it is the default element `unset`, assumed to be one fixed element (see Left out) |
| Commitment.CommitColumn | sxt/seqcommit/naive/commitment_computation_cpu.cc:27-50 | The inner loop (initialise with row 0, then add each later row) ends with the sequence's Pedersen commitment, or with the untouched default for an empty sequence |
| Commitment.AccumulatedIsSum | sxt/seqcommit/naive/commitment_computation_cpu.cc:42-49 | Initialising with row 0 and then adding rows 1..k−1 gives Σ_{i<k} decode(i)·g(i) mod ℓ |
| Commitment.RowsTileData | sxt/seqcommit/naive/commitment_computation_cpu.cc:34-35 | Row i occupies bytes [i·w, i·w + w): the first k rows laid end to end are exactly the first k·w bytes of the data |
| Commitment.FillData | sxt/seqcommit/naive/commitment_computation_cpu.cc:39-40 | The 32-byte scalar buffer holds the row's bytes first and zeros after |
| Commitment.FillDataKeepsValue | sxt/seqcommit/naive/commitment_computation_cpu.cc:39-42 | Zero-extending a row to 32 bytes keeps its little-endian value, which is below 256^w |
| Commitment.LeValueBound | sxt/seqcommit/cbindings/pedersen_capi.h:29-32 | A w-byte little-endian element encodes a number below 256^w |
| Commitment.DecodeEncode | sxt/seqcommit/cbindings/pedersen_capi.h:29-32 | Decoding the w-byte little-endian encoding of v < 256^w gives v |
| Commitment.EncodeDecode | sxt/seqcommit/cbindings/pedersen_capi.h:29-32 | Re-encoding a decoded element at its own width gives back its bytes, so the decoding is one-to-one |
| Commitment.GeneratorsOfRowsOnly | sxt/seqcommit/naive/commitment_computation_cpu.cc:37 | The generator depends on the row index only: two generator functions that agree on rows 0..n−1 give the same commitment |
| PedersenCapi.FirstInvalid | sxt/seqcommit/cbindings/pedersen_capi.h:103-106 | Finds the first descriptor that breaks a listed rule, and finds none exactly when every descriptor is valid |
| PedersenCapi.CommitStatus | sxt/seqcommit/cbindings/pedersen_capi.h:98-110 | Nonzero exactly when the request is non-empty and one of the listed errors holds. The errors are: backend not ready, null descriptors, null commitments, a type other than the dense tag 1, n > 0 with null data, and a width of 0 or over 32 |
| PedersenCapi.SequenceOfWellFormed | sxt/seqcommit/cbindings/pedersen_capi.h:20-33 | A descriptor that passes validation, with data covering its n elements, describes a sequence the CPU computation accepts. This includes n == 0 with null data |
| PedersenCapi.ComputePedersenCommitments | sxt/seqcommit/cbindings/pedersen_capi.h:68-116 | Status 0 exactly when the request is empty or valid. On error, or for an empty request, the buffer is unchanged. Otherwise entry k is Σ_j a_kj·g(j) (the default element for n_k = 0) |
| PedersenCapi.ComputePedersenCommitmentsWithGenerators | sxt/seqcommit/cbindings/pedersen_capi.h:118-165 | The same, with null generators as one more error and row j committed against generators[j] |
| PedersenCapi.ExpectedIsHeaderFormula | sxt/seqcommit/cbindings/pedersen_capi.h:72-80 | With the identity as default element every entry is the header's Prod_j g_j^a_ij, the empty product for n_k = 0; for any other default element the entry of an empty sequence differs from it, and only that entry |
| PedersenCapi.GetGenerators | sxt/seqcommit/cbindings/pedersen_capi.h:167-202 | count == 0 writes nothing and succeeds. A null buffer with count > 0 is the only error. Otherwise out[i] = gen((offset + i) mod 2^64) for i < count and the rest of the buffer is kept, so the first count entries are GeneratorRange(gen, offset, count), the sequence GeneratorRangeSplits and WithGeneratorsUsesRowsOnly are about |
| PedersenCapi.GeneratorRangeSplits | sxt/seqcommit/cbindings/pedersen_capi.h:170-177 | Asking for c1 + c2 generators from offset gives the c1 from offset followed by the c2 from offset + c1, wrap-around included |
| PedersenCapi.WithGeneratorsUsesRowsOnly | sxt/seqcommit/cbindings/pedersen_capi.h:167-177 | Committing against the first count ≥ n generators from offset 0 gives the same commitment as the library generators, which is what the generator-override variant relies on |

## Left out

- Futures, coroutines, streams, `await_all`/`await_and_own_stream` and the parallel `algi::for_each` are left out: each `co_await` is plain sequencing. Two lemmas cover what concurrency could change: `KernelsCommute` for the two kernels and `OverlapInAnyOrder` for the iteration order.
- Device memory (`async_copy_host_to_device`, `is_device_pointer`, managed arrays) is modelled as sequence copies.
- Ristretto compression (`rsto::compress`, `c21rs::to_bytes`) is not modelled. Outputs are the group elements themselves.
- Curve arithmetic is reduced to the Z_ℓ representation of the prime-order group.
- Field inversion is an input: `Challenge.xInv`, related to x by `Field.IsInverse` where a lemma needs it.
- IpaDriver.CommitPartial and IpaDriver.CommitPartialValue assume that `s25o::async_inner_product` (gpu_driver.cc:35), which is defined outside the modelled files, takes the inner product over the shorter of its two operands, as if the shorter one were zero-padded. Its body is not part of this model. The equal-length case does not depend on this assumption. The odd-length case does: when n < 2·mid, L pairs the mid entries of a_low with the n − mid entries of b_high (gpu_driver.cc:89, 92, 96). So the part of IpaRound.RoundPreservesCommitment that covers a and b shorter than g ("behave as if zero-padded") holds only under this assumption.
- IpaDriver.FoldGenerators: `decompose_generator_fold` and `fold_generators` are not part of this model. Their effect is stated as the generator fold the round equation needs, g'[i] = x⁻¹·g[i] + x·g[mid+i]. This matches the multiplier order `(x_inv, x)` passed at gpu_driver.cc:131, but is not derived from their code, which is not modelled here.
- `compute_expected_commitment` is left out: it only delegates to a `cpu_driver` that is not part of this model.
- `commitment_computation_gpu.h` (a declaration without a body), the test kernels and the driver tests are left out.
- The C API's dispatch to a GPU backend is left out. Both backends are modelled by the CPU computation.
- `sxt_init` and its global state are reduced to the flag `backendReady`.
- Commitment.ComputeCommitmentsCpu: for n == 0 the commitment slot receives the `p_k` default-constructed afresh in each column (commitment_computation_cpu.cc:27). Its constructor is defined outside the modelled files. The model assumes that the constructor yields one fixed element for every column and takes that element as the parameter `unset`. If the constructor left the members uninitialised, the entry of an empty column would be indeterminate and could even depend on an earlier column. The model does not cover that case.
- PedersenCapi.ComputePedersenCommitments and PedersenCapi.ComputePedersenCommitmentsWithGenerators: for n_k = 0 the entry is the CPU loop's default-constructed `p_k` (commitment_computation_cpu.cc:27), the parameter `unset`, assumed to be the same fixed element for every column as on the Commitment.ComputeCommitmentsCpu line, not the identity that the header's empty product Prod_{j=1 to 0} promises (pedersen_capi.h:76, :126). The two agree exactly when that default is the identity (`PedersenCapi.ExpectedIsHeaderFormula`).
- Commitment.WellFormed is the caller's side of the bargain: width ≤ 32 and the data holding n·w bytes. The source checks neither. The C API rejects widths outside 1..32, and the data extent is the caller's promise (`PedersenCapi.CallerExtents`).
- PedersenCapi.ValidDescriptor does not check that `element_nbytes` is a power of two. pedersen_capi.h:22 asks for it, but the error list at lines 105-106 and 153-154 does not include it, and the computation works for any width 1..32.
- PedersenCapi.GetGenerators follows the declared argument order (buffer, offset, count) of pedersen_capi.h:198-202. The doc comment at line 170 lists count before offset.
- The header writes the commitment as Prod_{j=1 to n_i}. The model follows the code, which gives row j (counted from 0) the generator g(j).
- IpaDriver.CanCommit requires len(a) ≤ 2·mid. For odd len(g) with len(a) = len(g), R would pair mid + 1 entries of a_high with the mid entries of g_low, and the generator subspan would run past its end.
- IpaRound.RoundPreservesCommitment is stated for len(g) = 2·mid with len(a) = len(b). Rounds with an odd number of generators are not covered.
- The driver's `fold` computes `mid = |g|/2` only. Rounds are analysed for vectors of length 2^k, where every half has a partner.
