# A verified model of the bitecoin miner's hashing core

The bitecoin client answers each bid request of a round with a *solution*
and a *proof*:

- The solution is a row of `maxIndices` indices.
- The proof is a 256-bit number.
- The lowest proof wins.

Every miner variant in this repository computes its bid the same way:

1. It draws rows of strictly increasing indices, with gaps `1 + rand()%10`.
2. It builds a 256-bit *seed* for each index from the round's id, salt and
   chain hash.
3. It applies the multiply-with-carry *hash step* `x' = lo(x)·c + hi(x)`
   `hashSteps` times. Here `lo` and `hi` are the low and high 128 bits, and
   `c` is four 32-bit round constants.
4. It XOR-folds the row's points into the proof.
5. It keeps the row with the lowest proof seen until the deadline.

The variants differ only in how they organise this work:

| variant | how it differs |
|---|---|
| `bitecoin_miner_unwrap` | one candidate per pass, with a monotonicity check that throws |
| `bitecoin_miner_v2` | batches of 16 |
| `bitecoin_miner_v2_tbb`, `bitecoin_miner_tbb_seq` | TBB `parallel_for` over a batch; `tbb_seq` falls back to a sequential branch for short periods |
| `bitecoin_miner_kernel_seq`, `bitecoin_miner_v2_kernel` | OpenCL kernels, with the fold and reduction on the host |
| `bitecoin_miner_array` | a recursive XOR tree, `wide_xor_array` |
| `main.cpp` | a test harness that compares host and device output |
| `PoolHashStepCombined` | the hash step fused into one column-by-column pass |

## Modules

- `Wide` (`wide.dfy`)
  - `bigint_t` is a sequence of 32-bit limbs, limb 0 least significant.
  - The `wide_*` primitives are defined by their meaning:
    - `wide_add` and `wide_mul` are exact up to the carry out;
    - `wide_compare` is unsigned, from the top limb down;
    - `wide_xor` is limb-wise.
- `HashStep` (`hash_step.dfy`)
  - The round fields the miner reads.
  - The three-call hash step and its exact value.
- `Combined` (`pool_hash_step_combined.dfy`)
  - `PoolHashStepCombined`, an imperative method over an `array` of limbs,
    proved equal to the three-call step.
- `Seed` (`seed.dfy`)
  - The `wide_add` seed layout and the duplicated-low-word template layout.
  - When the two layouts coincide.
- `Candidates` (`candidates.dfy`)
  - Index rows: the cursor form and the chained form, written in place into
    an index buffer.
  - `rand()` is a parameter: `rand(n)` is the n-th call.
- `Slots` (`slots.dfy`)
  - 8-word slots of a flat `point` buffer.
  - `main_loop`, which seeds one slot and steps it in place.
- `Fold` (`fold.dfy`)
  - The XOR fold over a flat buffer.
  - `wide_xor_array` as written, and a corrected version (see Findings).
- `Search` (`search.dfy`)
  - The best-so-far reduction, and its imperative batch form that copies
    row k element-wise.
- `Trials` (`trials.dfy`)
  - What a run computes, as functions of the `rand()` draws, the deadline
    polls, the round and (for OpenCL) the device buffers.
- `Batch` (`batch.dfy`)
  - The batch steps the variants share: drawing rows, zeroing proofs,
    hashing a flat buffer, and reading back a device buffer.
- `MinerUnwrap`, `MinerV2`, `MinerV2Tbb`, `MinerTbbSeq`, `MinerKernelSeq`,
  `MinerV2Kernel`, `MinerArray`, `Harness`
  - One `MakeBid` per variant (and `main()` for the harness).
  - Each is proved to return exactly the bid its `Trials` specification
    describes.

Candidates are numbered in the order the host draws them. Candidate q uses
draws `q*m .. q*m+m-1`, and batch b holds candidates `b*iterations ..`.

The deadline is a sequence of polls:

- `polls[b]` is the result of the deadline test after batch b.
- Every variant runs at least one batch.
- Every variant stops after the first batch whose test succeeds.

## Model

| member | source | states |
|---|---|---|
| Wide.Compare | src/bitecoin_miner_unwrap.cpp:95 | wide_compare is negative exactly when a < b as unsigned integers, zero exactly when a == b, positive exactly when a > b |
| Wide.TopLimbDecides | src/bitecoin_miner_unwrap.cpp:95 | between equally long values, a smaller most significant limb means a smaller value (the comparison runs from the top limb down) |
| Wide.Add | src/bitecoin_miner_unwrap.cpp:84 | array wide_add: the n result limbs plus carry·2^(32n) equal a + b exactly |
| Wide.AddWord | src/bitecoin_miner_unwrap.cpp:74 | scalar wide_add: the n result limbs plus carry·2^(32n) equal a + b exactly |
| Wide.AddU64 | src/bitecoin_miner_unwrap.cpp:75-77 | 64-bit wide_add overload: the result limbs plus carry·2^(32n) equal a + b exactly |
| Wide.Mul | src/bitecoin_miner_unwrap.cpp:83 | wide_mul: the 2n-limb lo ++ hi result denotes exactly a·b |
| Wide.ZeroValue | src/bitecoin_miner_unwrap.cpp:58 | wide_zero denotes 0 |
| Wide.OnesValue | src/bitecoin_miner_unwrap.cpp:43 | wide_ones denotes 2^(32n) − 1, the largest n-limb value |
| Wide.ValueInjective | src/bitecoin_miner_unwrap.cpp:95 | equally long limb sequences with equal values are equal (compare == 0 means equal limbs) |
| Wide.BitXorComm | src/bitecoin_miner_unwrap.cpp:89 | uint32_t ^ is commutative |
| Wide.BitXorAssoc | src/bitecoin_miner_unwrap.cpp:89 | uint32_t ^ is associative |
| Wide.BitXorZero | src/bitecoin_miner_unwrap.cpp:89 | x ^ 0 == x for every x of the width |
| Wide.BitXorSelf | src/bitecoin_miner_unwrap.cpp:89 | x ^ x == 0 |
| Wide.XorComm | src/bitecoin_miner_unwrap.cpp:89 | wide_xor is commutative |
| Wide.XorAssoc | src/bitecoin_miner_unwrap.cpp:89 | wide_xor is associative |
| Wide.XorZeroRight | src/bitecoin_miner_unwrap.cpp:89 | the zeroed bigint is the identity of wide_xor |
| Wide.XorSelfZero | src/bitecoin_miner_unwrap.cpp:89 | every bigint is its own wide_xor inverse |
| HashStep.NoTruncation | src/bitecoin_miner_unwrap.cpp:83-85 | for 128-bit l, c, h: l·c + h < 2^256, so the step's exact result always fits in 8 limbs |
| HashStep.StepValue | src/bitecoin_miner_unwrap.cpp:80-86 | one three-call step yields exactly lo(x)·c + hi(x), and the carry returned by the final wide_add, which the source discards, is always 0 |
| HashStep.StepOfUnitPoint | src/main.cpp:56-60 | stepping [1,0,…,0] puts c in the low half and zeros in the high half |
| HashStep.StepTestVector | src/main.cpp:150-153 | an instance of StepOfUnitPoint at the harness's constants c[0..3]: the unit point steps to those constants followed by four zero limbs |
| Combined.PoolHashStepCombined | src/PoolHashStepCombined.cpp:1-41 | the fused column multiply leaves in x exactly the three-call step of its old value: the two forms agree bit for bit; no carry is dropped |
| Combined.ColumnFormulas | src/PoolHashStepCombined.cpp:6-31 | column i sums exactly the products x[j]·c[t] with j + t == i: each of the 16 limb products is added once, into column j+t |
| Combined.ColumnTermsBound | src/PoolHashStepCombined.cpp:7-12 | a column's sum of products is at most (number of terms)·(2^32−1)^2 |
| Combined.ColumnsAreProduct | src/PoolHashStepCombined.cpp:6-38 | the seven column sums weighted by 2^(32·i) add up to lo(x)·c |
| Combined.OverflowTest | src/PoolHashStepCombined.cpp:10-12 | after acc += temp in 64 bits, acc < temp holds exactly when the add overflowed, and the wrapped sum plus 2^64 on overflow is the exact sum |
| Combined.AccumulateColumn | src/PoolHashStepCombined.cpp:7-14 | after a column's products are accumulated, carry·2^64 + acc is exactly the starting acc plus the column sum, with acc < 2^64 and carry ≤ 4 |
| Combined.CloseColumn | src/PoolHashStepCombined.cpp:18-19 | the shift (carry<<32)\|(acc>>32) hands exactly ⌊sum/2^32⌋ to the next column, acc's low word is sum mod 2^32, and carry>>32 is 0 |
| Combined.ColumnAdvance | src/PoolHashStepCombined.cpp:15-20 | storing a column keeps the invariant that the limbs written so far, plus the pending acc and carryy, denote the exact partial result; carryy ≤ 1 |
| Combined.StoreColumn | src/PoolHashStepCombined.cpp:15-37 | writing a limb keeps that invariant, resets carry to 0, keeps acc < 2^34 and carryy ≤ 1; a low limb i also adds x[i+4], a high limb i+3 adds only carryy |
| Combined.TopLimbFits | src/PoolHashStepCombined.cpp:39 | what remains for limb 7 is below 2^32, so truncating it to uint32_t loses nothing |
| Combined.LastLimb | src/PoolHashStepCombined.cpp:39-40 | limb 7 = (acc + carryy) mod 2^32 completes the result to the three-call step of the input |
| Seed.Split64 | src/bitecoin_miner_unwrap.cpp:75-77 | a 64-bit field is two limbs, low word first, that together denote it |
| Seed.FromTemplate | src/bitecoin_miner_v2.cpp:99-100 | the seed has the index in limb 0 and the template's limbs everywhere else |
| Seed.AddWordToZero | src/bitecoin_miner_unwrap.cpp:74 | wide_add of a word into zero limbs puts it in limb 0 with no carry |
| Seed.AddU64ToZero | src/bitecoin_miner_unwrap.cpp:75-77 | 64-bit wide_add into zero limbs puts the value in the two lowest limbs with no carry |
| Seed.WideAddSeedLimbs | src/bitecoin_miner_unwrap.cpp:72-77 | the wide_add seed is [index, 0, roundId, roundSalt, chainHash], each 64-bit field split low word first: no carry crosses fields |
| Seed.WideAddSeedValue | src/bitecoin_miner_unwrap.cpp:72-77 | the wide_add seed denotes index + roundId·2^64 + roundSalt·2^128 + chainHash·2^192 exactly |
| Seed.LayoutsAgree | src/bitecoin_miner_v2.cpp:55-62 | the template seed equals the wide_add seed if and only if each of roundId, roundSalt and chainHash has equal upper and lower 32-bit words |
| Seed.LayoutsAgreeOnZeroFields | src/bitecoin_miner_kernel_seq.cpp:93-101 | the layouts agree when all three fields are 0 |
| Seed.LayoutsDifferOnSmallId | src/bitecoin_miner_kernel_seq.cpp:93-101 | the layouts differ for roundId = 1, whatever the other fields |
| Candidates.Gap | src/bitecoin_miner_unwrap.cpp:53 | each gap 1 + rand()%10 lies in [1, 10] |
| Candidates.WalkPrefix | src/bitecoin_miner_unwrap.cpp:52-55 | a row of n indices is the prefix of every longer row drawn from the same calls |
| Candidates.WalkIsGapSum | src/bitecoin_miner_unwrap.cpp:51-55 | while 10·m < 2^32, entry i is the sum of the first i+1 gaps (the uint32_t cursor never wraps) |
| Candidates.GapSumIncreasing | src/bitecoin_miner_unwrap.cpp:53 | partial sums of gaps strictly increase |
| Candidates.WalkGaps | src/bitecoin_miner_unwrap.cpp:51-55 | while 10·m < 2^32, the first index lies in [1, 10] and each later index exceeds its predecessor by 1 to 10 |
| Candidates.WalkIncreasing | src/bitecoin_miner_unwrap.cpp:51-55 | while 10·m < 2^32 every row is strictly increasing |
| Candidates.OutOfOrderIffNotIncreasing | src/bitecoin_miner_unwrap.cpp:60-63 | the check throws if and only if the row is not strictly increasing |
| Candidates.NeighboursOutOfOrder | src/bitecoin_miner_unwrap.cpp:61-63 | one neighbour pair with indices[i-1] >= indices[i] makes the row fail the check |
| Candidates.NeighboursIncreasing | src/bitecoin_miner_unwrap.cpp:60-63 | a row that passes the check is increasing between any two positions, not just neighbours |
| Candidates.WalkInOrder | src/bitecoin_miner_unwrap.cpp:60-63 | the check never fires on a generated row while 10·m < 2^32 |
| Candidates.WalkWraps | src/bitecoin_miner_unwrap.cpp:53 | the check is reachable: with every draw ≡ 9 (mod 10), a row of 429496730 indices wraps the uint32_t cursor and fails it |
| Candidates.WalkOfTens | src/bitecoin_miner_unwrap.cpp:53 | with every draw ≡ 9 (mod 10), entry i is 10(i+1) mod 2^32 up to and including the entry where the uint32_t cursor wraps to 0 |
| Candidates.ExtendRow | src/bitecoin_miner_v2.cpp:82 | writing the next entry of a row extends the row by one index and changes nothing else in the buffer |
| Candidates.FillRowCursor | src/bitecoin_miner_unwrap.cpp:51-55 | the cursor loop writes the row of the next m draws at its base and leaves the rest of the buffer unchanged |
| Candidates.FillRowChained | src/bitecoin_miner_v2.cpp:80-83 | the chained loop writes the same row as the cursor loop from the same draws, and nothing else |
| Slots.WithSlotSlot | src/main.cpp:50-60 | writing slot s sets exactly that slot |
| Slots.WithSlotFrame | src/main.cpp:50-60 | writing slot s leaves every word outside point[s*8 .. s*8+8) unchanged |
| Slots.WithSlotOther | src/main.cpp:50-60 | writing slot s leaves every other slot unchanged |
| Slots.SeedSlot | src/main.cpp:50-53 | slot s becomes [index, temp[1..7]]; temp[0] is ignored |
| Slots.StepSlot | src/main.cpp:57-59 | the three in-place calls leave in slot s the hash step of its old value and change no other word |
| Slots.IterateSlot | src/main.cpp:56-60 | the step loop leaves in slot s the hashSteps-fold iterate of its old value and changes no other word |
| Slots.MainLoop | src/main.cpp:37-62 | main_loop leaves in slot k*j+i the hashSteps-fold iterate of [indices[k*j+i], temp[1..7]] and changes no other word of point |
| Fold.XorZeroLeft | src/main.cpp:209 | a zeroed proof is a left identity for the fold |
| Fold.XorAllAppend | src/main.cpp:226-233 | folding a concatenation is the wide_xor of the two folds |
| Fold.XorAllPermutation | src/bitecoin_miner_v2.cpp:108 | the proof depends only on the multiset of points, not on the order of i |
| Fold.XorSlot | src/main.cpp:228-231 | XOR-ing the 8 words of a slot limb by limb into acc is wide_xor(acc, slot) |
| Fold.FoldRow | src/bitecoin_miner_kernel_seq.cpp:276-282 | folding row k XORs the row's m slots into proof[k] and changes no other proof |
| Fold.FoldRows | src/main.cpp:226-233 | after the nested loop, each proof[k] for k < iterations is its old value XOR the fold of row k's slots, and the other proofs are unchanged |
| Fold.FoldFromZero | src/main.cpp:209 | a row folded into a zeroed proof gives exactly the XOR of its points |
| Fold.HalvesToTwoIffLeading10 | src/bitecoin_miner_array.cpp:40-51 | wide_xor_array(n, p) returns if and only if n's two leading bits are 10 (n = 2, 4, 5, 8–11, …); from every other n it recurses without end |
| Fold.XorAllPair | src/bitecoin_miner_array.cpp:40-45 | for n == 2 the result is p[0] ^ p[1], the XOR of both points |
| Fold.AsWrittenPowerOfTwo | src/bitecoin_miner_array.cpp:46-64 | for n = 2^t with t ≥ 1, wide_xor_array as written is the XOR of p[0..n) |
| Fold.AsWrittenDropsFifth | src/bitecoin_miner_array.cpp:46-64 | for n = 5, wide_xor_array returns the XOR of p[0..4) only and never reads p[4]; it differs from the XOR of all five whenever p[4] ≠ 0 |
| Fold.WideXorTree | src/bitecoin_miner_array.cpp:37-66 | the corrected tree, which splits n into n/2 and n − n/2, is the XOR of p[0..n) for every n |
| Fold.TreeAgreesOnPowersOfTwo | src/bitecoin_miner_array.cpp:37-66 | for n = 2^t with t ≥ 1 the corrected tree equals wide_xor_array as written |
| Search.ReduceSnoc | src/bitecoin_miner_unwrap.cpp:95-100 | offering one more candidate replaces the best only when its proof is strictly less |
| Search.ReduceAppend | src/bitecoin_miner_v2.cpp:75-134 | reducing batch after batch gives the same best as reducing all candidates at once |
| Search.ReduceIsLowest | src/bitecoin_miner_v2.cpp:117-127 | the resulting proof is ≤ the starting best and ≤ every offered proof: bestProof never increases |
| Search.ReduceIsOffered | src/bitecoin_miner_v2.cpp:117-127 | the result is either the starting best unchanged or exactly some candidate's row and proof |
| Search.ReduceKeeps | src/bitecoin_miner_kernel_seq.cpp:87-89 | when no offered proof is below the starting best, the best is returned unchanged (so the maxIndices zeros and the all-ones proof are output as initialised) |
| Search.ReduceFirstMinimum | src/bitecoin_miner_unwrap.cpp:95-100 | of several candidates with the minimal proof, the earliest one wins |
| Search.ZeroBeatsInitial | src/bitecoin_miner_unwrap.cpp:57-58 | the all-zero proof (that of an empty row) is strictly below the all-ones initial best |
| Search.BatchFromRows | src/bitecoin_miner_v2.cpp:117-127 | a flat batch whose row k and proof k are those of candidate k offers exactly those candidates, in order |
| Search.BatchCandidatesNext | src/bitecoin_miner_v2.cpp:122-124 | one more row of the flat buffer adds the candidate indices[k*m .. k*m+m) with proof[k] |
| Search.CopyRow | src/bitecoin_miner_kernel_seq.cpp:290-292 | the element-wise copy makes bestSolution equal to row k of the flat index buffer |
| Search.Offer | src/bitecoin_miner_kernel_seq.cpp:287-294 | one comparison updates the best as the reduction prescribes: row and proof on strict <, unchanged otherwise |
| Search.ReduceBatch | src/bitecoin_miner_v2.cpp:117-127 | the loop over k leaves bestSolution and bestProof equal to the reduction of the old best with every candidate of the batch in order of k |
| Trials.Batches | src/bitecoin_miner_v2.cpp:131-132 | at least one batch runs; the run stops after the first batch whose deadline test succeeds and not before |
| Trials.NextPoll | src/bitecoin_miner_v2.cpp:131-132 | before the last batch, the test after batch t succeeds exactly when t is the last batch |
| Trials.BatchesAt | src/bitecoin_miner_unwrap.cpp:102-107 | a loop that sees n failing tests and then a succeeding one has run exactly n+1 passes |
| Trials.TrialRowsRow | src/main.cpp:203-208 | row k of the flat index buffer is the row of candidate first+k |
| Trials.TemplatePoints | src/bitecoin_miner_v2.cpp:99-105 | point i of a row is the hashSteps-fold iterate of the template with index i in limb 0 |
| Trials.TemplatePointsNext | src/bitecoin_miner_tbb_seq.cpp:215-217 | XOR-ing each point into the proof as soon as it is hashed extends the fold of the row prefix by that point |
| Trials.TemplateTrialsAppend | src/bitecoin_miner_v2.cpp:75-134 | the candidates of n+i trials are those of n trials followed by the next i |
| Trials.TemplateTrialsSnoc | src/bitecoin_miner_tbb_seq.cpp:188-231 | one more trial adds exactly the next candidate |
| Trials.TemplateBidNext | src/bitecoin_miner_v2.cpp:117-127 | reducing the next i candidates into the bid after n trials gives the bid after n+i trials |
| Trials.HashedRow | src/bitecoin_miner_kernel_seq.cpp:276-282 | in a hashed buffer, the slots of row k are the hashed points of row k |
| Trials.DeviceBatchAgrees | src/bitecoin_miner_kernel_seq.cpp:209-221 | a batch read back from a device that hashed its rows as main_loop does offers the host branch's candidates |
| Trials.DeviceAgrees | src/bitecoin_miner_kernel_seq.cpp:196-241 | when every device buffer holds main_loop's points, the OpenCL branch offers exactly the host branch's candidates |
| Trials.UnwrapPointsNext | src/bitecoin_miner_unwrap.cpp:89 | XOR-ing point i into the proof extends the fold of the row prefix by that point |
| Trials.UnwrapTrialsSnoc | src/bitecoin_miner_unwrap.cpp:46-108 | one more pass adds exactly the next candidate |
| Trials.UnwrapThrows | src/bitecoin_miner_unwrap.cpp:60-63 | if a pass before the deadline draws an out-of-order row, MakeBid throws invalid_argument |
| Trials.UnwrapBids | src/bitecoin_miner_unwrap.cpp:46-108 | if every pass before the deadline passes the check, MakeBid bids the reduction of those passes' candidates |
| Trials.UnwrapNeverThrows | src/bitecoin_miner_unwrap.cpp:51-63 | while 10·maxIndices < 2^32, MakeBid never throws |
| Trials.UnwrapPointsMatch | src/bitecoin_miner_unwrap.cpp:72-77 | when each 64-bit field has equal halves, the wide_add points of a row equal its template points |
| Trials.UnwrapMatchesTemplate | src/bitecoin_miner_unwrap.cpp:72-77 | when each 64-bit field has equal halves, the unwrap variant's candidate q equals the template variants' candidate q |
| Batch.MakeTemplate | src/bitecoin_miner_kernel_seq.cpp:93-101 | the template buffer holds limbs 0–1 zero, then the low words of roundId, roundSalt and chainHash, each twice |
| Batch.HashSteps | src/bitecoin_miner_v2.cpp:103-105 | the step loop returns the hashSteps-fold iterate of the seed (the seed itself when hashSteps is 0) |
| Batch.FillRowsCursor | src/bitecoin_miner_kernel_seq.cpp:247-254 | the index buffer holds the rows of candidates first .. first+iterations−1 and every proof is zero |
| Batch.FillRowsChained | src/bitecoin_miner_v2.cpp:79-85 | the chained rows are those same rows, and every proof is zero |
| Batch.ZeroProof | src/bitecoin_miner_v2.cpp:84 | proof[k] becomes zero and no other proof changes |
| Batch.HashedNext | src/main.cpp:213-217 | main_loop on the next slot extends the hashed prefix of the buffer by one slot |
| Batch.HashRow | src/bitecoin_miner_kernel_seq.cpp:256-274 | after main_loop on every i of row k, the buffer is hashed up to the end of row k |
| Batch.HashRows | src/main.cpp:213-217 | after main_loop on every k and i, every slot holds the hashed point of its index |
| Batch.HashAndFold | src/bitecoin_miner_v2_tbb.cpp:97-118 | zeroing proof[k], hashing row k and folding it leaves proof[k] equal to the fold of row k and changes no other proof |
| Batch.ReadBack | src/bitecoin_miner_kernel_seq.cpp:213 | the point buffer becomes what the device wrote |
| Batch.HashedFold | src/main.cpp:226-233 | the fold of row k of a hashed buffer is the XOR of row k's hashed points |
| Batch.InitialBid | src/bitecoin_miner_v2.cpp:48-50 | the zero solution with the all-ones proof is the bid after no trials |
| Batch.TemplateBidStep | src/bitecoin_miner_tbb_seq.cpp:222-227 | the bid after t+1 trials is the bid after t trials improved by candidate t |
| Batch.RowProof | src/bitecoin_miner_v2.cpp:111-115 | row k of the drawn rows folds to the proof of candidate first+k |
| Batch.ReadyBatch | src/bitecoin_miner_v2.cpp:117-127 | a batch whose rows are drawn and whose proofs are folded offers exactly the next candidates |
| Batch.ReadyBid | src/bitecoin_miner_v2.cpp:117-127 | reducing such a batch into the bid after `first` trials gives the bid after first+iterations trials |
| Batch.HashedReady | src/bitecoin_miner_kernel_seq.cpp:256-282 | drawn rows, hashed by main_loop and folded from zero, make a ready batch |
| Batch.DeviceReady | src/bitecoin_miner_kernel_seq.cpp:213-221 | a device buffer read back and folded from zero offers the device's candidates |
| Batch.DeviceBidNext | src/bitecoin_miner_kernel_seq.cpp:196-241 | the device's batch b, offered after batches 0..b−1, continues their reduction |
| Batch.DeviceBid | src/bitecoin_miner_kernel_seq.cpp:196-241 | when every device buffer holds main_loop's points, the OpenCL branch bids exactly what the host branch bids |
| MinerUnwrap.HashPoint | src/bitecoin_miner_unwrap.cpp:66-89 | seeding with wide_add, stepping and XOR-ing point i extends the proof of the first i points to the first i+1 |
| MinerUnwrap.CheckAndFold | src/bitecoin_miner_unwrap.cpp:60-90 | the pass throws if and only if the row is out of order; when it does not, the proof is the XOR of all the row's points from zero |
| MinerUnwrap.Trial | src/bitecoin_miner_unwrap.cpp:50-90 | a pass draws the row of candidate t, throws if and only if that row is out of order, and otherwise yields candidate t |
| MinerUnwrap.MakeBid | src/bitecoin_miner_unwrap.cpp:28-114 | MakeBid returns exactly the specified outcome: invalid_argument if a pass before the deadline draws an out-of-order row, otherwise the best of the passes run |
| MinerV2.MainLoop | src/bitecoin_miner_v2.cpp:88-109 | the lambda XORs into proof[k] the hashed template point of indices[k*j+i] and changes no other proof |
| MinerV2.FoldCandidate | src/bitecoin_miner_v2.cpp:112-114 | the calls for i < maxIndices leave in proof[k] the XOR of row k's hashed points |
| MinerV2.FoldCandidates | src/bitecoin_miner_v2.cpp:111-115 | the nested loop leaves every proof[k] equal to the proof of candidate first+k |
| MinerV2.RunBatch | src/bitecoin_miner_v2.cpp:79-127 | one pass of the trial loop turns the bid after `first` trials into the bid after first+iterations trials |
| MinerV2.BatchedBid | src/bitecoin_miner_v2.cpp:75-134 | the trial loop bids the best of all Batches(polls)·iterations candidates drawn |
| MinerV2.MakeBid | src/bitecoin_miner_v2.cpp:34-140 | MakeBid bids the best of Batches(polls)·16 candidates |
| MinerV2Tbb.Trial | src/bitecoin_miner_v2_tbb.cpp:92-119 | lambda k draws row k, hashes its slots and leaves proof[k] equal to the proof of candidate first+k; no other proof changes |
| MinerV2Tbb.ParallelTrials | src/bitecoin_miner_v2_tbb.cpp:120 | the parallel_for, taken in order of k, leaves a ready batch |
| MinerV2Tbb.RunBatch | src/bitecoin_miner_v2_tbb.cpp:88-132 | one pass turns the bid after `first` trials into the bid after first+iterations trials |
| MinerV2Tbb.MakeBid | src/bitecoin_miner_v2_tbb.cpp:43-146 | MakeBid bids the best of Batches(polls)·(cores·16) candidates |
| MinerTbbSeq.Trial | src/bitecoin_miner_tbb_seq.cpp:120-149 | lambda k draws row k, hashes it and leaves proof[k] equal to the proof of candidate first+k; no other proof changes |
| MinerTbbSeq.ParallelTrials | src/bitecoin_miner_tbb_seq.cpp:150 | the parallel_for, taken in order of k, leaves a ready batch |
| MinerTbbSeq.RunBatch | src/bitecoin_miner_tbb_seq.cpp:116-163 | one pass turns the bid after `first` trials into the bid after first+iterations trials |
| MinerTbbSeq.TbbBid | src/bitecoin_miner_tbb_seq.cpp:94-167 | the TBB branch bids the best of Batches(polls)·iterations candidates |
| MinerTbbSeq.HashPoint | src/bitecoin_miner_tbb_seq.cpp:199-218 | seeding, stepping and immediately XOR-ing point i extends the proof of the first i points to the first i+1 |
| MinerTbbSeq.SequentialTrial | src/bitecoin_miner_tbb_seq.cpp:192-218 | a sequential pass yields candidate t, the same candidate the batch branch computes by folding after hashing |
| MinerTbbSeq.SequentialPass | src/bitecoin_miner_tbb_seq.cpp:188-227 | one pass turns the bid after t trials into the bid after t+1 trials |
| MinerTbbSeq.SequentialBid | src/bitecoin_miner_tbb_seq.cpp:169-231 | the sequential branch bids the best of Batches(polls) candidates |
| MinerTbbSeq.MakeBid | src/bitecoin_miner_tbb_seq.cpp:86-238 | MakeBid bids the best of Batches(polls)·10000 candidates when period > 3 and of Batches(polls) candidates otherwise |
| MinerKernelSeq.GpuTrials | src/bitecoin_miner_kernel_seq.cpp:200-221 | rows drawn, the device buffer read back and folded: the batch offers the device's candidates |
| MinerKernelSeq.GpuBatch | src/bitecoin_miner_kernel_seq.cpp:200-234 | one OpenCL pass reduces the device's candidates into the best |
| MinerKernelSeq.GpuBid | src/bitecoin_miner_kernel_seq.cpp:196-241 | the OpenCL branch bids the best of the device's candidates over Batches(polls) batches |
| MinerKernelSeq.CpuTrials | src/bitecoin_miner_kernel_seq.cpp:247-282 | the host batch leaves every proof[k] equal to the proof of candidate first+k |
| MinerKernelSeq.CpuBatch | src/bitecoin_miner_kernel_seq.cpp:247-295 | one host pass turns the bid after `first` trials into the bid after first+iterations trials |
| MinerKernelSeq.CpuBid | src/bitecoin_miner_kernel_seq.cpp:243-302 | the host branch bids the best of Batches(polls)·iterations candidates |
| MinerKernelSeq.MakeBid | src/bitecoin_miner_kernel_seq.cpp:79-308 | period > 10: the best of the device's candidates; otherwise the best of Batches(polls)·8 host candidates |
| MinerV2Kernel.GpuTrials | src/bitecoin_miner_v2_kernel.cpp:206-226 | chained rows drawn, the device buffer read back and folded: the batch offers the device's candidates |
| MinerV2Kernel.GpuBatch | src/bitecoin_miner_v2_kernel.cpp:203-239 | one pass reduces the device's candidates into the best |
| MinerV2Kernel.MakeBid | src/bitecoin_miner_v2_kernel.cpp:162-249 | MakeBid bids the best of the device's candidates over Batches(polls) batches of computeUnits·groupSize·4 |
| MinerArray.DrawRow | src/bitecoin_miner_array.cpp:113-117 | row k becomes the row of the next draws, keeps its length, and no other row changes |
| MinerArray.StepPoint | src/bitecoin_miner_array.cpp:130-132 | point[s] becomes its hashSteps-fold iterate and no other point changes |
| MinerArray.SeedPoint | src/bitecoin_miner_array.cpp:124-126 | point[s] becomes the template with the index in limb 0, whatever temp's limbs 0–1 held |
| MinerArray.SteppedRow | src/bitecoin_miner_array.cpp:121-133 | a fully stepped row of point slots holds the row's hashed template points |
| MinerArray.HashPoints | src/bitecoin_miner_array.cpp:121-133 | seeding and stepping each point of row k leaves row k's hashed points in point[k*m ..] |
| MinerArray.HashAndCombine | src/bitecoin_miner_array.cpp:121-139 | proof[k] is the XOR of row k's hashed points (using the corrected tree) |
| MinerArray.AsWrittenCandidate | src/bitecoin_miner_array.cpp:139 | when maxIndices = 2^t with t ≥ 1, the source's wide_xor_array over candidate q's points returns and equals the proof this model gives candidate q, so for those row lengths the MinerArray bids are the source's |
| MinerArray.Trial | src/bitecoin_miner_array.cpp:111-142 | lambda k yields candidate first+k in indices[k] and proof[k], and no other row or proof changes |
| MinerArray.ParallelTrials | src/bitecoin_miner_array.cpp:143 | the parallel_for, taken in order of k, yields candidates first .. first+iterations−1 |
| MinerArray.ReduceRows | src/bitecoin_miner_array.cpp:145-152 | the loop leaves the reduction of the old best with rows 0..iterations−1, copying the whole row on strict < |
| MinerArray.RunBatch | src/bitecoin_miner_array.cpp:108-158 | one pass turns the bid after `first` trials into the bid after first+iterations trials |
| MinerArray.SharedTemplate | src/bitecoin_miner_array.cpp:92-98 | temp's limbs 2–7 hold the round's template |
| MinerArray.BatchedBid | src/bitecoin_miner_array.cpp:108-160 | the trial loop bids the best of Batches(polls)·iterations candidates |
| MinerArray.MakeBid | src/bitecoin_miner_array.cpp:68-167 | MakeBid bids the best of Batches(polls)·16 candidates |
| Harness.HarnessTemplate | src/main.cpp:154-161 | the harness's temp is the template of its round |
| Harness.HarnessRoundValid | src/main.cpp:145-153 | the harness's constants form a valid round |
| Harness.ZeroProofs | src/main.cpp:210 | every proof2[k] is zero |
| Harness.HostProofs | src/main.cpp:203-233 | after drawing, main_loop and the fold, proof[k] is the proof of candidate k |
| Harness.DeviceProofs | src/main.cpp:223-233 | after the read-back and the fold, proof2[k] is the proof of the device's candidate k |
| Harness.Run | src/main.cpp:162-233 | proof holds the host proofs and proof2 the device proofs, and they are equal whenever the kernel computed main_loop's points |
| Harness.HarnessSeedOne | src/main.cpp:50-53 | with the harness's temp, main_loop seeds index 1 as [1, 0, id, id, salt, salt, chain, chain] |
| Harness.HarnessStepVector | src/main.cpp:50-60 | one hash step of that seed with the harness's c gives the eight limbs [3418532236, 3418534911, 2713405233, 1433785464, 1006748365, 2483423130, 2541865173, 1065191739] |
| Harness.RunHarness | src/main.cpp:145-240 | the harness with 16 rows of 16 indices and hashSteps = 16 computes the host proofs and the device proofs, and they are equal whenever the kernel computed main_loop's points |

## Left out

- OpenCL: LoadSource, platform and device selection, buffers, kernel arguments and every enqueue call are not modelled, and the `.cl` kernels are not part of this model. The buffer the device writes is an input (`buffer`, `device`, `gpu`). Equality with the host is proved under the hypothesis that the kernel computes main_loop's points.
- TBB: `parallel_for`, `task_group` and `task_scheduler_init` are modelled as loops over k in increasing order. The interleaving of threads is not captured. This includes the data race on the shared `temp` in src/bitecoin_miner_array.cpp:124-126: the model writes limb 0 before each read, as a single thread would.
- `rand()` is a parameter, `rand(n)` being the n-th call in host order. Inside a parallel lambda the real order of calls across threads is unspecified.
- Clock and floating point: now(), tFinish, the safety margins, wide_as_double, score and worst are not modelled.
  - The deadline is the `polls` sequence, with one test after each batch.
  - `period` is a real compared with the 3.0 and 10.0 thresholds.
- The FNV-64 chain hash is not modelled, because the header that defines it is not part of this model. chainHash is a field of the round.
- bitecoin_protocol.hpp is not part of this model. PoolHashStep is modelled as the three-call step. The wide_* primitives are defined by their meaning, not by their bodies.
- Logging, the nTrials counters, the catch blocks that only print, main()'s command line, and the harness's printing of proofs are not modelled.
- wide_copy into pProof and `solution = bestSolution` are the methods' return values.
- The chained row generators (v2, v2_tbb, v2_kernel) write indices[k*m] unconditionally. Their methods therefore require maxIndices ≥ 1, as the source does.
- MinerTbbSeq.Trial: states the rows and hashed slots up to row k and that other proofs are unchanged. It does not state that later rows and slots are untouched, because the loop over k only needs the prefix.
- MinerV2Tbb.Trial: states the rows and hashed slots up to row k and that other proofs are unchanged. It does not state that later rows and slots are untouched, for the same reason.
- MinerKernelSeq.GpuBatch: the enqueue of c and indices to the device each batch is not modelled. The device's output is taken as given.
- MinerArray.HashAndCombine: uses the corrected wide_xor_array (see Findings), so it has no power-of-two requirement on maxIndices.
- MinerArray.Trial, MinerArray.ParallelTrials, MinerArray.RunBatch, MinerArray.BatchedBid, MinerArray.MakeBid: model the corrected program, whose proofs XOR every point of the row. The source's wide_xor_array gives the same proofs only when maxIndices = 2^t with t ≥ 1 (MinerArray.AsWrittenCandidate). For other maxIndices the source leaves points out (maxIndices = 5 drops the fifth) or never returns (0, 1, 3, 6, 7), and these members do not describe that.
- The harness's proof2 is zeroed in its own loop, and proof and proof2 are folded in two loops, whereas the source zeroes proof2 inside the row-drawing loop and folds both in one loop. The result is the same because the two arrays are independent and nothing reads proof2 in between.

## Findings

| source | as written | input that shows it | evidently intended | confidence | as-written member | corrected member |
|---|---|---|---|---|---|---|
| src/bitecoin_miner_array.cpp:37-66 | wide_xor_array halves n and folds two halves of length n/2, from p[0] and from p[n/2] | n = 5 (maxIndices = 5): it halves to 2, folds p[0..2) and p[2..4), and never reads p[4], so the proof leaves out the fifth point. For n = 3, 6, 7 or below 2 the recursion never returns. | the XOR of all n points, as every other variant computes | not executed | Fold.AsWrittenDropsFifth | Fold.WideXorTree |
