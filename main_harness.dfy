// The test harness of src/main.cpp: one batch of 16 rows of 16 indices with
// cursor rows, the round constants written out, main_loop run on the host
// into `point` and the OpenCL kernel's output read back into `point2`; both
// buffers are folded row by row, into proof and proof2, for comparison.
module Harness {
  import opened Wide
  import opened HashStep
  import opened Seed
  import opened Fold
  import opened Search
  import opened Trials
  import opened Batch
  import opened Combined

  /** iterations = maxIndices = hashSteps = 16 */
  const Iterations: nat := 16
  const MaxIndices: nat := 16
  const HashSteps: nat := 16

  /** c[0..3] */
  const C: seq<Word> := [4294964621, 4294967295, 3418534911, 2138916474]

  /** The round the harness's constants describe: temp[2..3] is the round id,
      temp[4..5] the salt and temp[6..7] the chain hash. */
  const HarnessRound: Round := Round(2138916474, 3418534911, 4294967295, HashSteps, MaxIndices, C)

  /** temp[0..7] as the harness writes it. */
  method HarnessTemplate() returns (temp: array<Word>)
    ensures fresh(temp) && temp[..] == Template(HarnessRound)
  {
    temp := new Word[WORDS];
    temp[0] := 0;
    temp[1] := 0;
    temp[2] := 2138916474;
    temp[3] := temp[2];
    temp[4] := 3418534911;
    temp[5] := temp[4];
    temp[6] := 4294967295;
    temp[7] := temp[6];
  }

  /** The harness's constants are a valid round. */
  lemma HarnessRoundValid()
    ensures ValidRound(HarnessRound)
  {
  }

  /** The point main_loop seeds for index 1 from the harness's temp. */
  lemma HarnessSeedOne()
    ensures FromTemplate(Template(HarnessRound), 1)
         == [1, 0, 2138916474, 2138916474, 3418534911, 3418534911, 4294967295, 4294967295]
  {
  }

  /** The values of the step's operands and of the expected result. */
  lemma HarnessStepValues(x: Big, w0: seq<Word>, w1: seq<Word>)
    requires x == [1, 0, 2138916474, 2138916474, 3418534911, 3418534911, 4294967295, 4294967295]
    requires w0 == [3418532236, 3418534911, 2713405233, 1433785464]
    requires w1 == [1006748365, 2483423130, 2541865173, 1065191739]
    ensures Value(w0 + w1) == Value(x[..4]) * Value(C) + Value(x[4..])
  {
    Value4(x[..4]);
    Value4(x[4..]);
    Value4(C);
    Value4(w0);
    Value4(w1);
    ValueAppend(w0, w1);
    Pow4Is128Bits();
  }

  /** One hash step of the point main_loop seeds for index 1 from the
      harness's temp, [1, 0, id, id, salt, salt, chain, chain], with its c. */
  lemma HarnessStepVector()
    ensures Step(FromTemplate(Template(HarnessRound), 1), C)
         == [3418532236, 3418534911, 2713405233, 1433785464, 1006748365, 2483423130, 2541865173, 1065191739]
  {
    var x := FromTemplate(Template(HarnessRound), 1);
    var w0: seq<Word> := [3418532236, 3418534911, 2713405233, 1433785464];
    var w1: seq<Word> := [1006748365, 2483423130, 2541865173, 1065191739];
    HarnessSeedOne();
    StepValue(x, C);
    HarnessStepValues(x, w0, w1);
    ValueInjective(Step(x, C), w0 + w1);
    assert w0 + w1 == [3418532236, 3418534911, 2713405233, 1433785464, 1006748365, 2483423130, 2541865173, 1065191739];
  }

  /** proof2 is zeroed before the device's points are folded into it. */
  method ZeroProofs(proofs2: array<Big>)
    modifies proofs2
    ensures forall k :: 0 <= k < proofs2.Length ==> proofs2[k] == Zero(WORDS)
  {
    for k := 0 to proofs2.Length
      invariant forall q :: 0 <= q < k ==> proofs2[q] == Zero(WORDS)
    {
      proofs2[k] := Zero(WORDS);
    }
  }

  /** The host half: draw the rows, zero proof, run main_loop for every k
      and i, and fold `point` into proof. */
  method HostProofs(indices: array<Word>, proofs: array<Big>, point: array<Word>, temp: array<Word>,
                    iterations: nat, r: Round, rand: nat -> nat)
    requires ValidRound(r) && temp.Length == WORDS && temp[..] == Template(r)
    requires indices.Length == iterations * r.maxIndices && proofs.Length == iterations
    requires point.Length == indices.Length * WORDS
    requires point != indices && point != temp && indices != temp
    modifies indices, proofs, point
    ensures BatchReady(indices[..], proofs[..], rand, 0, iterations, r)
  {
    FillRowsCursor(indices, proofs, iterations, r.maxIndices, rand, 0);
    HashRows(indices, point, temp, iterations, r.maxIndices, r.c, r.hashSteps);
    FoldRows(proofs, point, iterations, r.maxIndices);
    HashedReady(indices[..], proofs[..], point[..], rand, 0, iterations, r);
  }

  /** The device half: read the kernel's output into point2 and fold it into
      proof2. */
  method DeviceProofs(indices: array<Word>, proofs2: array<Big>, point2: array<Word>, iterations: nat, m: nat,
                      rand: nat -> nat, gpu: seq<Word>)
    requires indices.Length == iterations * m && proofs2.Length == iterations
    requires indices[..] == TrialRows(rand, 0, iterations, m)
    requires forall k :: 0 <= k < iterations ==> proofs2[k] == Zero(WORDS)
    requires point2.Length == indices.Length * WORDS && |gpu| == point2.Length && point2 != indices
    modifies proofs2, point2
    ensures forall k :: 0 <= k < iterations ==> proofs2[k] == DeviceBatch(rand, 0, iterations, m, gpu)[k].proof
  {
    ReadBack(point2, gpu);
    FoldRows(proofs2, point2, iterations, m);
    DeviceReady(indices[..], proofs2[..], point2[..], rand, 0, iterations, m);
    forall k | 0 <= k < iterations
      ensures proofs2[k] == DeviceBatch(rand, 0, iterations, m, gpu)[k].proof
    {
      BatchRowProof(indices[..], proofs2[..], iterations, m, k);
    }
  }

  /** Candidate k of a batch carries proof k. */
  lemma {:induction false} BatchRowProof(indices: seq<Word>, proofs: seq<Big>, n: nat, m: nat, k: nat)
    requires n <= |proofs| && n * m <= |indices| && k < n
    ensures BatchCandidates(indices, proofs, n, m)[k].proof == proofs[k]
  {
    if k < n - 1 {
      assert (n - 1) * m <= n * m;
      BatchRowProof(indices, proofs, n - 1, m, k);
    }
  }

  /** The harness up to its output, for the template `temp` of round `r`
      and batches of `iterations` rows: proof from the host's points, proof2
      from the device's (`gpu`, what enqueueReadBuffer returns). */
  method Run(temp: array<Word>, r: Round, iterations: nat, rand: nat -> nat, gpu: seq<Word>)
    returns (proofs: array<Big>, proofs2: array<Big>)
    requires ValidRound(r) && temp.Length == WORDS && temp[..] == Template(r)
    requires |gpu| == iterations * r.maxIndices * WORDS
    ensures proofs.Length == iterations && proofs2.Length == iterations
    ensures forall k :: 0 <= k < iterations ==> proofs[k] == TemplateCandidate(rand, k, r).proof
    ensures forall k :: 0 <= k < iterations ==>
              proofs2[k] == DeviceBatch(rand, 0, iterations, r.maxIndices, gpu)[k].proof
    /** When the kernel computed main_loop's points, proof2 matches proof. */
    ensures Hashed(gpu, TrialRows(rand, 0, iterations, r.maxIndices), Template(r), r.c, r.hashSteps,
                   iterations * r.maxIndices)
            ==> forall k :: 0 <= k < iterations ==> proofs2[k] == proofs[k]
  {
    var indices := new Word[iterations * r.maxIndices];
    var point := new Word[iterations * r.maxIndices * WORDS];
    var point2 := new Word[iterations * r.maxIndices * WORDS];
    proofs := new Big[iterations];
    proofs2 := new Big[iterations];
    HostProofs(indices, proofs, point, temp, iterations, r, rand);
    ZeroProofs(proofs2);
    DeviceProofs(indices, proofs2, point2, iterations, r.maxIndices, rand, gpu);
    if Hashed(gpu, TrialRows(rand, 0, iterations, r.maxIndices), Template(r), r.c, r.hashSteps,
              iterations * r.maxIndices) {
      DeviceBatchAgrees(rand, gpu, 0, iterations, r);
    }
  }

  /** main() with its constants: 16 rows of 16 indices, round HarnessRound. */
  method RunHarness(rand: nat -> nat, gpu: seq<Word>) returns (proofs: array<Big>, proofs2: array<Big>)
    requires |gpu| == Iterations * MaxIndices * WORDS
    ensures proofs.Length == Iterations && proofs2.Length == Iterations
    ensures forall k :: 0 <= k < Iterations ==> proofs[k] == TemplateCandidate(rand, k, HarnessRound).proof
    ensures forall k :: 0 <= k < Iterations ==>
              proofs2[k] == DeviceBatch(rand, 0, Iterations, MaxIndices, gpu)[k].proof
    /** When the kernel computed main_loop's points, the two proofs match. */
    ensures Hashed(gpu, TrialRows(rand, 0, Iterations, MaxIndices), Template(HarnessRound), C, HashSteps,
                   Iterations * MaxIndices)
            ==> forall k :: 0 <= k < Iterations ==> proofs2[k] == proofs[k]
  {
    HarnessRoundValid();
    var temp := HarnessTemplate();
    proofs, proofs2 := Run(temp, HarnessRound, Iterations, rand, gpu);
  }
}
