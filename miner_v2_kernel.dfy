// MakeBid of src/bitecoin_miner_v2_kernel.cpp: batches of
// maxComputeUnits * preferredWorkGroupSizeMultiple * 4 candidates with chained
// rows; an OpenCL kernel computes every point, the point buffer is read back,
// each row is folded into proof[k] and the reduction runs over k.
module MinerV2Kernel {
  import opened Wide
  import opened HashStep
  import opened Fold
  import opened Search
  import opened Trials
  import opened Batch

  /** The batch up to the reduction: draw the chained rows, read the
      device's point buffer back, fold every row from zero. */
  method GpuTrials(indices: array<Word>, proofs: array<Big>, point: array<Word>, iterations: nat, m: nat,
                   rand: nat -> nat, first: nat, buffer: seq<Word>)
    requires m >= 1 && indices.Length == iterations * m && proofs.Length == iterations
    requires point.Length == indices.Length * WORDS && |buffer| == point.Length
    modifies indices, proofs, point
    ensures indices[..] == TrialRows(rand, first, iterations, m)
    ensures BatchCandidates(indices[..], proofs[..], iterations, m) == DeviceBatch(rand, first, iterations, m, buffer)
  {
    FillRowsChained(indices, proofs, iterations, m, rand, first);
    ReadBack(point, buffer);
    FoldRows(proofs, point, iterations, m);
    DeviceReady(indices[..], proofs[..], point[..], rand, first, iterations, m);
  }

  /** One pass of the trial loop. */
  method GpuBatch(bestSolution: array<Word>, bestProof: Big, indices: array<Word>, proofs: array<Big>,
                  point: array<Word>, iterations: nat, m: nat, rand: nat -> nat, first: nat, buffer: seq<Word>)
    returns (newProof: Big)
    requires m >= 1 && indices.Length == iterations * m && proofs.Length == iterations
    requires point.Length == indices.Length * WORDS && |buffer| == point.Length
    requires bestSolution.Length == m && bestSolution != indices && bestSolution != point
    modifies bestSolution, indices, proofs, point
    ensures Best(bestSolution[..], newProof)
         == Reduce(Best(old(bestSolution[..]), bestProof), DeviceBatch(rand, first, iterations, m, buffer))
  {
    GpuTrials(indices, proofs, point, iterations, m, rand, first, buffer);
    newProof := ReduceBatch(bestSolution, bestProof, indices, proofs, iterations, m);
  }

  /** MakeBid: batch b's points are device[b]; the loop stops at the first
      deadline test after a batch that succeeds. */
  method MakeBid(r: Round, computeUnits: nat, groupSize: nat, rand: nat -> nat, polls: seq<bool>,
                 device: seq<seq<Word>>)
    returns (solution: seq<Word>, proof: Big)
    requires r.maxIndices >= 1 && true in polls && |polls| <= |device|
    requires forall b :: 0 <= b < |device| ==> |device[b]| == computeUnits * groupSize * 4 * r.maxIndices * WORDS
    ensures Best(solution, proof)
         == Reduce(Initial(r.maxIndices),
                   DeviceTrials(rand, device, Batches(polls), computeUnits * groupSize * 4, r.maxIndices))
  {
    var m := r.maxIndices;
    var bestSolution := new Word[m](_ => 0);
    var bestProof: Big := Ones(WORDS);
    var iterations := computeUnits * groupSize * 4;
    var indices := new Word[iterations * m];
    var proofs := new Big[iterations];
    var point := new Word[iterations * m * WORDS];
    assert bestSolution[..] == Zero(m);
    var batch := 0;
    while true
      invariant batch < Batches(polls)
      invariant Best(bestSolution[..], bestProof)
             == Reduce(Initial(m), DeviceTrials(rand, device, batch, iterations, m))
      decreases Batches(polls) - batch
    {
      bestProof := GpuBatch(bestSolution, bestProof, indices, proofs, point, iterations, m, rand,
                            batch * iterations, device[batch]);
      DeviceBidNext(rand, device, batch, iterations, m, Initial(m));
      NextPoll(polls, batch);
      if polls[batch] {
        break;
      }
      batch := batch + 1;
    }
    solution := bestSolution[..];
    proof := bestProof;
  }
}
