// MakeBid of src/bitecoin_miner_kernel_seq.cpp. Batches of 8 candidates with
// cursor rows. When the bidding period exceeds 10 seconds the points are
// computed by an OpenCL kernel and read back into the point buffer;
// otherwise main_loop computes them on the host, row by row. Either way the
// points are folded row by row into proof[k], then reduced over k.
module MinerKernelSeq {
  import opened Wide
  import opened HashStep
  import opened Seed
  import opened Slots
  import opened Fold
  import opened Search
  import opened Trials
  import opened Batch

  /** double threshold = 10.0 */
  const Threshold: real := 10.0

  /** unsigned int iterations = 8 */
  const Iterations: nat := 8

  /** The OpenCL batch up to the reduction: draw the rows, read the device's
      point buffer back, fold every row from zero. */
  method GpuTrials(indices: array<Word>, proofs: array<Big>, point: array<Word>, iterations: nat, m: nat,
                   rand: nat -> nat, first: nat, buffer: seq<Word>)
    requires indices.Length == iterations * m && proofs.Length == iterations
    requires point.Length == indices.Length * WORDS && |buffer| == point.Length
    modifies indices, proofs, point
    ensures indices[..] == TrialRows(rand, first, iterations, m)
    ensures BatchCandidates(indices[..], proofs[..], iterations, m) == DeviceBatch(rand, first, iterations, m, buffer)
  {
    FillRowsCursor(indices, proofs, iterations, m, rand, first);
    ReadBack(point, buffer);
    FoldRows(proofs, point, iterations, m);
    DeviceReady(indices[..], proofs[..], point[..], rand, first, iterations, m);
  }

  /** One pass of the OpenCL trial loop. */
  method GpuBatch(bestSolution: array<Word>, bestProof: Big, indices: array<Word>, proofs: array<Big>,
                  point: array<Word>, iterations: nat, m: nat, rand: nat -> nat, first: nat, buffer: seq<Word>)
    returns (newProof: Big)
    requires indices.Length == iterations * m && proofs.Length == iterations
    requires point.Length == indices.Length * WORDS && |buffer| == point.Length
    requires bestSolution.Length == m && bestSolution != indices && bestSolution != point
    modifies bestSolution, indices, proofs, point
    ensures Best(bestSolution[..], newProof)
         == Reduce(Best(old(bestSolution[..]), bestProof), DeviceBatch(rand, first, iterations, m, buffer))
  {
    GpuTrials(indices, proofs, point, iterations, m, rand, first, buffer);
    newProof := ReduceBatch(bestSolution, bestProof, indices, proofs, iterations, m);
  }

  /** The OpenCL branch: batch b's points are device[b]; the loop stops at
      the first deadline test after a batch that succeeds. */
  method GpuBid(r: Round, iterations: nat, rand: nat -> nat, polls: seq<bool>, device: seq<seq<Word>>)
    returns (solution: seq<Word>, proof: Big)
    requires true in polls && |polls| <= |device|
    requires forall b :: 0 <= b < |device| ==> |device[b]| == iterations * r.maxIndices * WORDS
    ensures Best(solution, proof)
         == Reduce(Initial(r.maxIndices), DeviceTrials(rand, device, Batches(polls), iterations, r.maxIndices))
  {
    var m := r.maxIndices;
    var bestSolution := new Word[m](_ => 0);
    var bestProof: Big := Ones(WORDS);
    var indices := new Word[iterations * m];
    var proofs := new Big[iterations];
    var point := new Word[iterations * m * WORDS];
    assert bestSolution[..] == Zero(m);
    var batch := 0;
    while true
      invariant batch < Batches(polls)
      invariant Best(bestSolution[..], bestProof)
             == Reduce(Initial(m), DeviceTrials(rand, device, batch, iterations, m))
      decreases Batches(polls) - batch
    {
      bestProof := GpuBatch(bestSolution, bestProof, indices, proofs, point, iterations, m, rand,
                            batch * iterations, device[batch]);
      DeviceBidNext(rand, device, batch, iterations, m, Initial(m));
      NextPoll(polls, batch);
      if polls[batch] {
        break;
      }
      batch := batch + 1;
    }
    solution := bestSolution[..];
    proof := bestProof;
  }

  /** The host batch up to the reduction: draw the rows, run main_loop for
      every k and i, fold every row from zero. */
  method CpuTrials(indices: array<Word>, proofs: array<Big>, point: array<Word>, temp: array<Word>,
                   iterations: nat, r: Round, rand: nat -> nat, first: nat)
    requires ValidRound(r) && temp.Length == WORDS && temp[..] == Template(r)
    requires indices.Length == iterations * r.maxIndices && proofs.Length == iterations
    requires point.Length == indices.Length * WORDS
    requires point != indices && point != temp && indices != temp
    modifies indices, proofs, point
    ensures BatchReady(indices[..], proofs[..], rand, first, iterations, r)
  {
    var m := r.maxIndices;
    FillRowsCursor(indices, proofs, iterations, m, rand, first);
    HashRows(indices, point, temp, iterations, m, r.c, r.hashSteps);
    FoldRows(proofs, point, iterations, m);
    HashedReady(indices[..], proofs[..], point[..], rand, first, iterations, r);
  }

  /** One pass of the host trial loop. */
  method CpuBatch(bestSolution: array<Word>, bestProof: Big, indices: array<Word>, proofs: array<Big>,
                  point: array<Word>, temp: array<Word>, iterations: nat, r: Round, rand: nat -> nat,
                  first: nat)
    returns (newProof: Big)
    requires ValidRound(r) && temp.Length == WORDS && temp[..] == Template(r)
    requires indices.Length == iterations * r.maxIndices && proofs.Length == iterations
    requires point.Length == indices.Length * WORDS && bestSolution.Length == r.maxIndices
    requires point != indices && point != temp && indices != temp
    requires bestSolution != indices && bestSolution != point && bestSolution != temp
    requires Best(bestSolution[..], bestProof) == TemplateBid(rand, first, r)
    modifies bestSolution, indices, proofs, point
    ensures Best(bestSolution[..], newProof) == TemplateBid(rand, first + iterations, r)
  {
    CpuTrials(indices, proofs, point, temp, iterations, r, rand, first);
    ReadyBid(indices[..], proofs[..], rand, first, iterations, r);
    newProof := ReduceBatch(bestSolution, bestProof, indices, proofs, iterations, r.maxIndices);
  }

  /** The host branch: batches of `iterations` candidates until the deadline. */
  method CpuBid(r: Round, iterations: nat, rand: nat -> nat, polls: seq<bool>)
    returns (solution: seq<Word>, proof: Big)
    requires ValidRound(r) && true in polls
    ensures Best(solution, proof) == TemplateBid(rand, Batches(polls) * iterations, r)
  {
    var m := r.maxIndices;
    var bestSolution := new Word[m](_ => 0);
    var bestProof: Big := Ones(WORDS);
    var temp := MakeTemplate(r);
    var indices := new Word[iterations * m];
    var proofs := new Big[iterations];
    var point := new Word[iterations * m * WORDS];
    InitialBid(bestSolution[..], rand, r);
    var batch := 0;
    while true
      invariant batch < Batches(polls)
      invariant temp[..] == Template(r)
      invariant Best(bestSolution[..], bestProof) == TemplateBid(rand, batch * iterations, r)
      decreases Batches(polls) - batch
    {
      bestProof := CpuBatch(bestSolution, bestProof, indices, proofs, point, temp, iterations, r, rand,
                            batch * iterations);
      NextRow(0, batch, iterations);
      NextPoll(polls, batch);
      if polls[batch] {
        break;
      }
      batch := batch + 1;
    }
    solution := bestSolution[..];
    proof := bestProof;
  }

  /** MakeBid: the OpenCL branch when period > 10, the host branch otherwise,
      each in batches of 8. */
  method MakeBid(r: Round, period: real, rand: nat -> nat, polls: seq<bool>, device: seq<seq<Word>>)
    returns (solution: seq<Word>, proof: Big)
    requires ValidRound(r) && true in polls && |polls| <= |device|
    requires forall b :: 0 <= b < |device| ==> |device[b]| == Iterations * r.maxIndices * WORDS
    ensures period > Threshold ==>
              Best(solution, proof)
              == Reduce(Initial(r.maxIndices), DeviceTrials(rand, device, Batches(polls), Iterations, r.maxIndices))
    ensures period <= Threshold ==> Best(solution, proof) == TemplateBid(rand, Batches(polls) * Iterations, r)
  {
    if period > Threshold {
      solution, proof := GpuBid(r, Iterations, rand, polls, device);
    } else {
      solution, proof := CpuBid(r, Iterations, rand, polls);
    }
  }
}
