// MakeBid of src/bitecoin_miner_v2_tbb.cpp: batches of cores*16 candidates
// with chained rows; a tbb::parallel_for over k draws row k, hashes its points
// into the flat point buffer and folds them into proof[k]; the reduction then
// runs over k in order. The parallel_for is modelled as a loop over k in order.
module MinerV2Tbb {
  import opened Wide
  import opened HashStep
  import opened Seed
  import opened Candidates
  import opened Slots
  import opened Fold
  import opened Search
  import opened Trials
  import opened Batch

  /** The body of the parallel_for for candidate k of a batch whose first
      candidate is `first`: draw row k, zero proof[k], then hash and fold. */
  method Trial(k: nat, indices: array<Word>, proofs: array<Big>, point: array<Word>, temp: array<Word>,
               iterations: nat, r: Round, rand: nat -> nat, first: nat)
    requires ValidRound(r) && r.maxIndices >= 1 && k < iterations
    requires temp.Length == WORDS && temp[..] == Template(r)
    requires indices.Length == iterations * r.maxIndices && proofs.Length == iterations
    requires point.Length == indices.Length * WORDS
    requires point != indices && point != temp && indices != temp
    requires k * r.maxIndices <= indices.Length
    requires indices[..k * r.maxIndices] == TrialRows(rand, first, k, r.maxIndices)
    requires Hashed(point[..], indices[..], temp[..], r.c, r.hashSteps, k * r.maxIndices)
    modifies indices, proofs, point
    ensures k * r.maxIndices + r.maxIndices <= indices.Length
    ensures indices[..k * r.maxIndices + r.maxIndices] == TrialRows(rand, first, k + 1, r.maxIndices)
    ensures Hashed(point[..], indices[..], temp[..], r.c, r.hashSteps, k * r.maxIndices + r.maxIndices)
    ensures proofs[k] == TemplateCandidate(rand, first + k, r).proof
    ensures forall q :: 0 <= q < proofs.Length && q != k ==> proofs[q] == old(proofs[q])
  {
    var m := r.maxIndices;
    RowInBatch(k, iterations, m, indices.Length);
    ghost var before := indices[..];
    var _ := FillRowChained(indices, k * m, m, rand, (first + k) * m);
    RowAppended(before, indices[..], k * m, m, TrialRow(rand, first + k, m));
    HashedSameIndices(point[..], before, indices[..], temp[..], r.c, r.hashSteps, k * m);
    HashAndFold(k, indices, proofs, point, temp, iterations, r);
    HashedFold(point[..], indices[..], temp[..], r.c, r.hashSteps, k, m, k * m + m);
    assert indices[k * m..k * m + m] == TrialRow(rand, first + k, m);
  }

  /** tbb::parallel_for(0u, iterations, main_loop), with k in order. */
  method ParallelTrials(indices: array<Word>, proofs: array<Big>, point: array<Word>, temp: array<Word>,
                        iterations: nat, r: Round, rand: nat -> nat, first: nat)
    requires ValidRound(r) && r.maxIndices >= 1
    requires temp.Length == WORDS && temp[..] == Template(r)
    requires indices.Length == iterations * r.maxIndices && proofs.Length == iterations
    requires point.Length == indices.Length * WORDS
    requires point != indices && point != temp && indices != temp
    modifies indices, proofs, point
    ensures BatchReady(indices[..], proofs[..], rand, first, iterations, r)
  {
    var m := r.maxIndices;
    ghost var want := TemplateProofs(rand, first, iterations, r);
    for k := 0 to iterations
      invariant k * m <= indices.Length
      invariant indices[..k * m] == TrialRows(rand, first, k, m)
      invariant Hashed(point[..], indices[..], temp[..], r.c, r.hashSteps, k * m)
      invariant forall q :: 0 <= q < k ==> proofs[q] == want[q]
    {
      Trial(k, indices, proofs, point, temp, iterations, r, rand, first);
      assert proofs[k] == want[k];
      NextRow(first, k, m);
    }
    assert indices[..iterations * m] == indices[..];
  }

  /** One pass of the trial loop: the batch, then the reduction. */
  method RunBatch(bestSolution: array<Word>, bestProof: Big, indices: array<Word>, proofs: array<Big>,
                  point: array<Word>, temp: array<Word>, iterations: nat, r: Round, rand: nat -> nat,
                  first: nat)
    returns (newProof: Big)
    requires ValidRound(r) && r.maxIndices >= 1
    requires temp.Length == WORDS && temp[..] == Template(r)
    requires indices.Length == iterations * r.maxIndices && proofs.Length == iterations
    requires point.Length == indices.Length * WORDS && bestSolution.Length == r.maxIndices
    requires point != indices && point != temp && indices != temp
    requires bestSolution != indices && bestSolution != point && bestSolution != temp
    requires Best(bestSolution[..], bestProof) == TemplateBid(rand, first, r)
    modifies bestSolution, indices, proofs, point
    ensures Best(bestSolution[..], newProof) == TemplateBid(rand, first + iterations, r)
  {
    ParallelTrials(indices, proofs, point, temp, iterations, r, rand, first);
    ReadyBid(indices[..], proofs[..], rand, first, iterations, r);
    newProof := ReduceBatch(bestSolution, bestProof, indices, proofs, iterations, r.maxIndices);
  }

  /** MakeBid: batches of cores*16 candidates until the deadline test after a
      batch succeeds; the bid is the best of every candidate drawn. */
  method MakeBid(r: Round, cores: nat, rand: nat -> nat, polls: seq<bool>)
    returns (solution: seq<Word>, proof: Big)
    requires ValidRound(r) && r.maxIndices >= 1 && true in polls
    ensures Best(solution, proof) == TemplateBid(rand, Batches(polls) * (cores * 16), r)
  {
    var m := r.maxIndices;
    var bestSolution := new Word[m](_ => 0);
    var bestProof: Big := Ones(WORDS);
    var temp := MakeTemplate(r);
    var iterations := cores * 16;
    var indices := new Word[iterations * m];
    var proofs := new Big[iterations];
    var point := new Word[iterations * m * WORDS];
    InitialBid(bestSolution[..], rand, r);
    var batch := 0;
    while true
      invariant batch < Batches(polls)
      invariant temp[..] == Template(r)
      invariant Best(bestSolution[..], bestProof) == TemplateBid(rand, batch * iterations, r)
      decreases Batches(polls) - batch
    {
      bestProof := RunBatch(bestSolution, bestProof, indices, proofs, point, temp, iterations, r, rand,
                            batch * iterations);
      NextRow(0, batch, iterations);
      NextPoll(polls, batch);
      if polls[batch] {
        break;
      }
      batch := batch + 1;
    }
    solution := bestSolution[..];
    proof := bestProof;
  }
}
