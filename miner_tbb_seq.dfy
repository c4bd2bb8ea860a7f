// MakeBid of src/bitecoin_miner_tbb_seq.cpp. When the bidding period exceeds
// 3 seconds it runs batches of 10000 candidates with cursor rows, a
// tbb::parallel_for over k (modelled as a loop over k in order) drawing,
// hashing and folding row k, then the reduction over k; otherwise it runs one
// candidate per pass, XOR-ing each point into the proof as soon as it is
// hashed and replacing the whole best vector on improvement.
module MinerTbbSeq {
  import opened Wide
  import opened HashStep
  import opened Seed
  import opened Candidates
  import opened Slots
  import opened Fold
  import opened Search
  import opened Trials
  import opened Batch

  /** double threshold = 3.0 */
  const Threshold: real := 3.0

  /** unsigned int iterations = 10000 */
  const TbbIterations: nat := 10000

  /** The body of the parallel_for for candidate k: row k with the cursor,
      then zero, hash and fold. */
  method Trial(k: nat, indices: array<Word>, proofs: array<Big>, point: array<Word>, temp: array<Word>,
               iterations: nat, r: Round, rand: nat -> nat, first: nat)
    requires ValidRound(r) && k < iterations
    requires temp.Length == WORDS && temp[..] == Template(r)
    requires indices.Length == iterations * r.maxIndices && proofs.Length == iterations
    requires point.Length == indices.Length * WORDS
    requires point != indices && point != temp && indices != temp
    requires k * r.maxIndices <= indices.Length
    requires indices[..k * r.maxIndices] == TrialRows(rand, first, k, r.maxIndices)
    requires Hashed(point[..], indices[..], temp[..], r.c, r.hashSteps, k * r.maxIndices)
    modifies indices, proofs, point
    ensures k * r.maxIndices + r.maxIndices <= indices.Length
    ensures indices[..k * r.maxIndices + r.maxIndices] == TrialRows(rand, first, k + 1, r.maxIndices)
    ensures Hashed(point[..], indices[..], temp[..], r.c, r.hashSteps, k * r.maxIndices + r.maxIndices)
    ensures proofs[k] == TemplateCandidate(rand, first + k, r).proof
    ensures forall q :: 0 <= q < proofs.Length && q != k ==> proofs[q] == old(proofs[q])
  {
    var m := r.maxIndices;
    RowInBatch(k, iterations, m, indices.Length);
    ghost var before := indices[..];
    var _ := FillRowCursor(indices, k * m, m, rand, (first + k) * m);
    RowAppended(before, indices[..], k * m, m, TrialRow(rand, first + k, m));
    HashedSameIndices(point[..], before, indices[..], temp[..], r.c, r.hashSteps, k * m);
    HashAndFold(k, indices, proofs, point, temp, iterations, r);
    HashedFold(point[..], indices[..], temp[..], r.c, r.hashSteps, k, m, k * m + m);
    assert indices[k * m..k * m + m] == TrialRow(rand, first + k, m);
  }

  /** tbb::parallel_for(0u, iterations, main_loop), with k in order. */
  method ParallelTrials(indices: array<Word>, proofs: array<Big>, point: array<Word>, temp: array<Word>,
                        iterations: nat, r: Round, rand: nat -> nat, first: nat)
    requires ValidRound(r)
    requires temp.Length == WORDS && temp[..] == Template(r)
    requires indices.Length == iterations * r.maxIndices && proofs.Length == iterations
    requires point.Length == indices.Length * WORDS
    requires point != indices && point != temp && indices != temp
    modifies indices, proofs, point
    ensures BatchReady(indices[..], proofs[..], rand, first, iterations, r)
  {
    var m := r.maxIndices;
    ghost var want := TemplateProofs(rand, first, iterations, r);
    for k := 0 to iterations
      invariant k * m <= indices.Length
      invariant indices[..k * m] == TrialRows(rand, first, k, m)
      invariant Hashed(point[..], indices[..], temp[..], r.c, r.hashSteps, k * m)
      invariant forall q :: 0 <= q < k ==> proofs[q] == want[q]
    {
      Trial(k, indices, proofs, point, temp, iterations, r, rand, first);
      assert proofs[k] == want[k];
      NextRow(first, k, m);
    }
    assert indices[..iterations * m] == indices[..];
  }

  /** One pass of the TBB trial loop: the batch, then the reduction. */
  method RunBatch(bestSolution: array<Word>, bestProof: Big, indices: array<Word>, proofs: array<Big>,
                  point: array<Word>, temp: array<Word>, iterations: nat, r: Round, rand: nat -> nat,
                  first: nat)
    returns (newProof: Big)
    requires ValidRound(r)
    requires temp.Length == WORDS && temp[..] == Template(r)
    requires indices.Length == iterations * r.maxIndices && proofs.Length == iterations
    requires point.Length == indices.Length * WORDS && bestSolution.Length == r.maxIndices
    requires point != indices && point != temp && indices != temp
    requires bestSolution != indices && bestSolution != point && bestSolution != temp
    requires Best(bestSolution[..], bestProof) == TemplateBid(rand, first, r)
    modifies bestSolution, indices, proofs, point
    ensures Best(bestSolution[..], newProof) == TemplateBid(rand, first + iterations, r)
  {
    ParallelTrials(indices, proofs, point, temp, iterations, r, rand, first);
    ReadyBid(indices[..], proofs[..], rand, first, iterations, r);
    newProof := ReduceBatch(bestSolution, bestProof, indices, proofs, iterations, r.maxIndices);
  }

  /** The TBB branch: batches of `iterations` candidates (10000 in MakeBid)
      until the deadline. */
  method TbbBid(r: Round, iterations: nat, rand: nat -> nat, polls: seq<bool>)
    returns (solution: seq<Word>, proof: Big)
    requires ValidRound(r) && true in polls
    ensures Best(solution, proof) == TemplateBid(rand, Batches(polls) * iterations, r)
  {
    var m := r.maxIndices;
    var bestSolution := new Word[m](_ => 0);
    var bestProof: Big := Ones(WORDS);
    var indices := new Word[iterations * m];
    var proofs := new Big[iterations];
    var point := new Word[iterations * m * WORDS];
    var temp := MakeTemplate(r);
    InitialBid(bestSolution[..], rand, r);
    var batch := 0;
    while true
      invariant batch < Batches(polls)
      invariant temp[..] == Template(r)
      invariant Best(bestSolution[..], bestProof) == TemplateBid(rand, batch * iterations, r)
      decreases Batches(polls) - batch
    {
      bestProof := RunBatch(bestSolution, bestProof, indices, proofs, point, temp, iterations, r, rand,
                            batch * iterations);
      NextRow(0, batch, iterations);
      NextPoll(polls, batch);
      if polls[batch] {
        break;
      }
      batch := batch + 1;
    }
    solution := bestSolution[..];
    proof := bestProof;
  }

  /** Point i of the sequential pass: seed it from the template, step it,
      and XOR it into the running proof. */
  method HashPoint(i: nat, proof: Big, indices: array<Word>, point: array<Word>, temp: array<Word>, r: Round)
    returns (next: Big)
    requires ValidRound(r) && temp.Length == WORDS
    requires i < indices.Length == r.maxIndices && point.Length == r.maxIndices * WORDS
    requires point != indices && point != temp
    requires proof == XorAll(TemplatePoints(indices[..i], temp[..], r.c, r.hashSteps))
    modifies point
    ensures next == XorAll(TemplatePoints(indices[..i + 1], temp[..], r.c, r.hashSteps))
  {
    ghost var before := point[..];
    MainLoop(i, 0, r.maxIndices, 1, r.hashSteps, r.c, indices, point, temp);
    WithSlotSlot(before, i, Iterate(FromTemplate(temp[..], indices[i]), r.c, r.hashSteps));
    next := XorSlot(proof, point, i);
    TemplatePointsNext(indices[..], temp[..], r.c, r.hashSteps, i);
    assert indices[..i + 1][..i] == indices[..i];
  }

  /** One pass of the sequential branch: draw the row of candidate t, then
      for each point seed it, step it and XOR it into the proof at once. */
  method SequentialTrial(indices: array<Word>, point: array<Word>, temp: array<Word>, r: Round,
                         rand: nat -> nat, t: nat)
    returns (proof: Big)
    requires ValidRound(r) && temp.Length == WORDS && temp[..] == Template(r)
    requires indices.Length == r.maxIndices && point.Length == r.maxIndices * WORDS
    requires point != indices && point != temp && indices != temp
    modifies indices, point
    ensures Candidate(indices[..], proof) == TemplateCandidate(rand, t, r)
  {
    var m := r.maxIndices;
    var _ := FillRowCursor(indices, 0, m, rand, t * m);
    proof := Zero(WORDS);
    assert indices[..0] == [];
    for i := 0 to m
      invariant indices[..] == TrialRow(rand, t, m)
      invariant proof == XorAll(TemplatePoints(indices[..i], temp[..], r.c, r.hashSteps))
    {
      proof := HashPoint(i, proof, indices, point, temp, r);
    }
    assert indices[..m] == indices[..];
  }

  /** One pass of the sequential loop: the trial, then bestSolution = indices
      when its proof is strictly smaller. */
  method SequentialPass(bestSolution: seq<Word>, bestProof: Big, indices: array<Word>, point: array<Word>,
                        temp: array<Word>, r: Round, rand: nat -> nat, t: nat)
    returns (solution: seq<Word>, proof: Big)
    requires ValidRound(r) && temp.Length == WORDS && temp[..] == Template(r)
    requires indices.Length == r.maxIndices && point.Length == r.maxIndices * WORDS
    requires point != indices && point != temp && indices != temp
    requires Best(bestSolution, bestProof) == TemplateBid(rand, t, r)
    modifies indices, point
    ensures Best(solution, proof) == TemplateBid(rand, t + 1, r)
  {
    var p := SequentialTrial(indices, point, temp, r, rand, t);
    TemplateBidStep(rand, t, r);
    solution, proof := bestSolution, bestProof;
    if Compare(p, bestProof) < 0 {
      solution := indices[..];
      proof := p;
    }
  }

  /** The sequential branch: one candidate per pass until the deadline. */
  method SequentialBid(r: Round, rand: nat -> nat, polls: seq<bool>) returns (solution: seq<Word>, proof: Big)
    requires ValidRound(r) && true in polls
    ensures Best(solution, proof) == TemplateBid(rand, Batches(polls), r)
  {
    var m := r.maxIndices;
    solution := Zero(m);
    proof := Ones(WORDS);
    var indices := new Word[m];
    var point := new Word[m * WORDS];
    var temp := MakeTemplate(r);
    InitialBid(solution, rand, r);
    var t := 0;
    while true
      invariant t < Batches(polls)
      invariant temp[..] == Template(r)
      invariant Best(solution, proof) == TemplateBid(rand, t, r)
      decreases Batches(polls) - t
    {
      solution, proof := SequentialPass(solution, proof, indices, point, temp, r, rand, t);
      NextPoll(polls, t);
      if polls[t] {
        break;
      }
      t := t + 1;
    }
  }

  /** MakeBid: the branch is chosen once, by comparing the period with the
      threshold; each branch counts its trials in its own batch size. */
  method MakeBid(r: Round, period: real, rand: nat -> nat, polls: seq<bool>)
    returns (solution: seq<Word>, proof: Big)
    requires ValidRound(r) && true in polls
    ensures Best(solution, proof)
         == TemplateBid(rand, Batches(polls) * (if period > Threshold then TbbIterations else 1), r)
  {
    if period > Threshold {
      solution, proof := TbbBid(r, TbbIterations, rand, polls);
    } else {
      solution, proof := SequentialBid(r, rand, polls);
    }
  }
}
