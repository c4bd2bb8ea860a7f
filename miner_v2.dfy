// MakeBid of src/bitecoin_miner_v2.cpp: batches of 16 candidates with chained
// rows; the lambda main_loop, given the template by value, seeds one point
// from indices[k*j+i], steps it and XORs it straight into proof[k]; it is
// called for every k and i in order, and the reduction runs over k.
module MinerV2 {
  import opened Wide
  import opened HashStep
  import opened Seed
  import opened Fold
  import opened Search
  import opened Trials
  import opened Batch

  /** unsigned int iterations = 16 */
  const Iterations: nat := 16

  /** main_loop(i, k, j, l, indices, proof, temp): temp.limbs[0] =
      indices[k*j+i]; point = temp; hashSteps steps; proof[k] ^= point. */
  method MainLoop(i: nat, k: nat, j: nat, l: nat, indices: array<Word>, proofs: array<Big>, temp: Big,
                  r: Round)
    requires ValidRound(r) && k * j + i < indices.Length && k < proofs.Length
    modifies proofs
    ensures proofs[k] == Xor(old(proofs[k]), Iterate(FromTemplate(temp, indices[k * j + i]), r.c, r.hashSteps))
    ensures forall q :: 0 <= q < proofs.Length && q != k ==> proofs[q] == old(proofs[q])
  {
    var seeded := temp[0 := indices[k * j + i]];
    var point := HashSteps(seeded, r.c, r.hashSteps);
    proofs[k] := Xor(proofs[k], point);
  }

  /** The calls main_loop(i, k, ...) for i < maxIndices leave in proof[k]
      the XOR of the hashed points of row k. */
  method FoldCandidate(k: nat, indices: array<Word>, proofs: array<Big>, temp: Big, iterations: nat, r: Round)
    requires ValidRound(r) && k < proofs.Length
    requires k * r.maxIndices + r.maxIndices <= indices.Length
    requires proofs[k] == Zero(WORDS)
    modifies proofs
    ensures proofs[k] == XorAll(TemplatePoints(indices[k * r.maxIndices..k * r.maxIndices + r.maxIndices],
                                               temp, r.c, r.hashSteps))
    ensures forall q :: 0 <= q < proofs.Length && q != k ==> proofs[q] == old(proofs[q])
  {
    var m := r.maxIndices;
    ghost var row := indices[k * m..k * m + m];
    assert TemplatePoints(row[..0], temp, r.c, r.hashSteps) == [];
    for i := 0 to m
      invariant proofs[k] == XorAll(TemplatePoints(row[..i], temp, r.c, r.hashSteps))
      invariant forall q :: 0 <= q < proofs.Length && q != k ==> proofs[q] == old(proofs[q])
    {
      MainLoop(i, k, m, iterations, indices, proofs, temp, r);
      assert row[i] == indices[k * m + i];
      TemplatePointsNext(row, temp, r.c, r.hashSteps, i);
    }
    assert row[..m] == row;
  }

  /** for k < iterations, for i < maxIndices: main_loop(i, k, ...), on rows
      drawn for candidates first .. first+iterations-1. */
  method FoldCandidates(indices: array<Word>, proofs: array<Big>, temp: Big, iterations: nat, r: Round,
                        rand: nat -> nat, first: nat)
    requires ValidRound(r) && temp == Template(r)
    requires indices.Length == iterations * r.maxIndices && proofs.Length == iterations
    requires indices[..] == TrialRows(rand, first, iterations, r.maxIndices)
    requires forall k :: 0 <= k < iterations ==> proofs[k] == Zero(WORDS)
    modifies proofs
    ensures BatchReady(indices[..], proofs[..], rand, first, iterations, r)
  {
    var m := r.maxIndices;
    ghost var want := TemplateProofs(rand, first, iterations, r);
    for k := 0 to iterations
      invariant forall q :: 0 <= q < k ==> proofs[q] == want[q]
      invariant forall q :: k <= q < iterations ==> proofs[q] == Zero(WORDS)
    {
      RowProof(indices[..], rand, first, iterations, k, r);
      FoldCandidate(k, indices, proofs, temp, iterations, r);
      assert proofs[k] == want[k];
    }
  }

  /** One pass of the trial loop: draw the rows, hash and fold them, then the
      reduction. */
  method RunBatch(bestSolution: array<Word>, bestProof: Big, indices: array<Word>, proofs: array<Big>,
                  temp: Big, iterations: nat, r: Round, rand: nat -> nat, first: nat)
    returns (newProof: Big)
    requires ValidRound(r) && r.maxIndices >= 1 && temp == Template(r)
    requires indices.Length == iterations * r.maxIndices && proofs.Length == iterations
    requires bestSolution.Length == r.maxIndices && bestSolution != indices
    requires Best(bestSolution[..], bestProof) == TemplateBid(rand, first, r)
    modifies bestSolution, indices, proofs
    ensures Best(bestSolution[..], newProof) == TemplateBid(rand, first + iterations, r)
  {
    FillRowsChained(indices, proofs, iterations, r.maxIndices, rand, first);
    FoldCandidates(indices, proofs, temp, iterations, r, rand, first);
    ReadyBid(indices[..], proofs[..], rand, first, iterations, r);
    newProof := ReduceBatch(bestSolution, bestProof, indices, proofs, iterations, r.maxIndices);
  }

  /** The trial loop for batches of `iterations` candidates (16 in MakeBid):
      it stops at the first deadline test after a batch that succeeds. */
  method BatchedBid(r: Round, iterations: nat, rand: nat -> nat, polls: seq<bool>)
    returns (solution: seq<Word>, proof: Big)
    requires ValidRound(r) && r.maxIndices >= 1 && true in polls
    ensures Best(solution, proof) == TemplateBid(rand, Batches(polls) * iterations, r)
  {
    var m := r.maxIndices;
    var bestSolution := new Word[m](_ => 0);
    var bestProof: Big := Ones(WORDS);
    var temp: Big := Template(r);
    var indices := new Word[iterations * m];
    var proofs := new Big[iterations];
    InitialBid(bestSolution[..], rand, r);
    var batch := 0;
    while true
      invariant batch < Batches(polls)
      invariant Best(bestSolution[..], bestProof) == TemplateBid(rand, batch * iterations, r)
      decreases Batches(polls) - batch
    {
      bestProof := RunBatch(bestSolution, bestProof, indices, proofs, temp, iterations, r, rand,
                            batch * iterations);
      NextRow(0, batch, iterations);
      NextPoll(polls, batch);
      if polls[batch] {
        break;
      }
      batch := batch + 1;
    }
    solution := bestSolution[..];
    proof := bestProof;
  }

  /** MakeBid: batches of 16 candidates until the deadline. */
  method MakeBid(r: Round, rand: nat -> nat, polls: seq<bool>) returns (solution: seq<Word>, proof: Big)
    requires ValidRound(r) && r.maxIndices >= 1 && true in polls
    ensures Best(solution, proof) == TemplateBid(rand, Batches(polls) * Iterations, r)
  {
    solution, proof := BatchedBid(r, Iterations, rand, polls);
  }
}
