// MakeBid of src/bitecoin_miner_unwrap.cpp: one candidate per pass. The row
// is drawn with a cursor; before each point is hashed the row is checked to be
// strictly increasing up to that point, and std::invalid_argument escapes from
// MakeBid if it is not. Each point is built with wide_add, stepped, and XOR-ed
// into the proof; bestSolution takes the whole row on a strictly smaller proof.
module MinerUnwrap {
  import opened Wide
  import opened HashStep
  import opened Seed
  import opened Candidates
  import opened Fold
  import opened Search
  import opened Trials
  import opened Batch

  /** Point i of the pass: the wide_add seed, hashSteps steps, proof ^= point. */
  method HashPoint(i: nat, proof: Big, indices: array<Word>, r: Round) returns (next: Big)
    requires ValidRound(r) && i < indices.Length
    requires proof == XorAll(UnwrapPoints(indices[..i], r))
    ensures next == XorAll(UnwrapPoints(indices[..i + 1], r))
  {
    var point := HashSteps(WideAddSeed(indices[i], r), r.c, r.hashSteps);
    next := Xor(proof, point);
    UnwrapPointsNext(indices[..], r, i);
    assert indices[..i + 1][..i] == indices[..i];
  }

  /** The loop over the row: for each i check indices[i-1] < indices[i] (for
      i > 0) and fold point i. `ok` is false exactly when the check throws. */
  method CheckAndFold(indices: array<Word>, r: Round) returns (ok: bool, proof: Big)
    requires ValidRound(r) && indices.Length == r.maxIndices
    ensures ok <==> !OutOfOrder(indices[..])
    ensures ok ==> proof == XorAll(UnwrapPoints(indices[..], r))
  {
    var m := r.maxIndices;
    ghost var row := indices[..];
    proof := Zero(WORDS);
    assert UnwrapPoints(row[..0], r) == [];
    for i := 0 to m
      invariant !OutOfOrder(row[..i])
      invariant proof == XorAll(UnwrapPoints(row[..i], r))
    {
      if i > 0 && indices[i - 1] >= indices[i] {
        NeighboursOutOfOrder(row, i);
        return false, proof;
      }
      InOrderPrefixNext(row, i);
      proof := HashPoint(i, proof, indices, r);
    }
    assert row[..m] == row;
    ok := true;
  }

  /** One pass: draw the row of trial t, then check and fold it. */
  method Trial(indices: array<Word>, r: Round, rand: nat -> nat, t: nat) returns (ok: bool, proof: Big)
    requires ValidRound(r) && indices.Length == r.maxIndices
    modifies indices
    ensures indices[..] == TrialRow(rand, t, r.maxIndices)
    ensures ok <==> !OutOfOrder(TrialRow(rand, t, r.maxIndices))
    ensures ok ==> Candidate(indices[..], proof) == UnwrapCandidate(rand, t, r)
  {
    var m := r.maxIndices;
    var _ := FillRowCursor(indices, 0, m, rand, t * m);
    assert indices[..] == TrialRow(rand, t, m);
    ok, proof := CheckAndFold(indices, r);
  }

  /** MakeBid: trials until the deadline test after one succeeds, unless a
      row fails the order check first. */
  method MakeBid(r: Round, rand: nat -> nat, polls: seq<bool>) returns (outcome: Outcome)
    requires ValidRound(r) && true in polls
    ensures outcome == UnwrapOutcome(rand, polls, r)
  {
    var m := r.maxIndices;
    var bestSolution: seq<Word> := Zero(m);
    var bestProof: Big := Ones(WORDS);
    var t := 0;
    while true
      invariant t < Batches(polls)
      invariant InOrder(rand, t, m)
      invariant Best(bestSolution, bestProof) == Reduce(Initial(m), UnwrapTrials(rand, t, r))
      decreases Batches(polls) - t
    {
      var indices := new Word[m];
      var ok, proof := Trial(indices, r, rand, t);
      if !ok {
        UnwrapThrows(rand, polls, r, t);
        return InvalidArgument;
      }
      InOrderNext(rand, t, m);
      UnwrapTrialsSnoc(rand, t, r);
      ReduceSnoc(Initial(m), UnwrapTrials(rand, t, r), UnwrapCandidate(rand, t, r));
      if Compare(proof, bestProof) < 0 {
        bestSolution := indices[..];
        bestProof := proof;
      }
      NextPoll(polls, t);
      if polls[t] {
        break;
      }
      t := t + 1;
    }
    UnwrapBids(rand, polls, r);
    outcome := Bid(Best(bestSolution, bestProof));
  }
}
