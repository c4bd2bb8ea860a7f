// MakeBid of src/bitecoin_miner_array.cpp: batches of 16 candidates whose rows
// are separate vectors indices[k]; a tbb::parallel_for over k (modelled as a
// loop over k in order) draws row k with a cursor, seeds each point from the
// shared template, steps it in place in the point array and combines row k's
// points with wide_xor_array; the reduction copies the whole best row.
module MinerArray {
  import opened Wide
  import opened HashStep
  import opened Seed
  import opened Candidates
  import opened Fold
  import opened Search
  import opened Trials
  import opened Batch

  /** unsigned int iterations = 16 */
  const Iterations: nat := 16

  /** curr = 0; for j < indices[k].size(): curr += 1 + rand()%10;
      indices[k][j] = curr. Only row k changes and it keeps its length. */
  method DrawRow(indices: array<seq<Word>>, k: nat, rand: nat -> nat, call: nat) returns (next: nat)
    requires k < indices.Length
    modifies indices
    ensures next == call + |old(indices[k])|
    ensures indices[k] == Walk(rand, call, |old(indices[k])|)
    ensures forall q :: 0 <= q < indices.Length && q != k ==> indices[q] == old(indices[q])
  {
    var m := |indices[k]|;
    var curr: Word := 0;
    for j := 0 to m
      invariant |indices[k]| == m
      invariant indices[k][..j] == Walk(rand, call, j)
      invariant j > 0 ==> curr == Walk(rand, call, j)[j - 1]
      invariant j == 0 ==> curr == 0
      invariant forall q :: 0 <= q < indices.Length && q != k ==> indices[q] == old(indices[q])
    {
      curr := NextIndex(curr, rand(call + j));
      indices[k] := indices[k][j := curr];
      assert indices[k][..j + 1] == indices[k][..j] + [curr];
    }
    assert indices[k][..m] == indices[k];
    next := call + m;
  }

  /** for j < hashSteps: PoolHashStep(point[s]), in place. */
  method StepPoint(point: array<Big>, s: nat, c: seq<Word>, hashSteps: nat)
    requires |c| == 4 && s < point.Length
    modifies point
    ensures point[s] == Iterate(old(point[s]), c, hashSteps)
    ensures forall t :: 0 <= t < point.Length && t != s ==> point[t] == old(point[t])
  {
    for j := 0 to hashSteps
      invariant point[s] == Iterate(old(point[s]), c, j)
      invariant forall t :: 0 <= t < point.Length && t != s ==> point[t] == old(point[t])
    {
      point[s] := Step(point[s], c);
    }
  }

  /** Slots base .. base+n-1 of the point array hold the stepped points of
      row[..n]. */
  ghost predicate Stepped(pts: seq<Big>, base: nat, row: seq<Word>, n: nat, r: Round)
    requires |r.c| == 4
  {
    n <= |row| && base + n <= |pts| &&
    forall j :: 0 <= j < n ==> pts[base + j] == Iterate(FromTemplate(Template(r), row[j]), r.c, r.hashSteps)
  }

  /** Stepping slot base+i in place extends the stepped prefix by one. */
  lemma SteppedNext(before: seq<Big>, after: seq<Big>, base: nat, row: seq<Word>, i: nat, r: Round)
    requires |r.c| == 4 && i < |row| && base + i < |before|
    requires Stepped(before, base, row, i, r)
    requires after == before[base + i := Iterate(FromTemplate(Template(r), row[i]), r.c, r.hashSteps)]
    ensures Stepped(after, base, row, i + 1, r)
  {
    forall j | 0 <= j < i + 1
      ensures after[base + j] == Iterate(FromTemplate(Template(r), row[j]), r.c, r.hashSteps)
    {
      if j < i {
        assert after[base + j] == before[base + j];
      }
    }
  }

  /** A fully stepped row is the row's template points. */
  lemma SteppedRow(pts: seq<Big>, base: nat, row: seq<Word>, r: Round)
    requires |r.c| == 4 && Stepped(pts, base, row, |row|, r)
    ensures base + |row| <= |pts|
    ensures pts[base..base + |row|] == TemplatePoints(row, Template(r), r.c, r.hashSteps)
  {
  }

  /** wide_zero(2, temp); temp.limbs[0] = index; point[s] = temp. Limbs 0
      and 1 of the shared temp are written before they are read, so the
      point is the template's whatever those limbs held. */
  method SeedPoint(s: nat, index: Word, point: array<Big>, temp: array<Word>, r: Round)
    requires s < point.Length && temp.Length == WORDS && temp[2..] == Template(r)[2..]
    modifies point, temp
    ensures temp[2..] == Template(r)[2..]
    ensures point[..] == old(point[..])[s := FromTemplate(Template(r), index)]
  {
    temp[0] := 0;
    temp[1] := 0;
    temp[0] := index;
    assert temp[..] == FromTemplate(Template(r), index);
    point[s] := temp[..];
  }

  /** For each i of row k: seed point[k*m+i] from the template, then step it
      in place. */
  method HashPoints(k: nat, m: nat, row: seq<Word>, point: array<Big>, temp: array<Word>, r: Round)
    requires ValidRound(r) && |row| == m && k * m + m <= point.Length
    requires temp.Length == WORDS && temp[2..] == Template(r)[2..]
    modifies point, temp
    ensures temp[2..] == Template(r)[2..]
    ensures Stepped(point[..], k * m, row, m, r)
  {
    for i := 0 to m
      invariant temp[2..] == Template(r)[2..]
      invariant Stepped(point[..], k * m, row, i, r)
    {
      ghost var before := point[..];
      SeedPoint(k * m + i, row[i], point, temp, r);
      StepPoint(point, k * m + i, r.c, r.hashSteps);
      SteppedNext(before, point[..], k * m, row, i, r);
    }
  }

  /** Hash the points of row k, then proof[k] = wide_xor_array(m, &point[k*m]),
      with the corrected wide_xor_array. */
  method HashAndCombine(k: nat, m: nat, row: seq<Word>, point: array<Big>, temp: array<Word>, r: Round)
    returns (proof: Big)
    requires ValidRound(r) && |row| == m && k * m + m <= point.Length
    requires temp.Length == WORDS && temp[2..] == Template(r)[2..]
    modifies point, temp
    ensures temp[2..] == Template(r)[2..]
    ensures proof == XorAll(TemplatePoints(row, Template(r), r.c, r.hashSteps))
  {
    HashPoints(k, m, row, point, temp, r);
    SteppedRow(point[..], k * m, row, r);
    ghost var pts := TemplatePoints(row, Template(r), r.c, r.hashSteps);
    assert point[k * m..k * m + m] == pts;
    assert pts[..m] == pts;
    proof := WideXorTree(m, point[k * m..k * m + m]);
  }

  /** Where the source's wide_xor_array returns the XOR of the whole row,
      maxIndices = 2^t with t >= 1, its proof for candidate q is the proof
      this model bids with. */
  lemma AsWrittenCandidate(rand: nat -> nat, q: nat, r: Round, t: nat)
    requires |r.c| == 4 && t >= 1 && r.maxIndices == Pow2(t)
    ensures HalvesToTwo(r.maxIndices)
    ensures WideXorArrayAsWritten(r.maxIndices, TemplatePoints(TrialRow(rand, q, r.maxIndices), Template(r), r.c, r.hashSteps))
         == TemplateCandidate(rand, q, r).proof
  {
    var pts := TemplatePoints(TrialRow(rand, q, r.maxIndices), Template(r), r.c, r.hashSteps);
    AsWrittenPowerOfTwo(t, pts);
    assert pts[..Pow2(t)] == pts;
  }

  /** The body of the parallel_for for candidate k. */
  method Trial(k: nat, indices: array<seq<Word>>, proofs: array<Big>, point: array<Big>, temp: array<Word>,
               iterations: nat, r: Round, rand: nat -> nat, first: nat)
    requires ValidRound(r) && k < iterations
    requires indices.Length == iterations && proofs.Length == iterations
    requires point.Length == iterations * r.maxIndices && point != proofs
    requires temp.Length == WORDS && temp[2..] == Template(r)[2..]
    requires |indices[k]| == r.maxIndices
    modifies indices, proofs, point, temp
    ensures temp[2..] == Template(r)[2..]
    ensures Candidate(indices[k], proofs[k]) == TemplateCandidate(rand, first + k, r)
    ensures forall q :: 0 <= q < iterations && q != k ==> indices[q] == old(indices[q]) && proofs[q] == old(proofs[q])
  {
    var m := r.maxIndices;
    var _ := DrawRow(indices, k, rand, (first + k) * m);
    assert indices[k] == TrialRow(rand, first + k, m);
    proofs[k] := Zero(WORDS);
    RowInBatch(k, iterations, m, point.Length);
    var p := HashAndCombine(k, m, indices[k], point, temp, r);
    proofs[k] := p;
  }

  /** The candidates of a batch held as separate rows. */
  function RowCandidates(indices: seq<seq<Word>>, proofs: seq<Big>, n: nat): (cs: seq<Candidate>)
    requires n <= |indices| && n <= |proofs|
    ensures |cs| == n && forall q :: 0 <= q < n ==> cs[q] == Candidate(indices[q], proofs[q])
  {
    seq(n, (q: nat) requires q < n => Candidate(indices[q], proofs[q]))
  }

  /** Offering row k after rows 0..k-1 reduces rows 0..k. */
  lemma RowCandidatesNext(indices: seq<seq<Word>>, proofs: seq<Big>, k: nat, b: Best)
    requires k < |indices| && k < |proofs|
    ensures Reduce(b, RowCandidates(indices, proofs, k + 1))
         == Improve(Reduce(b, RowCandidates(indices, proofs, k)), Candidate(indices[k], proofs[k]))
  {
    assert RowCandidates(indices, proofs, k + 1)
        == RowCandidates(indices, proofs, k) + [Candidate(indices[k], proofs[k])];
    ReduceSnoc(b, RowCandidates(indices, proofs, k), Candidate(indices[k], proofs[k]));
  }

  /** tbb::parallel_for(0u, iterations, main_loop), with k in order. */
  method ParallelTrials(indices: array<seq<Word>>, proofs: array<Big>, point: array<Big>, temp: array<Word>,
                        iterations: nat, r: Round, rand: nat -> nat, first: nat)
    requires ValidRound(r)
    requires indices.Length == iterations && proofs.Length == iterations
    requires point.Length == iterations * r.maxIndices && point != proofs
    requires temp.Length == WORDS && temp[2..] == Template(r)[2..]
    requires forall q :: 0 <= q < iterations ==> |indices[q]| == r.maxIndices
    modifies indices, proofs, point, temp
    ensures temp[2..] == Template(r)[2..]
    ensures forall q :: 0 <= q < iterations ==> |indices[q]| == r.maxIndices
    ensures RowCandidates(indices[..], proofs[..], iterations) == TemplateTrials(rand, first, iterations, r)
  {
    ghost var want := TemplateTrials(rand, first, iterations, r);
    for k := 0 to iterations
      invariant temp[2..] == Template(r)[2..]
      invariant forall q :: 0 <= q < iterations ==> |indices[q]| == r.maxIndices
      invariant forall q :: 0 <= q < k ==> Candidate(indices[q], proofs[q]) == want[q]
    {
      Trial(k, indices, proofs, point, temp, iterations, r, rand, first);
    }
    assert RowCandidates(indices[..], proofs[..], iterations) == want;
  }

  /** for k < iterations: if proof[k] < bestProof, bestSolution = indices[k]
      (the whole vector) and bestProof = proof[k]. */
  method ReduceRows(bestSolution: seq<Word>, bestProof: Big, indices: array<seq<Word>>, proofs: array<Big>,
                    iterations: nat)
    returns (solution: seq<Word>, proof: Big)
    requires iterations <= indices.Length && iterations <= proofs.Length
    ensures Best(solution, proof)
         == Reduce(Best(bestSolution, bestProof), RowCandidates(indices[..], proofs[..], iterations))
  {
    solution, proof := bestSolution, bestProof;
    for k := 0 to iterations
      invariant Best(solution, proof)
             == Reduce(Best(bestSolution, bestProof), RowCandidates(indices[..], proofs[..], k))
    {
      RowCandidatesNext(indices[..], proofs[..], k, Best(bestSolution, bestProof));
      if Compare(proofs[k], proof) < 0 {
        solution := indices[k];
        proof := proofs[k];
      }
    }
  }

  /** One pass of the trial loop: the batch, then the reduction. */
  method RunBatch(bestSolution: seq<Word>, bestProof: Big, indices: array<seq<Word>>, proofs: array<Big>,
                  point: array<Big>, temp: array<Word>, iterations: nat, r: Round, rand: nat -> nat, first: nat)
    returns (solution: seq<Word>, proof: Big)
    requires ValidRound(r)
    requires indices.Length == iterations && proofs.Length == iterations
    requires point.Length == iterations * r.maxIndices && point != proofs
    requires temp.Length == WORDS && temp[2..] == Template(r)[2..]
    requires forall q :: 0 <= q < iterations ==> |indices[q]| == r.maxIndices
    requires Best(bestSolution, bestProof) == TemplateBid(rand, first, r)
    modifies indices, proofs, point, temp
    ensures temp[2..] == Template(r)[2..]
    ensures forall q :: 0 <= q < iterations ==> |indices[q]| == r.maxIndices
    ensures Best(solution, proof) == TemplateBid(rand, first + iterations, r)
  {
    ParallelTrials(indices, proofs, point, temp, iterations, r, rand, first);
    solution, proof := ReduceRows(bestSolution, bestProof, indices, proofs, iterations);
    TemplateBidNext(rand, first, iterations, r);
  }

  /** temp.limbs[2..7] from the round; limbs 0 and 1 are left as they are. */
  method SharedTemplate(r: Round) returns (temp: array<Word>)
    ensures fresh(temp) && temp.Length == WORDS && temp[2..] == Template(r)[2..]
  {
    temp := new Word[WORDS];
    temp[2] := Low32(r.roundId);
    temp[3] := temp[2];
    temp[4] := Low32(r.roundSalt);
    temp[5] := temp[4];
    temp[6] := Low32(r.chainHash);
    temp[7] := temp[6];
  }

  /** The trial loop for batches of `iterations` candidates (16 in MakeBid).
      temp limbs 2-7 are set once; limbs 0 and 1 start undefined. */
  method BatchedBid(r: Round, iterations: nat, rand: nat -> nat, polls: seq<bool>)
    returns (solution: seq<Word>, proof: Big)
    requires ValidRound(r) && true in polls
    ensures Best(solution, proof) == TemplateBid(rand, Batches(polls) * iterations, r)
  {
    var m := r.maxIndices;
    solution := Zero(m);
    proof := Ones(WORDS);
    var temp := SharedTemplate(r);
    var indices := new seq<Word>[iterations](_ => Zero(m));
    var proofs := new Big[iterations];
    var point := new Big[iterations * m];
    InitialBid(solution, rand, r);
    var batch := 0;
    while true
      invariant batch < Batches(polls)
      invariant temp.Length == WORDS && temp[2..] == Template(r)[2..]
      invariant forall q :: 0 <= q < iterations ==> |indices[q]| == m
      invariant Best(solution, proof) == TemplateBid(rand, batch * iterations, r)
      decreases Batches(polls) - batch
    {
      solution, proof := RunBatch(solution, proof, indices, proofs, point, temp, iterations, r, rand,
                                  batch * iterations);
      MulSucc(batch, iterations);
      NextPoll(polls, batch);
      if polls[batch] {
        break;
      }
      batch := batch + 1;
    }
  }

  /** MakeBid: batches of 16 candidates until the deadline. */
  method MakeBid(r: Round, rand: nat -> nat, polls: seq<bool>) returns (solution: seq<Word>, proof: Big)
    requires ValidRound(r) && true in polls
    ensures Best(solution, proof) == TemplateBid(rand, Batches(polls) * Iterations, r)
  {
    solution, proof := BatchedBid(r, Iterations, rand, polls);
  }
}
