// The best-so-far reduction shared by every MakeBid: start from an all-zero
// solution and the all-ones proof (e.g. src/bitecoin_miner_unwrap.cpp:41-43),
// and replace the best whenever a candidate's proof compares strictly less
// (src/bitecoin_miner_unwrap.cpp:95-100, src/bitecoin_miner_v2.cpp:117-127).
module Search {
  import opened Wide

  /** A trial's outcome: its index row and the proof computed from it. */
  datatype Candidate = Candidate(indices: seq<Word>, proof: Big)

  /** The best solution and proof found so far. */
  datatype Best = Best(solution: seq<Word>, proof: Big)

  /** bestSolution(maxIndices) zero-filled, bestProof = wide_ones. */
  function Initial(m: nat): (r: Best)
    ensures |r.solution| == m
  {
    Best(Zero(m), Ones(WORDS))
  }

  /** if (wide_compare(proof, bestProof) < 0) { bestSolution = indices; bestProof = proof; } */
  function Improve(b: Best, c: Candidate): Best
  {
    if Less(c.proof, b.proof) then Best(c.indices, c.proof) else b
  }

  /** The candidates offered in order, each compared against the best so far. */
  function Reduce(b: Best, cs: seq<Candidate>): Best
  {
    if |cs| == 0 then b else Improve(Reduce(b, cs[..|cs| - 1]), cs[|cs| - 1])
  }

  /** Trials are reduced batch by batch: reducing a concatenation is reducing
      the second part from the result of the first. */
  lemma {:induction false} ReduceAppend(b: Best, xs: seq<Candidate>, ys: seq<Candidate>)
    ensures Reduce(b, xs + ys) == Reduce(Reduce(b, xs), ys)
    decreases |ys|
  {
    if |ys| == 0 {
      assert xs + ys == xs;
    } else {
      assert (xs + ys)[..|xs + ys| - 1] == xs + ys[..|ys| - 1];
      ReduceAppend(b, xs, ys[..|ys| - 1]);
    }
  }

  lemma ReduceSnoc(b: Best, cs: seq<Candidate>, c: Candidate)
    ensures Reduce(b, cs + [c]) == Improve(Reduce(b, cs), c)
  {
    assert (cs + [c])[..|cs|] == cs;
  }

  /** The reported proof is no larger than the initial best and than every
      candidate's proof. */
  lemma {:induction false} ReduceIsLowest(b: Best, cs: seq<Candidate>)
    ensures Value(Reduce(b, cs).proof) <= Value(b.proof)
    ensures forall i :: 0 <= i < |cs| ==> Value(Reduce(b, cs).proof) <= Value(cs[i].proof)
  {
    if |cs| > 0 {
      var front := cs[..|cs| - 1];
      ReduceIsLowest(b, front);
      forall i | 0 <= i < |cs| - 1
        ensures Value(Reduce(b, cs).proof) <= Value(cs[i].proof)
      {
        assert cs[i] == front[i];
      }
    }
  }

  /** ...and it is one of them: either the initial best is kept whole, or the
      best is exactly some candidate's row and proof. */
  lemma {:induction false} ReduceIsOffered(b: Best, cs: seq<Candidate>)
    ensures Reduce(b, cs) == b
         || exists i :: 0 <= i < |cs| && Reduce(b, cs) == Best(cs[i].indices, cs[i].proof)
  {
    if |cs| > 0 {
      var front := cs[..|cs| - 1];
      ReduceIsOffered(b, front);
      if Reduce(b, cs) != Reduce(b, front) {
        assert Reduce(b, cs) == Best(cs[|cs| - 1].indices, cs[|cs| - 1].proof);
      } else if Reduce(b, front) != b {
        var i :| 0 <= i < |front| && Reduce(b, front) == Best(front[i].indices, front[i].proof);
        assert cs[i] == front[i];
      }
    }
  }

  /** When no candidate beats the initial best, nothing changes. */
  lemma {:induction false} ReduceKeeps(b: Best, cs: seq<Candidate>)
    requires forall i :: 0 <= i < |cs| ==> Value(b.proof) <= Value(cs[i].proof)
    ensures Reduce(b, cs) == b
  {
    if |cs| > 0 {
      ReduceKeeps(b, cs[..|cs| - 1]);
    }
  }

  /** Ties keep the earlier candidate: if candidate j beats the initial best,
      every earlier candidate is strictly worse and no later one is strictly
      better, the result is candidate j. */
  lemma {:induction false} ReduceFirstMinimum(b: Best, cs: seq<Candidate>, j: nat)
    requires j < |cs| && Value(cs[j].proof) < Value(b.proof)
    requires forall i :: 0 <= i < j ==> Value(cs[j].proof) < Value(cs[i].proof)
    requires forall i :: j < i < |cs| ==> Value(cs[j].proof) <= Value(cs[i].proof)
    ensures Reduce(b, cs) == Best(cs[j].indices, cs[j].proof)
  {
    if |cs| - 1 == j {
      var front := cs[..j];
      ReduceIsLowest(b, front);
      ReduceIsOffered(b, front);
      if Reduce(b, front) != b {
        var i :| 0 <= i < |front| && Reduce(b, front) == Best(front[i].indices, front[i].proof);
        assert cs[i] == front[i];
      }
    } else {
      var front := cs[..|cs| - 1];
      ReduceFirstMinimum(b, front, j);
      assert front[j] == cs[j];
    }
  }

  /** A zero proof (the proof of an empty row) beats the all-ones start. */
  lemma ZeroBeatsInitial(m: nat)
    ensures Less(Zero(WORDS), Initial(m).proof)
  {
    ZeroValue(WORDS);
    OnesValue(WORDS);
    assert Pow(WORDS) > 1 by {
      assert Pow(1) == BASE;
      PowAdd(1, WORDS - 1);
    }
  }

  /** The rows of a batch laid out in a flat index buffer, row k at
      k*maxIndices, paired with proofs[k]. */
  function BatchCandidates(indices: seq<Word>, proofs: seq<Big>, iterations: nat, m: nat)
    : (r: seq<Candidate>)
    requires iterations <= |proofs| && iterations * m <= |indices|
    ensures |r| == iterations
  {
    if iterations == 0 then []
    else
      assert (iterations - 1) * m + m == iterations * m;
      BatchCandidates(indices, proofs, iterations - 1, m)
      + [Candidate(indices[(iterations - 1) * m..(iterations - 1) * m + m], proofs[iterations - 1])]
  }

  /** Every row of a batch of `iterations` rows lies inside the index buffer. */
  lemma RowsFit(iterations: nat, m: nat, len: nat)
    requires iterations * m <= len
    ensures forall k :: 0 <= k < iterations ==> 0 <= k * m && k * m + m <= len
  {
    forall k | 0 <= k < iterations
      ensures 0 <= k * m && k * m + m <= len
    {
      RowInBatch(k, iterations, m, len);
    }
  }

  /** A batch whose row k and proof k are those of cs[k], for every k, offers
      exactly cs. */
  lemma {:induction false} BatchFromRows(indices: seq<Word>, proofs: seq<Big>, m: nat, cs: seq<Candidate>)
    requires |cs| <= |proofs| && |cs| * m <= |indices|
    requires forall k :: 0 <= k < |cs| ==>
               0 <= k * m && k * m + m <= |indices| &&
               indices[k * m..k * m + m] == cs[k].indices && proofs[k] == cs[k].proof
    ensures BatchCandidates(indices, proofs, |cs|, m) == cs
  {
    if |cs| > 0 {
      var n := |cs| - 1;
      assert n * m + m == |cs| * m;
      BatchFromRows(indices, proofs, m, cs[..n]);
    }
  }

  /** Row k of a batch of `iterations` rows lies inside the index buffer. */
  lemma RowInBatch(k: nat, iterations: nat, m: nat, len: nat)
    requires k < iterations && iterations * m <= len
    ensures 0 <= k * m && k * m + m <= len
  {
    MulLe(k, 0, m);
    MulLe(m, k + 1, iterations);
  }

  /** One more row extends the batch's candidates by that row. */
  lemma BatchCandidatesNext(indices: seq<Word>, proofs: seq<Big>, k: nat, m: nat)
    requires k < |proofs| && k * m + m <= |indices|
    ensures (k + 1) * m <= |indices|
    ensures BatchCandidates(indices, proofs, k + 1, m)
         == BatchCandidates(indices, proofs, k, m) + [Candidate(indices[k * m..k * m + m], proofs[k])]
  {
    MulSucc(k, m);
  }

  /** Offering row k to the reduction of rows 0..k-1 reduces rows 0..k. */
  lemma ReduceBatchStep(b0: Best, indices: seq<Word>, proofs: seq<Big>, k: nat, m: nat)
    requires k < |proofs| && 0 <= k * m && k * m + m <= |indices|
    ensures (k + 1) * m <= |indices|
    ensures Improve(Reduce(b0, BatchCandidates(indices, proofs, k, m)), Candidate(indices[k * m..k * m + m], proofs[k]))
         == Reduce(b0, BatchCandidates(indices, proofs, k + 1, m))
  {
    BatchCandidatesNext(indices, proofs, k, m);
    ReduceSnoc(b0, BatchCandidates(indices, proofs, k, m), Candidate(indices[k * m..k * m + m], proofs[k]));
  }

  /** bestSolution[i] = indices[from + i] for i < m. */
  method CopyRow(dst: array<Word>, src: array<Word>, from: nat, m: nat)
    requires dst.Length == m && from + m <= src.Length && dst != src
    modifies dst
    ensures dst[..] == src[from..from + m]
  {
    for i := 0 to m
      invariant dst[..i] == src[from..from + i]
    {
      dst[i] := src[from + i];
    }
  }

  /** One comparison of the reduction: if proof < bestProof, copy the row
      element-wise into bestSolution and take the proof. */
  method Offer(bestSolution: array<Word>, bestProof: Big, indices: array<Word>, from: nat, proof: Big)
    returns (newProof: Big)
    requires from + bestSolution.Length <= indices.Length && bestSolution != indices
    modifies bestSolution
    ensures Best(bestSolution[..], newProof)
         == Improve(Best(old(bestSolution[..]), bestProof),
                    Candidate(indices[from..from + bestSolution.Length], proof))
  {
    newProof := bestProof;
    if Compare(proof, bestProof) < 0 {
      CopyRow(bestSolution, indices, from, bestSolution.Length);
      newProof := proof;
    }
  }

  /** The reduction over one batch (e.g. src/bitecoin_miner_v2.cpp:117-127):
      for each k, if proof[k] < bestProof, copy row k element-wise into
      bestSolution and take proof[k]. */
  method ReduceBatch(bestSolution: array<Word>, bestProof: Big, indices: array<Word>,
                     proofs: array<Big>, iterations: nat, m: nat)
    returns (newProof: Big)
    requires bestSolution.Length == m && iterations <= proofs.Length && iterations * m <= indices.Length
    requires bestSolution != indices
    modifies bestSolution
    ensures Best(bestSolution[..], newProof)
         == Reduce(Best(old(bestSolution[..]), bestProof), BatchCandidates(indices[..], proofs[..], iterations, m))
  {
    newProof := bestProof;
    ghost var b0 := Best(bestSolution[..], bestProof);
    ghost var ind, prs := indices[..], proofs[..];
    for k := 0 to iterations
      invariant k * m <= indices.Length
      invariant Best(bestSolution[..], newProof) == Reduce(b0, BatchCandidates(ind, prs, k, m))
    {
      RowInBatch(k, iterations, m, indices.Length);
      ghost var before := Reduce(b0, BatchCandidates(ind, prs, k, m));
      ghost var c := Candidate(ind[k * m..k * m + m], prs[k]);
      assert Candidate(indices[k * m..k * m + m], proofs[k]) == c;
      newProof := Offer(bestSolution, newProof, indices, k * m, proofs[k]);
      assert Best(bestSolution[..], newProof) == Improve(before, c);
      ReduceBatchStep(b0, ind, prs, k, m);
    }
  }
}
