// The pieces of one batch that the MakeBid variants share: drawing the rows
// of a flat index buffer and zeroing the proofs, hashing rows into a flat
// point buffer with main_loop, reading the buffer back from the device, and
// the facts that turn the resulting buffers into the candidates of Trials.
module Batch {
  import opened Wide
  import opened HashStep
  import opened Seed
  import opened Candidates
  import opened Slots
  import opened Fold
  import opened Search
  import opened Trials

  // ---------------------------------------------------------------------
  // The template and the point of one index

  /** temp[0] = temp[1] = 0; temp[2] = temp[3] = roundId & 0xFFFFFFFF;
      likewise roundSalt in limbs 4-5 and chainHash in limbs 6-7. */
  method MakeTemplate(r: Round) returns (temp: array<Word>)
    ensures fresh(temp) && temp[..] == Template(r)
  {
    temp := new Word[WORDS];
    temp[0] := 0;
    temp[1] := 0;
    temp[2] := Low32(r.roundId);
    temp[3] := temp[2];
    temp[4] := Low32(r.roundSalt);
    temp[5] := temp[4];
    temp[6] := Low32(r.chainHash);
    temp[7] := temp[6];
  }

  /** for (j = 0; j < hashSteps; j++) PoolHashStep(point, roundInfo) on a
      local bigint_t. */
  method HashSteps(seed: Big, c: seq<Word>, hashSteps: nat) returns (point: Big)
    requires |c| == 4
    ensures point == Iterate(seed, c, hashSteps)
  {
    point := seed;
    for j := 0 to hashSteps
      invariant point == Iterate(seed, c, j)
    {
      point := Step(point, c);
    }
  }

  // ---------------------------------------------------------------------
  // Drawing rows

  /** for k < iterations: draw row k with a running cursor
      (curr = curr + 1 + rand()%10), then wide_zero(8, proof[k]). The rows
      are those of candidates first .. first+iterations-1. */
  method FillRowsCursor(indices: array<Word>, proofs: array<Big>, iterations: nat, m: nat,
                        rand: nat -> nat, first: nat)
    requires indices.Length == iterations * m && proofs.Length == iterations
    modifies indices, proofs
    ensures indices[..] == TrialRows(rand, first, iterations, m)
    ensures forall k :: 0 <= k < iterations ==> proofs[k] == Zero(WORDS)
  {
    var base := 0;
    var call := first * m;
    for k := 0 to iterations
      invariant base == k * m && call == (first + k) * m
      invariant indices[..base] == TrialRows(rand, first, k, m)
      invariant forall q :: 0 <= q < k ==> proofs[q] == Zero(WORDS)
    {
      RowInBatch(k, iterations, m, indices.Length);
      ghost var before := indices[..];
      call := FillRowCursor(indices, base, m, rand, call);
      RowAppended(before, indices[..], base, m, TrialRow(rand, first + k, m));
      proofs[k] := Zero(WORDS);
      NextRow(first, k, m);
      base := base + m;
    }
    assert indices[..iterations * m] == indices[..];
  }

  /** for k < iterations: indices[k*m] = 1 + rand()%10, then each entry the
      previous one plus 1 + rand()%10; wide_zero(8, proof[k]). It writes
      indices[k*m] whatever m is, so rows must be non-empty. */
  method FillRowsChained(indices: array<Word>, proofs: array<Big>, iterations: nat, m: nat,
                         rand: nat -> nat, first: nat)
    requires m >= 1 && indices.Length == iterations * m && proofs.Length == iterations
    modifies indices, proofs
    ensures indices[..] == TrialRows(rand, first, iterations, m)
    ensures forall k :: 0 <= k < iterations ==> proofs[k] == Zero(WORDS)
  {
    var base := 0;
    var call := first * m;
    for k := 0 to iterations
      invariant base == k * m && call == (first + k) * m
      invariant indices[..base] == TrialRows(rand, first, k, m)
      invariant forall q :: 0 <= q < k ==> proofs[q] == Zero(WORDS)
    {
      RowInBatch(k, iterations, m, indices.Length);
      ghost var before := indices[..];
      call := FillRowChained(indices, base, m, rand, call);
      RowAppended(before, indices[..], base, m, TrialRow(rand, first + k, m));
      proofs[k] := Zero(WORDS);
      NextRow(first, k, m);
      base := base + m;
    }
    assert indices[..iterations * m] == indices[..];
  }

  /** The base and the draw counter of row k+1 follow those of row k. */
  lemma NextRow(first: nat, k: nat, m: nat)
    ensures (k + 1) * m == k * m + m && (first + k + 1) * m == (first + k) * m + m
  {
  }

  /** Writing a row after a prefix extends the prefix by that row. */
  lemma RowAppended(before: seq<Word>, after: seq<Word>, base: nat, m: nat, row: seq<Word>)
    requires base + m <= |before| && |row| == m
    requires after == before[..base] + row + before[base + m..]
    ensures after[..base] == before[..base]
    ensures after[..base + m] == before[..base] + row
  {
  }

  // ---------------------------------------------------------------------
  // Hashing into a flat point buffer

  /** Seeding and stepping slot s keeps the earlier slots and hashes slot s. */
  lemma HashedNext(pts: seq<Word>, ind: seq<Word>, temp: Big, c: seq<Word>, steps: nat, s: nat)
    requires |c| == 4 && Hashed(pts, ind, temp, c, steps, s) && s < |ind| && (s + 1) * WORDS <= |pts|
    ensures Hashed(WithSlot(pts, s, Iterate(FromTemplate(temp, ind[s]), c, steps)), ind, temp, c, steps, s + 1)
  {
    var v := Iterate(FromTemplate(temp, ind[s]), c, steps);
    var pts2 := WithSlot(pts, s, v);
    forall s2 | 0 <= s2 < s + 1
      ensures Slot(pts2, s2) == Iterate(FromTemplate(temp, ind[s2]), c, steps)
    {
      if s2 < s {
        WithSlotOther(pts, s, v, s2);
      } else {
        WithSlotSlot(pts, s, v);
      }
    }
  }

  /** Hashed only looks at the indices of the slots it covers. */
  lemma HashedSameIndices(pts: seq<Word>, ind: seq<Word>, ind2: seq<Word>, temp: Big, c: seq<Word>,
                          steps: nat, n: nat)
    requires |c| == 4 && Hashed(pts, ind, temp, c, steps, n)
    requires n <= |ind2| && ind2[..n] == ind[..n]
    ensures Hashed(pts, ind2, temp, c, steps, n)
  {
    forall s | 0 <= s < n
      ensures ind2[s] == ind[s]
    {
      assert ind2[..n][s] == ind[..n][s];
    }
  }

  /** wide_zero(8, proof[k].limbs) */
  method ZeroProof(proofs: array<Big>, k: nat)
    requires k < proofs.Length
    modifies proofs
    ensures proofs[k] == Zero(WORDS)
    ensures forall q :: 0 <= q < proofs.Length && q != k ==> proofs[q] == old(proofs[q])
  {
    proofs[k] := Zero(WORDS);
  }

  /** for i < m: main_loop(i, k, m, iterations, ...), hashing row k. */
  method HashRow(indices: array<Word>, point: array<Word>, temp: array<Word>, k: nat, m: nat,
                 iterations: nat, c: seq<Word>, steps: nat)
    requires |c| == 4 && temp.Length == WORDS && k < iterations
    requires indices.Length == iterations * m && point.Length == indices.Length * WORDS
    requires point != indices && point != temp
    requires Hashed(point[..], indices[..], temp[..], c, steps, k * m)
    modifies point
    ensures Hashed(point[..], indices[..], temp[..], c, steps, k * m + m)
  {
    RowInBatch(k, iterations, m, indices.Length);
    for i := 0 to m
      invariant Hashed(point[..], indices[..], temp[..], c, steps, k * m + i)
    {
      ghost var before := point[..];
      MainLoop(i, k, m, iterations, steps, c, indices, point, temp);
      HashedNext(before, indices[..], temp[..], c, steps, k * m + i);
    }
  }

  /** The body shared by the TBB lambdas once row k is drawn:
      wide_zero(8, proof[k]), main_loop for every point of row k, then the
      fold of row k into proof[k]. */
  method HashAndFold(k: nat, indices: array<Word>, proofs: array<Big>, point: array<Word>, temp: array<Word>,
                     iterations: nat, r: Round)
    requires ValidRound(r) && k < iterations
    requires temp.Length == WORDS
    requires indices.Length == iterations * r.maxIndices && proofs.Length == iterations
    requires point.Length == indices.Length * WORDS
    requires point != indices && point != temp
    requires Hashed(point[..], indices[..], temp[..], r.c, r.hashSteps, k * r.maxIndices)
    modifies proofs, point
    ensures k * r.maxIndices + r.maxIndices <= indices.Length
    ensures Hashed(point[..], indices[..], temp[..], r.c, r.hashSteps, k * r.maxIndices + r.maxIndices)
    ensures (k * r.maxIndices + r.maxIndices) * WORDS <= point.Length
    ensures proofs[k] == Xor(Zero(WORDS), XorAll(RowSlots(point[..], k, r.maxIndices)))
    ensures forall q :: 0 <= q < proofs.Length && q != k ==> proofs[q] == old(proofs[q])
  {
    var m := r.maxIndices;
    RowInBatch(k, iterations, m, indices.Length);
    ZeroProof(proofs, k);
    HashRow(indices, point, temp, k, m, iterations, r.c, r.hashSteps);
    FoldRow(proofs, k, point, m);
  }

  /** for k < iterations, i < m: main_loop(i, k, m, iterations, ...). */
  method HashRows(indices: array<Word>, point: array<Word>, temp: array<Word>, iterations: nat, m: nat,
                  c: seq<Word>, steps: nat)
    requires |c| == 4 && temp.Length == WORDS
    requires indices.Length == iterations * m && point.Length == indices.Length * WORDS
    requires point != indices && point != temp
    modifies point
    ensures Hashed(point[..], indices[..], temp[..], c, steps, iterations * m)
  {
    for k := 0 to iterations
      invariant Hashed(point[..], indices[..], temp[..], c, steps, k * m)
    {
      HashRow(indices, point, temp, k, m, iterations, c, steps);
      assert k * m + m == (k + 1) * m;
    }
  }

  /** enqueueReadBuffer: the point buffer becomes what the device wrote. */
  method ReadBack(point: array<Word>, buffer: seq<Word>)
    requires |buffer| == point.Length
    modifies point
    ensures point[..] == buffer
  {
    for t := 0 to point.Length
      invariant point[..t] == buffer[..t]
    {
      point[t] := buffer[t];
    }
  }

  // ---------------------------------------------------------------------
  // From buffers to candidates

  /** The fold of row k of a hashed buffer is the proof of row k's points. */
  lemma HashedFold(pts: seq<Word>, ind: seq<Word>, temp: Big, c: seq<Word>, steps: nat,
                   k: nat, m: nat, n: nat)
    requires |c| == 4 && 0 <= k * m && k * m + m <= n && Hashed(pts, ind, temp, c, steps, n)
    ensures (k * m + m) * WORDS <= |pts|
    ensures Xor(Zero(WORDS), XorAll(RowSlots(pts, k, m)))
         == XorAll(TemplatePoints(ind[k * m..k * m + m], temp, c, steps))
  {
    HashedPrefix(pts, ind, temp, c, steps, n, k * m + m);
    HashedRow(pts, ind, temp, c, steps, k, m);
    FoldFromZero(RowSlots(pts, k, m));
  }

  /** The proofs of candidates first .. first+n-1. */
  ghost function TemplateProofs(rand: nat -> nat, first: nat, n: nat, r: Round): (ps: seq<Big>)
    requires |r.c| == 4
    ensures |ps| == n
    ensures forall k :: 0 <= k < n ==> ps[k] == TemplateCandidate(rand, first + k, r).proof
  {
    seq<Big>(n, (k: nat) requires k < n => TemplateCandidate(rand, first + k, r).proof)
  }

  /** What a batch leaves behind: the index buffer holds the rows of
      candidates first .. first+iterations-1 and proof[k] is the proof of
      candidate first+k. */
  ghost predicate BatchReady(indices: seq<Word>, proofs: seq<Big>, rand: nat -> nat, first: nat,
                             iterations: nat, r: Round)
    requires |r.c| == 4
  {
    iterations <= |proofs| &&
    indices == TrialRows(rand, first, iterations, r.maxIndices) &&
    forall k :: 0 <= k < iterations ==> proofs[k] == TemplateCandidate(rand, first + k, r).proof
  }

  /** Before the first batch, the best is the zero solution with the
      all-ones proof: the bid after no trials. */
  lemma InitialBid(solution: seq<Word>, rand: nat -> nat, r: Round)
    requires |r.c| == 4 && |solution| == r.maxIndices && forall i :: 0 <= i < |solution| ==> solution[i] == 0
    ensures Best(solution, Ones(WORDS)) == TemplateBid(rand, 0, r)
  {
    assert solution == Zero(r.maxIndices);
  }

  /** The bid after t+1 trials is the bid after t trials, improved by
      candidate t. */
  lemma TemplateBidStep(rand: nat -> nat, t: nat, r: Round)
    requires |r.c| == 4
    ensures TemplateBid(rand, t + 1, r) == Improve(TemplateBid(rand, t, r), TemplateCandidate(rand, t, r))
  {
    TemplateTrialsSnoc(rand, 0, t, r);
    ReduceSnoc(Initial(r.maxIndices), TemplateTrials(rand, 0, t, r), TemplateCandidate(rand, t, r));
  }

  /** Row k of the rows drawn for candidates first.. folds to the proof of
      candidate first+k. */
  lemma RowProof(ind: seq<Word>, rand: nat -> nat, first: nat, n: nat, k: nat, r: Round)
    requires |r.c| == 4 && k < n && ind == TrialRows(rand, first, n, r.maxIndices)
    ensures 0 <= k * r.maxIndices && k * r.maxIndices + r.maxIndices <= |ind|
    ensures XorAll(TemplatePoints(ind[k * r.maxIndices..k * r.maxIndices + r.maxIndices], Template(r), r.c, r.hashSteps))
         == TemplateCandidate(rand, first + k, r).proof
  {
    TrialRowsRow(rand, first, n, r.maxIndices, k);
  }

  /** A ready batch offers exactly the next candidates. */
  lemma ReadyBatch(indices: seq<Word>, proofs: seq<Big>, rand: nat -> nat, first: nat,
                   iterations: nat, r: Round)
    requires |r.c| == 4 && BatchReady(indices, proofs, rand, first, iterations, r)
    ensures iterations * r.maxIndices <= |indices|
    ensures BatchCandidates(indices, proofs, iterations, r.maxIndices) == TemplateTrials(rand, first, iterations, r)
  {
    var m := r.maxIndices;
    var cs := TemplateTrials(rand, first, iterations, r);
    forall k | 0 <= k < iterations
      ensures 0 <= k * m && k * m + m <= |indices|
      ensures indices[k * m..k * m + m] == cs[k].indices && proofs[k] == cs[k].proof
    {
      TrialRowsRow(rand, first, iterations, m, k);
    }
    BatchFromRows(indices, proofs, m, cs);
  }

  /** Reducing a ready batch into the bid after `first` trials gives the bid
      after first+iterations trials. */
  lemma ReadyBid(indices: seq<Word>, proofs: seq<Big>, rand: nat -> nat, first: nat,
                 iterations: nat, r: Round)
    requires |r.c| == 4 && BatchReady(indices, proofs, rand, first, iterations, r)
    ensures iterations * r.maxIndices <= |indices|
    ensures Reduce(TemplateBid(rand, first, r), BatchCandidates(indices, proofs, iterations, r.maxIndices))
         == TemplateBid(rand, first + iterations, r)
  {
    ReadyBatch(indices, proofs, rand, first, iterations, r);
    TemplateBidNext(rand, first, iterations, r);
  }

  /** Rows drawn, every row hashed and folded from zero: the batch is ready. */
  lemma HashedReady(indices: seq<Word>, proofs: seq<Big>, pts: seq<Word>, rand: nat -> nat,
                    first: nat, iterations: nat, r: Round)
    requires |r.c| == 4 && iterations <= |proofs|
    requires indices == TrialRows(rand, first, iterations, r.maxIndices)
    requires Hashed(pts, indices, Template(r), r.c, r.hashSteps, iterations * r.maxIndices)
    requires forall k :: 0 <= k < iterations ==>
               (k * r.maxIndices + r.maxIndices) * WORDS <= |pts| &&
               proofs[k] == Xor(Zero(WORDS), XorAll(RowSlots(pts, k, r.maxIndices)))
    ensures BatchReady(indices, proofs, rand, first, iterations, r)
  {
    var m := r.maxIndices;
    forall k | 0 <= k < iterations
      ensures proofs[k] == TemplateCandidate(rand, first + k, r).proof
    {
      TrialRowsRow(rand, first, iterations, m, k);
      HashedFold(pts, indices, Template(r), r.c, r.hashSteps, k, m, iterations * m);
    }
  }

  /** A batch read back from the device and folded from zero offers the
      device's candidates. */
  lemma DeviceReady(indices: seq<Word>, proofs: seq<Big>, pts: seq<Word>, rand: nat -> nat,
                    first: nat, iterations: nat, m: nat)
    requires iterations <= |proofs| && |pts| == iterations * m * WORDS
    requires indices == TrialRows(rand, first, iterations, m)
    requires forall k :: 0 <= k < iterations ==>
               (k * m + m) * WORDS <= |pts| &&
               proofs[k] == Xor(Zero(WORDS), XorAll(RowSlots(pts, k, m)))
    ensures BatchCandidates(indices, proofs, iterations, m) == DeviceBatch(rand, first, iterations, m, pts)
  {
    var cs := DeviceBatch(rand, first, iterations, m, pts);
    forall k | 0 <= k < iterations
      ensures 0 <= k * m && k * m + m <= |indices|
      ensures indices[k * m..k * m + m] == cs[k].indices && proofs[k] == cs[k].proof
    {
      TrialRowsRow(rand, first, iterations, m, k);
      FoldFromZero(RowSlots(pts, k, m));
    }
    BatchFromRows(indices, proofs, m, cs);
  }

  /** The device's batch b, offered after batches 0..b-1, continues their
      reduction. */
  lemma DeviceBidNext(rand: nat -> nat, device: seq<seq<Word>>, b: nat, iterations: nat, m: nat, b0: Best)
    requires b < |device|
    requires forall q :: 0 <= q < |device| ==> |device[q]| == iterations * m * WORDS
    ensures Reduce(b0, DeviceTrials(rand, device, b + 1, iterations, m))
         == Reduce(Reduce(b0, DeviceTrials(rand, device, b, iterations, m)),
                   DeviceBatch(rand, b * iterations, iterations, m, device[b]))
  {
    ReduceAppend(b0, DeviceTrials(rand, device, b, iterations, m),
                 DeviceBatch(rand, b * iterations, iterations, m, device[b]));
  }

  /** When every device buffer holds the points main_loop computes for its
      batch, the OpenCL branch bids exactly what the host branch bids. */
  lemma DeviceBid(rand: nat -> nat, device: seq<seq<Word>>, nb: nat, iterations: nat, r: Round)
    requires |r.c| == 4 && nb <= |device|
    requires forall b :: 0 <= b < |device| ==> |device[b]| == iterations * r.maxIndices * WORDS
    requires DeviceHashed(rand, device, nb, iterations, r)
    ensures Reduce(Initial(r.maxIndices), DeviceTrials(rand, device, nb, iterations, r.maxIndices))
         == TemplateBid(rand, nb * iterations, r)
  {
    DeviceAgrees(rand, device, nb, iterations, r);
  }
}
