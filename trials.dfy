// What a run of MakeBid computes, as functions of its inputs: the draws of
// rand(), the deadline polls, the round, and for the OpenCL branches the
// buffers read back from the device. Candidates are numbered in the order
// the host draws their rows: candidate q uses draws q*m .. q*m+m-1, and batch
// b of `iterations` candidates holds candidates b*iterations .. +iterations-1.
module Trials {
  import opened Wide
  import opened HashStep
  import opened Seed
  import opened Candidates
  import opened Slots
  import opened Fold
  import opened Search

  // ---------------------------------------------------------------------
  // The deadline

  /** polls[b] is the outcome of the deadline test after batch b. Every
      variant tests only after a batch, so a run makes Batches(polls) >= 1
      batches and stops after the first one whose test is true. */
  function Batches(polls: seq<bool>): (r: nat)
    requires true in polls
    ensures 1 <= r <= |polls| && polls[r - 1]
    ensures forall b :: 0 <= b < r - 1 ==> !polls[b]
  {
    if polls[0] then 1
    else
      assert true in polls[1..];
      1 + Batches(polls[1..])
  }

  /** Before the last batch the poll after batch t succeeds exactly when t is
      the last one. */
  lemma NextPoll(polls: seq<bool>, t: nat)
    requires true in polls && t < Batches(polls)
    ensures t < |polls| && (polls[t] <==> t + 1 == Batches(polls))
  {
  }

  /** A loop that has passed n false tests and then sees a true one has made
      exactly Batches(polls) batches. */
  lemma {:induction false} BatchesAt(polls: seq<bool>, n: nat)
    requires n < |polls| && polls[n] && forall b :: 0 <= b < n ==> !polls[b]
    ensures true in polls && Batches(polls) == n + 1
  {
    if n > 0 {
      assert polls[1..][n - 1] == polls[n];
      BatchesAt(polls[1..], n - 1);
    }
  }

  // ---------------------------------------------------------------------
  // Rows

  /** The row of candidate q. */
  function TrialRow(rand: nat -> nat, q: nat, m: nat): (r: seq<Word>)
    ensures |r| == m
  {
    Walk(rand, q * m, m)
  }

  /** The rows of candidates first .. first+n-1, one after the other, as in a
      flat index buffer. */
  function TrialRows(rand: nat -> nat, first: nat, n: nat, m: nat): (r: seq<Word>)
    ensures |r| == n * m
  {
    if n == 0 then []
    else
      assert (n - 1) * m + m == n * m;
      TrialRows(rand, first, n - 1, m) + TrialRow(rand, first + n - 1, m)
  }

  /** Row k of the flat rows is the row of candidate first+k. */
  lemma {:induction false} TrialRowsRow(rand: nat -> nat, first: nat, n: nat, m: nat, k: nat)
    requires k < n
    ensures 0 <= k * m && k * m + m <= n * m
    ensures TrialRows(rand, first, n, m)[k * m..k * m + m] == TrialRow(rand, first + k, m)
  {
    RowInBatch(k, n, m, n * m);
    var front := TrialRows(rand, first, n - 1, m);
    assert (n - 1) * m + m == n * m;
    if k < n - 1 {
      TrialRowsRow(rand, first, n - 1, m, k);
      assert TrialRows(rand, first, n, m)[k * m..k * m + m] == front[k * m..k * m + m];
    } else {
      assert k * m == |front|;
    }
  }

  // ---------------------------------------------------------------------
  // Candidates of the duplicated-limb template variants

  /** The hashed points of a row: each index written into limb 0 of the
      template, then stepped hashSteps times. */
  function TemplatePoints(row: seq<Word>, temp: Big, c: seq<Word>, steps: nat): (r: seq<Big>)
    requires |c| == 4
    ensures |r| == |row|
    ensures forall i :: 0 <= i < |row| ==> r[i] == Iterate(FromTemplate(temp, row[i]), c, steps)
  {
    seq<Big>(|row|, (i: nat) requires i < |row| => Iterate(FromTemplate(temp, row[i]), c, steps))
  }

  /** Candidate q of a template variant: its row and the XOR of its points. */
  function TemplateCandidate(rand: nat -> nat, q: nat, r: Round): Candidate
    requires |r.c| == 4
  {
    var row := TrialRow(rand, q, r.maxIndices);
    Candidate(row, XorAll(TemplatePoints(row, Template(r), r.c, r.hashSteps)))
  }

  /** Candidates first .. first+n-1. */
  function TemplateTrials(rand: nat -> nat, first: nat, n: nat, r: Round): (cs: seq<Candidate>)
    requires |r.c| == 4
    ensures |cs| == n
  {
    seq(n, (k: nat) requires k < n => TemplateCandidate(rand, first + k, r))
  }

  /** The candidates of n+i trials are those of n trials, then the next i. */
  lemma TemplateTrialsAppend(rand: nat -> nat, n: nat, i: nat, r: Round)
    requires |r.c| == 4
    ensures TemplateTrials(rand, 0, n + i, r) == TemplateTrials(rand, 0, n, r) + TemplateTrials(rand, n, i, r)
  {
  }

  /** One more candidate extends the trials by that candidate. */
  lemma TemplateTrialsSnoc(rand: nat -> nat, first: nat, n: nat, r: Round)
    requires |r.c| == 4
    ensures TemplateTrials(rand, first, n + 1, r) == TemplateTrials(rand, first, n, r) + [TemplateCandidate(rand, first + n, r)]
  {
  }

  /** One more point extends a row's points by that point. */
  lemma TemplatePointsNext(row: seq<Word>, temp: Big, c: seq<Word>, steps: nat, i: nat)
    requires |c| == 4 && i < |row|
    ensures XorAll(TemplatePoints(row[..i + 1], temp, c, steps))
         == Xor(XorAll(TemplatePoints(row[..i], temp, c, steps)), Iterate(FromTemplate(temp, row[i]), c, steps))
  {
    var ps := TemplatePoints(row[..i + 1], temp, c, steps);
    assert ps[..i] == TemplatePoints(row[..i], temp, c, steps);
  }

  /** What a template variant bids after the given number of trials. */
  function TemplateBid(rand: nat -> nat, trials: nat, r: Round): Best
    requires |r.c| == 4
  {
    Reduce(Initial(r.maxIndices), TemplateTrials(rand, 0, trials, r))
  }

  /** One more batch of i candidates, reduced from the bid after n trials,
      gives the bid after n+i trials. */
  lemma TemplateBidNext(rand: nat -> nat, n: nat, i: nat, r: Round)
    requires |r.c| == 4
    ensures Reduce(TemplateBid(rand, n, r), TemplateTrials(rand, n, i, r)) == TemplateBid(rand, n + i, r)
  {
    TemplateTrialsAppend(rand, n, i, r);
    ReduceAppend(Initial(r.maxIndices), TemplateTrials(rand, 0, n, r), TemplateTrials(rand, n, i, r));
  }

  /** A buffer whose first n slots hold the hashed points of ind[..n]. */
  ghost predicate Hashed(pts: seq<Word>, ind: seq<Word>, temp: Big, c: seq<Word>, steps: nat, n: nat)
    requires |c| == 4
  {
    n <= |ind| && n * WORDS <= |pts| &&
    forall s :: 0 <= s < n ==> Slot(pts, s) == Iterate(FromTemplate(temp, ind[s]), c, steps)
  }

  /** The slots of row k of a hashed buffer are the template points of row k. */
  lemma HashedRow(pts: seq<Word>, ind: seq<Word>, temp: Big, c: seq<Word>, steps: nat, k: nat, m: nat)
    requires |c| == 4 && 0 <= k * m && Hashed(pts, ind, temp, c, steps, k * m + m)
    ensures (k * m + m) * WORDS <= |pts|
    ensures RowSlots(pts, k, m) == TemplatePoints(ind[k * m..k * m + m], temp, c, steps)
  {
    var row := ind[k * m..k * m + m];
    forall i | 0 <= i < m
      ensures RowSlots(pts, k, m)[i] == TemplatePoints(row, temp, c, steps)[i]
    {
      assert row[i] == ind[k * m + i];
    }
  }

  // ---------------------------------------------------------------------
  // Candidates of the OpenCL branches

  /** Candidate k of a batch whose points come from a device buffer. */
  function DeviceBatch(rand: nat -> nat, first: nat, iterations: nat, m: nat, pts: seq<Word>)
    : (cs: seq<Candidate>)
    requires iterations * m * WORDS <= |pts|
    ensures |cs| == iterations
  {
    DeviceRowsFit(iterations, m, |pts|);
    seq(iterations, (k: nat) requires k < iterations =>
      Candidate(TrialRow(rand, first + k, m), XorAll(RowSlots(pts, k, m))))
  }

  lemma DeviceRowsFit(iterations: nat, m: nat, len: nat)
    requires iterations * m * WORDS <= len
    ensures forall k :: 0 <= k < iterations ==> (k * m + m) * WORDS <= len
  {
    forall k | 0 <= k < iterations
      ensures (k * m + m) * WORDS <= len
    {
      RowFits(k, iterations, m, len);
    }
  }

  /** The candidates of the first nb batches, batch b read from device[b]. */
  function DeviceTrials(rand: nat -> nat, device: seq<seq<Word>>, nb: nat, iterations: nat, m: nat)
    : (cs: seq<Candidate>)
    requires nb <= |device|
    requires forall b :: 0 <= b < |device| ==> |device[b]| == iterations * m * WORDS
    ensures |cs| == nb * iterations
  {
    if nb == 0 then []
    else
      assert (nb - 1) * iterations + iterations == nb * iterations;
      DeviceTrials(rand, device, nb - 1, iterations, m)
      + DeviceBatch(rand, (nb - 1) * iterations, iterations, m, device[nb - 1])
  }

  /** Every one of the first nb device buffers holds the points main_loop
      computes for the rows of its batch. */
  ghost predicate DeviceHashed(rand: nat -> nat, device: seq<seq<Word>>, nb: nat, iterations: nat, r: Round)
    requires |r.c| == 4
  {
    nb <= |device| &&
    forall b :: 0 <= b < nb ==>
      |device[b]| == iterations * r.maxIndices * WORDS &&
      Hashed(device[b], TrialRows(rand, b * iterations, iterations, r.maxIndices),
             Template(r), r.c, r.hashSteps, iterations * r.maxIndices)
  }

  /** When the device computes what main_loop computes on the host, the
      OpenCL branch offers the same candidates as the host branch. */
  lemma {:induction false} DeviceAgrees(rand: nat -> nat, device: seq<seq<Word>>, nb: nat,
                                        iterations: nat, r: Round)
    requires |r.c| == 4 && nb <= |device|
    requires forall b :: 0 <= b < |device| ==> |device[b]| == iterations * r.maxIndices * WORDS
    requires DeviceHashed(rand, device, nb, iterations, r)
    ensures DeviceTrials(rand, device, nb, iterations, r.maxIndices)
         == TemplateTrials(rand, 0, nb * iterations, r)
  {
    if nb > 0 {
      var b := nb - 1;
      assert DeviceHashed(rand, device, b, iterations, r);
      DeviceAgrees(rand, device, b, iterations, r);
      DeviceBatchAgrees(rand, device[b], b * iterations, iterations, r);
      var n := b * iterations;
      MulSucc(b, iterations);
      TemplateTrialsAppend(rand, n, iterations, r);
    }
  }

  /** One batch read back from a device that hashed its rows as main_loop does. */
  lemma DeviceBatchAgrees(rand: nat -> nat, pts: seq<Word>, first: nat, iterations: nat, r: Round)
    requires |r.c| == 4 && |pts| == iterations * r.maxIndices * WORDS
    requires Hashed(pts, TrialRows(rand, first, iterations, r.maxIndices),
                    Template(r), r.c, r.hashSteps, iterations * r.maxIndices)
    ensures DeviceBatch(rand, first, iterations, r.maxIndices, pts) == TemplateTrials(rand, first, iterations, r)
  {
    var m := r.maxIndices;
    var rows := TrialRows(rand, first, iterations, m);
    forall k | 0 <= k < iterations
      ensures DeviceBatch(rand, first, iterations, m, pts)[k] == TemplateTrials(rand, first, iterations, r)[k]
    {
      TrialRowsRow(rand, first, iterations, m, k);
      HashedPrefix(pts, rows, Template(r), r.c, r.hashSteps, iterations * m, k * m + m);
      HashedRow(pts, rows, Template(r), r.c, r.hashSteps, k, m);
    }
  }

  /** A hashed buffer is hashed on every shorter prefix. */
  lemma HashedPrefix(pts: seq<Word>, ind: seq<Word>, temp: Big, c: seq<Word>, steps: nat, n: nat, n2: nat)
    requires |c| == 4 && n2 <= n && Hashed(pts, ind, temp, c, steps, n)
    ensures Hashed(pts, ind, temp, c, steps, n2)
  {
  }

  // ---------------------------------------------------------------------
  // Candidates of the wide_add variant

  /** The hashed points of a row in the wide_add layout. */
  function UnwrapPoints(row: seq<Word>, r: Round): (ps: seq<Big>)
    requires ValidRound(r)
    ensures |ps| == |row|
  {
    seq<Big>(|row|, (i: nat) requires i < |row| => Iterate(WideAddSeed(row[i], r), r.c, r.hashSteps))
  }

  function UnwrapCandidate(rand: nat -> nat, t: nat, r: Round): Candidate
    requires ValidRound(r)
  {
    var row := TrialRow(rand, t, r.maxIndices);
    Candidate(row, XorAll(UnwrapPoints(row, r)))
  }

  function UnwrapTrials(rand: nat -> nat, n: nat, r: Round): (cs: seq<Candidate>)
    requires ValidRound(r)
    ensures |cs| == n
  {
    seq(n, (t: nat) requires t < n => UnwrapCandidate(rand, t, r))
  }

  lemma UnwrapTrialsSnoc(rand: nat -> nat, n: nat, r: Round)
    requires ValidRound(r)
    ensures UnwrapTrials(rand, n + 1, r) == UnwrapTrials(rand, n, r) + [UnwrapCandidate(rand, n, r)]
  {
  }

  lemma UnwrapPointsNext(row: seq<Word>, r: Round, i: nat)
    requires ValidRound(r) && i < |row|
    ensures XorAll(UnwrapPoints(row[..i + 1], r))
         == Xor(XorAll(UnwrapPoints(row[..i], r)), Iterate(WideAddSeed(row[i], r), r.c, r.hashSteps))
  {
    var ps := UnwrapPoints(row[..i + 1], r);
    assert ps[..i] == UnwrapPoints(row[..i], r);
  }

  /** MakeBid either returns a bid or lets std::invalid_argument escape. */
  datatype Outcome = Bid(best: Best) | InvalidArgument

  /** The wide_add variant throws if one of the trials it runs draws a row
      that is out of order; otherwise it bids the reduction of its trials. */
  function UnwrapOutcome(rand: nat -> nat, polls: seq<bool>, r: Round): Outcome
    requires ValidRound(r) && true in polls
  {
    if exists t :: 0 <= t < Batches(polls) && OutOfOrder(TrialRow(rand, t, r.maxIndices)) then
      InvalidArgument
    else
      Bid(Reduce(Initial(r.maxIndices), UnwrapTrials(rand, Batches(polls), r)))
  }

  /** The first n trials all draw rows that pass the order check. */
  ghost predicate InOrder(rand: nat -> nat, n: nat, m: nat)
  {
    forall t :: 0 <= t < n ==> !OutOfOrder(TrialRow(rand, t, m))
  }

  lemma InOrderNext(rand: nat -> nat, n: nat, m: nat)
    requires InOrder(rand, n, m) && !OutOfOrder(TrialRow(rand, n, m))
    ensures InOrder(rand, n + 1, m)
  {
  }

  /** A trial before the deadline that draws an out-of-order row makes the
      wide_add variant throw. */
  lemma UnwrapThrows(rand: nat -> nat, polls: seq<bool>, r: Round, t: nat)
    requires ValidRound(r) && true in polls && t < Batches(polls)
    requires OutOfOrder(TrialRow(rand, t, r.maxIndices))
    ensures UnwrapOutcome(rand, polls, r) == InvalidArgument
  {
  }

  /** When every trial before the deadline passes the check, the wide_add
      variant bids the reduction of its trials. */
  lemma UnwrapBids(rand: nat -> nat, polls: seq<bool>, r: Round)
    requires ValidRound(r) && true in polls && InOrder(rand, Batches(polls), r.maxIndices)
    ensures UnwrapOutcome(rand, polls, r)
         == Bid(Reduce(Initial(r.maxIndices), UnwrapTrials(rand, Batches(polls), r)))
  {
  }

  /** Rows short enough not to wrap never trigger the check. */
  lemma UnwrapNeverThrows(rand: nat -> nat, polls: seq<bool>, r: Round)
    requires ValidRound(r) && true in polls && 10 * r.maxIndices < BASE
    ensures UnwrapOutcome(rand, polls, r).Bid?
  {
    forall t | 0 <= t < Batches(polls)
      ensures !OutOfOrder(TrialRow(rand, t, r.maxIndices))
    {
      WalkInOrder(rand, t * r.maxIndices, r.maxIndices);
    }
  }

  /** When every 64-bit field has equal halves, the wide_add variant and the
      template variants compute the same candidate. */
  lemma UnwrapMatchesTemplate(rand: nat -> nat, q: nat, r: Round)
    requires ValidRound(r)
    requires High32(r.roundId) == Low32(r.roundId) && High32(r.roundSalt) == Low32(r.roundSalt)
             && High32(r.chainHash) == Low32(r.chainHash)
    ensures UnwrapCandidate(rand, q, r) == TemplateCandidate(rand, q, r)
  {
    UnwrapPointsMatch(TrialRow(rand, q, r.maxIndices), r);
  }

  lemma UnwrapPointsMatch(row: seq<Word>, r: Round)
    requires ValidRound(r)
    requires High32(r.roundId) == Low32(r.roundId) && High32(r.roundSalt) == Low32(r.roundSalt)
             && High32(r.chainHash) == Low32(r.chainHash)
    ensures UnwrapPoints(row, r) == TemplatePoints(row, Template(r), r.c, r.hashSteps)
  {
    forall i | 0 <= i < |row|
      ensures UnwrapPoints(row, r)[i] == TemplatePoints(row, Template(r), r.c, r.hashSteps)[i]
    {
      LayoutsAgree(row[i], r);
    }
  }
}
