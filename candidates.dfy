// Candidate index rows. Every variant draws a row of maxIndices indices with
// gaps 1 + rand()%10 in uint32_t arithmetic, either through a running cursor
// (src/bitecoin_miner_unwrap.cpp:51-55, src/bitecoin_miner_array.cpp:113-117,
// src/main.cpp:203-211) or by chaining on the previous entry
// (src/bitecoin_miner_v2.cpp:79-85). rand() is a parameter: rand(n) is the
// result of the n-th call.
module Candidates {
  import opened Wide

  /** 1 + rand()%10 */
  function Gap(draw: nat): (r: nat)
    ensures 1 <= r <= 10
  {
    1 + draw % 10
  }

  /** curr + 1 + rand()%10, truncated to uint32_t. */
  function NextIndex(curr: Word, draw: nat): Word
  {
    (curr + Gap(draw)) % BASE
  }

  /** The row of m indices built from the draws rand(start) .. rand(start+m-1). */
  function Walk(rand: nat -> nat, start: nat, m: nat): (r: seq<Word>)
    ensures |r| == m
  {
    if m == 0 then []
    else
      var prev := Walk(rand, start, m - 1);
      prev + [NextIndex(if m == 1 then 0 else prev[m - 2], rand(start + m - 1))]
  }

  /** Rows grow by appending: a shorter walk is a prefix of a longer one. */
  lemma {:induction false} WalkPrefix(rand: nat -> nat, start: nat, m: nat, n: nat)
    requires n <= m
    ensures Walk(rand, start, m)[..n] == Walk(rand, start, n)
    decreases m
  {
    if n < m {
      WalkPrefix(rand, start, m - 1, n);
    }
  }

  /** Without wrap-around, entry i is at least i+1 and at most 10(i+1), and it is
      exactly the sum of the first i+1 gaps. */
  function GapSum(rand: nat -> nat, start: nat, n: nat): (r: nat)
    ensures n <= r <= 10 * n
  {
    if n == 0 then 0 else GapSum(rand, start, n - 1) + Gap(rand(start + n - 1))
  }

  lemma {:induction false} WalkIsGapSum(rand: nat -> nat, start: nat, m: nat)
    requires 10 * m < BASE
    ensures forall i :: 0 <= i < m ==> Walk(rand, start, m)[i] == GapSum(rand, start, i + 1)
  {
    if m > 0 {
      WalkIsGapSum(rand, start, m - 1);
      var w := Walk(rand, start, m);
      assert w[..m - 1] == Walk(rand, start, m - 1);
      var prev := if m == 1 then 0 else w[m - 2];
      assert prev == GapSum(rand, start, m - 1);
      assert prev + Gap(rand(start + m - 1)) == GapSum(rand, start, m) < BASE;
    }
  }

  /** The first index lies in [1, 10] and each later one exceeds its predecessor
      by 1 to 10, as long as 10·m < 2^32 (so the uint32_t cursor cannot wrap). */
  lemma WalkGaps(rand: nat -> nat, start: nat, m: nat)
    requires 10 * m < BASE
    ensures m >= 1 ==> 1 <= Walk(rand, start, m)[0] <= 10
    ensures forall i :: 0 < i < m ==> 1 <= Walk(rand, start, m)[i] as int - Walk(rand, start, m)[i - 1] <= 10
  {
    WalkIsGapSum(rand, start, m);
  }

  predicate StrictlyIncreasing(s: seq<Word>)
  {
    forall i, j :: 0 <= i < j < |s| ==> s[i] < s[j]
  }

  /** Hence rows of fewer than 2^32/10 indices are strictly increasing. */
  lemma WalkIncreasing(rand: nat -> nat, start: nat, m: nat)
    requires 10 * m < BASE
    ensures StrictlyIncreasing(Walk(rand, start, m))
  {
    var w := Walk(rand, start, m);
    WalkIsGapSum(rand, start, m);
    forall i, j | 0 <= i < j < m
      ensures w[i] < w[j]
    {
      GapSumIncreasing(rand, start, i + 1, j + 1);
    }
  }

  lemma {:induction false} GapSumIncreasing(rand: nat -> nat, start: nat, a: nat, b: nat)
    requires a < b
    ensures GapSum(rand, start, a) < GapSum(rand, start, b)
    decreases b
  {
    if a < b - 1 {
      GapSumIncreasing(rand, start, a, b - 1);
    }
  }

  /** The check of src/bitecoin_miner_unwrap.cpp:60-63: some index is not above
      its predecessor. */
  predicate OutOfOrder(s: seq<Word>)
  {
    exists i :: 0 < i < |s| && s[i - 1] >= s[i]
  }

  /** One pair of neighbours out of order is enough... */
  lemma NeighboursOutOfOrder(s: seq<Word>, i: nat)
    requires 0 < i < |s| && s[i - 1] >= s[i]
    ensures OutOfOrder(s)
  {
  }

  /** ...and a prefix that passes the check still passes with one more entry
      above its last. */
  lemma InOrderPrefixNext(s: seq<Word>, i: nat)
    requires i < |s| && !OutOfOrder(s[..i]) && (i > 0 ==> s[i - 1] < s[i])
    ensures !OutOfOrder(s[..i + 1])
  {
    var p := s[..i + 1];
    forall j | 0 < j < |p|
      ensures p[j - 1] < p[j]
    {
      if j < i {
        assert s[..i][j - 1] >= s[..i][j] ==> OutOfOrder(s[..i]);
      }
    }
  }

  /** The monotonicity check is exactly the negation of strict increase
      between neighbours, and so never fires on a row that cannot wrap. */
  lemma OutOfOrderIffNotIncreasing(s: seq<Word>)
    ensures OutOfOrder(s) <==> !StrictlyIncreasing(s)
  {
    if !OutOfOrder(s) {
      forall i, j | 0 <= i < j < |s|
        ensures s[i] < s[j]
      {
        NeighboursIncreasing(s, i, j);
      }
    }
  }

  lemma {:induction false} NeighboursIncreasing(s: seq<Word>, i: nat, j: nat)
    requires !OutOfOrder(s) && i < j < |s|
    ensures s[i] < s[j]
    decreases j
  {
    assert !(s[j - 1] >= s[j]);
    if i < j - 1 {
      NeighboursIncreasing(s, i, j - 1);
    }
  }

  lemma WalkInOrder(rand: nat -> nat, start: nat, m: nat)
    requires 10 * m < BASE
    ensures !OutOfOrder(Walk(rand, start, m))
  {
    WalkIncreasing(rand, start, m);
    OutOfOrderIffNotIncreasing(Walk(rand, start, m));
  }

  /** The check is not dead code: with every draw ≡ 9 (mod 10) the cursor passes
      2^32 at entry 429496729 and the row is out of order. */
  lemma WalkWraps(rand: nat -> nat, start: nat)
    requires forall n :: rand(n) % 10 == 9
    ensures OutOfOrder(Walk(rand, start, 429496730))
  {
    var m := 429496730;
    var w := Walk(rand, start, m);
    WalkOfTens(rand, start, m);
    assert w[m - 2] == 4294967290 && w[m - 1] == 4;
  }

  lemma {:induction false} WalkOfTens(rand: nat -> nat, start: nat, m: nat)
    requires forall n :: rand(n) % 10 == 9
    requires 10 * m <= BASE + 10
    ensures forall i :: 0 <= i < m ==> Walk(rand, start, m)[i] == (10 * (i + 1)) % BASE
  {
    if m > 0 {
      WalkOfTens(rand, start, m - 1);
      var w := Walk(rand, start, m);
      assert w[..m - 1] == Walk(rand, start, m - 1);
      assert Gap(rand(start + m - 1)) == 10;
      if m >= 2 {
        assert w[m - 2] == 10 * (m - 1);
      }
    }
  }

  /** One more draw appends one entry, prev plus the gap. */
  lemma WalkStep(rand: nat -> nat, start: nat, j: nat, prev: Word)
    requires j > 0 ==> prev == Walk(rand, start, j)[j - 1]
    requires j == 0 ==> prev == 0
    ensures Walk(rand, start, j + 1) == Walk(rand, start, j) + [NextIndex(prev, rand(start + j))]
  {
  }

  /** before with the row w written from position base on. */
  ghost function Splice(before: seq<Word>, base: nat, w: seq<Word>): (r: seq<Word>)
    requires base + |w| <= |before|
    ensures |r| == |before|
  {
    before[..base] + w + before[base + |w|..]
  }

  /** Writing x just past a spliced-in row w extends the row by x. */
  lemma SpliceNext(before: seq<Word>, base: nat, w: seq<Word>, x: Word)
    requires base + |w| < |before|
    ensures Splice(before, base, w)[base + |w| := x] == Splice(before, base, w + [x])
  {
    var j := |w|;
    var lhs := Splice(before, base, w)[base + j := x];
    var rhs := Splice(before, base, w + [x]);
    forall t | 0 <= t < |lhs|
      ensures lhs[t] == rhs[t]
    {
      if t < base {
      } else if t < base + j {
      } else if t == base + j {
      } else {
      }
    }
  }

  /** indices[base+j] = prev + 1 + rand()%10, the entry after the first j of
      the row. */
  method ExtendRow(indices: array<Word>, ghost before: seq<Word>, base: nat, rand: nat -> nat,
                   call: nat, j: nat, prev: Word)
    returns (curr: Word)
    requires base + j < indices.Length == |before|
    requires indices[..] == Splice(before, base, Walk(rand, call, j))
    requires j > 0 ==> prev == Walk(rand, call, j)[j - 1]
    requires j == 0 ==> prev == 0
    modifies indices
    ensures curr == Walk(rand, call, j + 1)[j]
    ensures indices[..] == Splice(before, base, Walk(rand, call, j + 1))
  {
    WalkStep(rand, call, j, prev);
    curr := NextIndex(prev, rand(call + j));
    SpliceNext(before, base, Walk(rand, call, j), curr);
    ghost var cur := indices[..];
    indices[base + j] := curr;
    assert indices[..] == cur[base + j := curr];
  }

  /** The cursor form: curr = curr + 1 + rand()%10; indices[base+j] = curr, for
      j < m. Draws call .. call+m-1 are consumed; only the row changes. */
  method FillRowCursor(indices: array<Word>, base: nat, m: nat, rand: nat -> nat, call: nat)
    returns (next: nat)
    requires base + m <= indices.Length
    modifies indices
    ensures next == call + m
    ensures indices[..] == old(indices[..])[..base] + Walk(rand, call, m) + old(indices[..])[base + m..]
  {
    ghost var before := indices[..];
    assert before == Splice(before, base, Walk(rand, call, 0));
    var curr: Word := 0;
    for j := 0 to m
      invariant indices[..] == Splice(before, base, Walk(rand, call, j))
      invariant j > 0 ==> curr == Walk(rand, call, j)[j - 1]
      invariant j == 0 ==> curr == 0
    {
      curr := ExtendRow(indices, before, base, rand, call, j, curr);
    }
    next := call + m;
  }

  /** The chained form: indices[base] = 1 + rand()%10, then each entry is the
      previous one plus 1 + rand()%10. It writes indices[base] unconditionally,
      so the row must be non-empty. */
  method FillRowChained(indices: array<Word>, base: nat, m: nat, rand: nat -> nat, call: nat)
    returns (next: nat)
    requires m >= 1 && base + m <= indices.Length
    modifies indices
    ensures next == call + m
    ensures indices[..] == old(indices[..])[..base] + Walk(rand, call, m) + old(indices[..])[base + m..]
  {
    ghost var before := indices[..];
    var first: Word := Gap(rand(call));
    assert Walk(rand, call, 1) == [] + [first];
    assert before == Splice(before, base, []);
    SpliceNext(before, base, [], first);
    indices[base] := first;
    assert indices[..] == before[base := first];
    for i := 1 to m
      invariant indices[..] == Splice(before, base, Walk(rand, call, i))
    {
      var prev := indices[base + i - 1];
      assert prev == Walk(rand, call, i)[i - 1];
      var _ := ExtendRow(indices, before, base, rand, call, i, prev);
    }
    next := call + m;
  }
}
