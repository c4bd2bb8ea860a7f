// The proof of a candidate: the XOR of the hashed points of its row, folded
// limb by limb into a zeroed accumulator (src/main.cpp:226-233,
// src/bitecoin_miner_tbb_seq.cpp:144-148), plus the recursive pairwise fold
// wide_xor_array of src/bitecoin_miner_array.cpp:37-66 as written and corrected.
module Fold {
  import opened Wide
  import opened Slots

  /** The XOR of a sequence of points, accumulated from zero in order. */
  function XorAll(ps: seq<Big>): Big
  {
    if |ps| == 0 then Zero(WORDS) else Xor(XorAll(ps[..|ps| - 1]), ps[|ps| - 1])
  }

  lemma XorZeroLeft(a: Big)
    ensures Xor(Zero(WORDS), a) == a
  {
    XorComm(Zero(WORDS), a);
    XorZeroRight(a);
  }

  /** Folding a concatenation is the XOR of the two folds. */
  lemma {:induction false} XorAllAppend(a: seq<Big>, b: seq<Big>)
    ensures XorAll(a + b) == Xor(XorAll(a), XorAll(b))
    decreases |b|
  {
    if |b| == 0 {
      assert a + b == a;
      XorZeroRight(XorAll(a));
    } else {
      var b' := b[..|b| - 1];
      assert (a + b)[..|a + b| - 1] == a + b';
      XorAllAppend(a, b');
      XorAssoc(XorAll(a), XorAll(b'), b[|b| - 1]);
    }
  }

  /** Moving one operand to the end of a three-way XOR. */
  lemma XorRotate(l: Big, x: Big, r: Big)
    ensures Xor(Xor(l, x), r) == Xor(Xor(l, r), x)
  {
    XorAssoc(l, x, r);
    XorComm(x, r);
    XorAssoc(l, r, x);
  }

  lemma XorAllSingle(x: Big)
    ensures XorAll([x]) == x
  {
    assert [x][..0] == [];
    XorZeroLeft(x);
  }

  /** Taking one point out of the fold and XOR-ing it back in changes nothing. */
  lemma XorAllRemove(b: seq<Big>, j: nat)
    requires j < |b|
    ensures XorAll(b) == Xor(XorAll(b[..j] + b[j + 1..]), b[j])
  {
    SplitAt(b, j);
    XorAllMiddle(b[..j], b[j], b[j + 1..]);
  }

  /** b is its prefix, its j-th point and its suffix. */
  lemma SplitAt(b: seq<Big>, j: nat)
    requires j < |b|
    ensures b == (b[..j] + [b[j]]) + b[j + 1..]
  {
    assert b[..j + 1] == b[..j] + [b[j]];
    assert b == b[..j + 1] + b[j + 1..];
  }

  /** XorAll(l + [x] + r) == XorAll(l + r) ^ x */
  lemma XorAllMiddle(l: seq<Big>, x: Big, r: seq<Big>)
    ensures XorAll((l + [x]) + r) == Xor(XorAll(l + r), x)
  {
    calc {
      XorAll((l + [x]) + r);
      { XorAllAppend(l + [x], r); }
      Xor(XorAll(l + [x]), XorAll(r));
      { XorAllAppend(l, [x]); XorAllSingle(x); }
      Xor(Xor(XorAll(l), x), XorAll(r));
      { XorRotate(XorAll(l), x, XorAll(r)); }
      Xor(Xor(XorAll(l), XorAll(r)), x);
      { XorAllAppend(l, r); }
      Xor(XorAll(l + r), x);
    }
  }

  /** The order in which the points are folded does not matter: the proof
      depends only on the multiset of hashed points. */
  lemma {:induction false} XorAllPermutation(a: seq<Big>, b: seq<Big>)
    requires multiset(a) == multiset(b)
    ensures XorAll(a) == XorAll(b)
    decreases |a|
  {
    if |a| > 0 {
      var x := a[|a| - 1];
      var a' := a[..|a| - 1];
      assert a == a' + [x];
      assert x in multiset(b);
      var j :| 0 <= j < |b| && b[j] == x;
      var b' := b[..j] + b[j + 1..];
      assert b == b[..j] + [x] + b[j + 1..];
      assert multiset(b') == multiset(b) - multiset{x};
      assert multiset(a') == multiset(a) - multiset{x};
      XorAllPermutation(a', b');
      XorAllRemove(b, j);
    } else {
      assert |b| == 0;
    }
  }

  /** The m hashed points of row k in a flat buffer: slots k*m .. k*m+m-1. */
  function RowSlots(pts: seq<Word>, k: nat, m: nat): (r: seq<Big>)
    requires (k * m + m) * WORDS <= |pts|
    ensures |r| == m
  {
    seq<Big>(m, (i: nat) requires i < m => Slot(pts, k * m + i))
  }

  /** for x: acc.limbs[x] ^= point[s*8+x] */
  method XorSlot(acc: Big, point: array<Word>, s: nat) returns (r: Big)
    requires (s + 1) * WORDS <= point.Length
    ensures r == Xor(acc, Slot(point[..], s))
  {
    r := acc;
    for x := 0 to WORDS
      invariant r == Xor(acc, Slot(point[..], s))[..x] + acc[x..]
    {
      r := r[x := WordXor(r[x], point[s * WORDS + x])];
    }
  }

  /** for i < m: proofs[k] ^= slot k*m+i. Only proofs[k] changes. */
  method FoldRow(proofs: array<Big>, k: nat, point: array<Word>, m: nat)
    requires k < proofs.Length && (k * m + m) * WORDS <= point.Length
    modifies proofs
    ensures proofs[k] == Xor(old(proofs[k]), XorAll(RowSlots(point[..], k, m)))
    ensures forall q :: 0 <= q < proofs.Length && q != k ==> proofs[q] == old(proofs[q])
  {
    ghost var row := RowSlots(point[..], k, m);
    ghost var p0 := proofs[k];
    assert row[..0] == [];
    XorZeroRight(p0);
    for i := 0 to m
      invariant proofs[k] == Xor(p0, XorAll(row[..i]))
      invariant forall q :: 0 <= q < proofs.Length && q != k ==> proofs[q] == old(proofs[q])
    {
      SlotInRow(k, m, i, point.Length);
      var next := XorSlot(proofs[k], point, k * m + i);
      FoldStep(p0, row, i);
      proofs[k] := next;
    }
    assert row[..m] == row;
  }

  /** Slot i of row k lies inside a buffer that holds the whole row. */
  lemma SlotInRow(k: nat, m: nat, i: nat, len: nat)
    requires i < m && (k * m + m) * WORDS <= len
    ensures (k * m + i + 1) * WORDS <= len
  {
  }

  /** One more point XOR-ed into a running fold extends it by that point. */
  lemma FoldStep(p0: Big, row: seq<Big>, i: nat)
    requires i < |row|
    ensures Xor(Xor(p0, XorAll(row[..i])), row[i]) == Xor(p0, XorAll(row[..i + 1]))
  {
    assert row[..i + 1][..i] == row[..i];
    XorAssoc(p0, XorAll(row[..i]), row[i]);
  }

  /** The fold of every row: proofs[k] ^= row k, for each k < iterations. */
  method FoldRows(proofs: array<Big>, point: array<Word>, iterations: nat, m: nat)
    requires iterations <= proofs.Length && iterations * m * WORDS <= point.Length
    modifies proofs
    ensures forall k :: 0 <= k < iterations ==>
              (k * m + m) * WORDS <= point.Length &&
              proofs[k] == Xor(old(proofs[k]), XorAll(RowSlots(point[..], k, m)))
    ensures forall k :: iterations <= k < proofs.Length ==> proofs[k] == old(proofs[k])
  {
    forall q | 0 <= q < iterations
      ensures (q * m + m) * WORDS <= point.Length
    {
      RowFits(q, iterations, m, point.Length);
    }
    for k := 0 to iterations
      invariant forall q :: 0 <= q < k ==>
                  (q * m + m) * WORDS <= point.Length &&
                  proofs[q] == Xor(old(proofs[q]), XorAll(RowSlots(point[..], q, m)))
      invariant forall q :: k <= q < proofs.Length ==> proofs[q] == old(proofs[q])
    {
      FoldRow(proofs, k, point, m);
    }
  }

  /** Row k of a buffer of `iterations` rows lies inside it. */
  lemma RowFits(k: nat, iterations: nat, m: nat, len: nat)
    requires k < iterations && iterations * m * WORDS <= len
    ensures (k * m + m) * WORDS <= len
  {
    MulLe(m, k + 1, iterations);
    MulLe(WORDS, (k + 1) * m, iterations * m);
  }

  /** A fold into a zeroed proof is the XOR of the row. */
  lemma FoldFromZero(row: seq<Big>)
    ensures Xor(Zero(WORDS), XorAll(row)) == XorAll(row)
  {
    XorZeroLeft(XorAll(row));
  }

  // ---------------------------------------------------------------------
  // wide_xor_array

  /** wide_xor_array(n, p) returns only once n, halved repeatedly with integer
      division, reaches 2; from 0 or 1 it recurses without end. */
  predicate HalvesToTwo(n: nat)
  {
    if n == 2 then true else if n < 2 then false else HalvesToTwo(n / 2)
  }

  /** The two most significant bits of n (n itself below 4). */
  function LeadingBits(n: nat): (r: nat)
    ensures r < 4
  {
    if n < 4 then n else LeadingBits(n / 2)
  }

  /** wide_xor_array returns exactly when n is written 10… in binary: 2, 4, 5,
      8–11, 16–23, … It diverges for 0, 1, 3, 6, 7, 12–15, … */
  lemma {:induction false} HalvesToTwoIffLeading10(n: nat)
    ensures HalvesToTwo(n) <==> LeadingBits(n) == 2
  {
    if n >= 4 {
      HalvesToTwoIffLeading10(n / 2);
    } else if n == 3 {
      assert !HalvesToTwo(1);
    }
  }

  /** wide_xor_array as written: n == 2 XORs the two points; otherwise n is
      halved and both halves of the HALVED length are folded, from p[0] and
      from p[n/2]. Task-group and sequential splitting compute the same value. */
  function WideXorArrayAsWritten(n: nat, p: seq<Big>): Big
    requires HalvesToTwo(n) && n <= |p|
    decreases n
  {
    if n == 2 then Xor(p[0], p[1])
    else
      var h := n / 2;
      Xor(WideXorArrayAsWritten(h, p), WideXorArrayAsWritten(h, p[h..]))
  }

  lemma XorAllPair(a: Big, b: Big)
    ensures XorAll([a, b]) == Xor(a, b)
  {
    assert [a, b][..1] == [a];
    XorAllSingle(a);
  }

  /** Growing a prefix by one point XORs that point in. */
  lemma XorAllPrefixNext(p: seq<Big>, n: nat)
    requires n < |p|
    ensures XorAll(p[..n + 1]) == Xor(XorAll(p[..n]), p[n])
  {
    assert p[..n + 1][..n] == p[..n];
  }

  /** Splitting a prefix of length n at h folds to the XOR of the two parts. */
  lemma XorAllSplit(p: seq<Big>, h: nat, n: nat)
    requires h <= n <= |p|
    ensures XorAll(p[..n]) == Xor(XorAll(p[..h]), XorAll(p[h..][..n - h]))
  {
    assert p[..n] == p[..h] + p[h..][..n - h];
    XorAllAppend(p[..h], p[h..][..n - h]);
  }

  /** For a power of two n >= 2 the halves tile the prefix, and wide_xor_array
      is the XOR of the first n points. */
  lemma {:induction false} AsWrittenPowerOfTwo(t: nat, p: seq<Big>)
    requires t >= 1 && Pow2(t) <= |p|
    ensures HalvesToTwo(Pow2(t))
    ensures WideXorArrayAsWritten(Pow2(t), p) == XorAll(p[..Pow2(t)])
  {
    var n := Pow2(t);
    if t == 1 {
      assert p[..2] == [p[0], p[1]];
      XorAllPair(p[0], p[1]);
    } else {
      var h := Pow2(t - 1);
      assert n == 2 * h && h >= 2 && n / 2 == h;
      AsWrittenPowerOfTwo(t - 1, p);
      AsWrittenPowerOfTwo(t - 1, p[h..]);
      assert WideXorArrayAsWritten(n, p)
          == Xor(WideXorArrayAsWritten(h, p), WideXorArrayAsWritten(h, p[h..]));
      XorAllSplit(p, h, n);
    }
  }

  /** With n = 5 it returns (5 halves to 2), folds p[0..2) and p[2..4), and
      never reads p[4]: the fifth point is left out of the proof. */
  lemma AsWrittenDropsFifth(p: seq<Big>)
    requires |p| >= 5
    ensures HalvesToTwo(5)
    ensures WideXorArrayAsWritten(5, p) == XorAll(p[..4])
    ensures p[4] != Zero(WORDS) ==> WideXorArrayAsWritten(5, p) != XorAll(p[..5])
  {
    assert HalvesToTwo(5) by {
      assert HalvesToTwo(2);
    }
    assert WideXorArrayAsWritten(5, p) == XorAll(p[..4]) by {
      assert Pow2(2) == 4;
      AsWrittenPowerOfTwo(2, p);
    }
    XorAllPrefixNext(p, 4);
    XorCancels(XorAll(p[..4]), p[4]);
  }

  /** a ^ x == a only for x == 0. */
  lemma XorCancels(a: Big, x: Big)
    ensures Xor(a, x) == a ==> x == Zero(WORDS)
  {
    if Xor(a, x) == a {
      calc {
        x;
        { XorZeroLeft(x); }
        Xor(Zero(WORDS), x);
        { XorSelfZero(a); }
        Xor(Xor(a, a), x);
        { XorAssoc(a, a, x); }
        Xor(a, Xor(a, x));
        Xor(a, a);
        { XorSelfZero(a); }
        Zero(WORDS);
      }
    }
  }

  /** The corrected fold: split n into n/2 and n - n/2, so every point is used
      for every n, including 0 and 1. */
  function WideXorTree(n: nat, p: seq<Big>): (r: Big)
    requires n <= |p|
    ensures r == XorAll(p[..n])
    decreases n
  {
    if n == 0 then Zero(WORDS)
    else if n == 1 then
      assert p[..1] == [p[0]] && [p[0]][..0] == [];
      XorZeroLeft(p[0]);
      p[0]
    else
      var h := n / 2;
      XorAllSplit(p, h, n);
      Xor(WideXorTree(h, p), WideXorTree(n - h, p[h..]))
  }

  /** Where the written function is correct, the corrected one agrees with it. */
  lemma TreeAgreesOnPowersOfTwo(t: nat, p: seq<Big>)
    requires t >= 1 && Pow2(t) <= |p|
    ensures HalvesToTwo(Pow2(t))
    ensures WideXorTree(Pow2(t), p) == WideXorArrayAsWritten(Pow2(t), p)
  {
    AsWrittenPowerOfTwo(t, p);
  }
}
