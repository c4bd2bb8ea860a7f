// The starting point ("seed") of a candidate index, in the two layouts the
// miners use: the wide_add layout of src/bitecoin_miner_unwrap.cpp:72-77 and
// the duplicated-low-word template of every other variant
// (e.g. src/bitecoin_miner_kernel_seq.cpp:93-101, src/bitecoin_miner_v2.cpp:55-62).
module Seed {
  import opened Wide
  import opened HashStep

  /** v & 0xFFFFFFFF */
  function Low32(v: nat): Word
  {
    v % BASE
  }

  /** The upper 32 bits of a 64-bit value. */
  function High32(v: nat): Word
    requires v < U64
  {
    v / BASE
  }

  /** A 64-bit value as two limbs, low limb first. */
  function Split64(v: nat): (r: seq<Word>)
    requires v < U64
    ensures |r| == 2 && Value(r) == v
  {
    assert Value([High32(v)]) == High32(v) + BASE * Value([]);
    [Low32(v), High32(v)]
  }

  /** The template: limbs 0-1 zero, then the low 32 bits of roundId, roundSalt
      and chainHash, each written into two limbs. */
  function Template(r: Round): Big
  {
    [0, 0, Low32(r.roundId), Low32(r.roundId), Low32(r.roundSalt), Low32(r.roundSalt),
     Low32(r.chainHash), Low32(r.chainHash)]
  }

  /** temp.limbs[0] = index; point = temp: only limb 0 of the template changes. */
  function FromTemplate(temp: Big, index: Word): (r: Big)
    ensures r[0] == index && r[1..] == temp[1..]
  {
    temp[0 := index]
  }

  /** The seed of the unwrap variant: wide_zero, then wide_add of the index at
      limb 0, of roundId at limb 2, of roundSalt at limb 4 and of chainHash at
      limb 6, each into the limbs from that offset to the top. */
  function WideAddSeed(index: Word, r: Round): Big
    requires ValidRound(r)
  {
    var p0 := Zero(WORDS);
    var p1 := AddWord(p0, index).0;
    var p2 := p1[..2] + AddU64(p1[2..], r.roundId).0;
    var p3 := p2[..4] + AddU64(p2[4..], r.roundSalt).0;
    p3[..6] + AddU64(p3[6..], r.chainHash).0
  }

  /** wide_add of a word into zeros: the word lands in limb 0, no carry. */
  lemma AddWordToZero(n: nat, w: Word)
    requires n >= 1
    ensures AddWord(Zero(n), w) == ([w] + Zero(n - 1), 0)
  {
    var (s, carry) := AddWord(Zero(n), w);
    ZeroValue(n);
    ZeroValue(n - 1);
    ValueAppend([w], Zero(n - 1));
    assert Value([w]) == w + BASE * Value([]);
    assert Pow(n) == BASE * Pow(n - 1);
    ValueInjective(s, [w] + Zero(n - 1));
  }

  /** 64-bit wide_add into zeros: the value lands in the two lowest limbs, no carry. */
  lemma AddU64ToZero(n: nat, v: nat)
    requires n >= 2 && v < U64
    ensures AddU64(Zero(n), v) == (Split64(v) + Zero(n - 2), 0)
  {
    var (s, carry) := AddU64(Zero(n), v);
    ZeroValue(n);
    ZeroValue(n - 2);
    ValueAppend(Split64(v), Zero(n - 2));
    PowAdd(2, n - 2);
    assert Pow(2) == U64;
    ValueInjective(s, Split64(v) + Zero(n - 2));
  }

  /** The wide_add seed, limb by limb: [index, 0, roundId, roundSalt, chainHash]
      with each 64-bit field split low word first. No add carries into the
      next field, because the limbs it adds into are still zero (the carries
      are 0 in AddWordToZero and AddU64ToZero). */
  lemma WideAddSeedLimbs(index: Word, r: Round)
    requires ValidRound(r)
    ensures WideAddSeed(index, r)
         == [index, 0] + Split64(r.roundId) + Split64(r.roundSalt) + Split64(r.chainHash)
  {
    var p1 := AddWord(Zero(WORDS), index).0;
    assert p1 == [index] + Zero(7) by {
      AddWordToZero(WORDS, index);
    }
    assert p1[2..] == Zero(6);
    var p2 := p1[..2] + AddU64(p1[2..], r.roundId).0;
    assert p2 == [index, 0] + Split64(r.roundId) + Zero(4) by {
      AddU64ToZero(6, r.roundId);
    }
    assert p2[4..] == Zero(4);
    var p3 := p2[..4] + AddU64(p2[4..], r.roundSalt).0;
    assert p3 == [index, 0] + Split64(r.roundId) + Split64(r.roundSalt) + Zero(2) by {
      AddU64ToZero(4, r.roundSalt);
    }
    assert p3[6..] == Zero(2);
    assert AddU64(p3[6..], r.chainHash).0 == Split64(r.chainHash) by {
      AddU64ToZero(2, r.chainHash);
    }
    assert WideAddSeed(index, r) == p3[..6] + AddU64(p3[6..], r.chainHash).0;
  }

  /** The wide_add seed is index + roundId·2^64 + roundSalt·2^128 + chainHash·2^192,
      exactly: the sum is below 2^256, so nothing wraps. */
  lemma WideAddSeedValue(index: Word, r: Round)
    requires ValidRound(r)
    ensures Value(WideAddSeed(index, r))
         == index + r.roundId * Pow(2) + r.roundSalt * Pow(4) + r.chainHash * Pow(6)
  {
    WideAddSeedLimbs(index, r);
    var lowPart: seq<Word> := [index, 0];
    var a, b, c := Split64(r.roundId), Split64(r.roundSalt), Split64(r.chainHash);
    assert Value(lowPart) == index by {
      assert Value([0]) == 0 + BASE * Value([]);
    }
    ValueAppend(lowPart + a + b, c);
    ValueAppend(lowPart + a, b);
    ValueAppend(lowPart, a);
    PowAdd(2, 2);
    PowAdd(4, 2);
  }

  /** The two layouts agree exactly when each 64-bit field has equal upper and
      lower words; the template keeps only the lower word of each field. */
  lemma LayoutsAgree(index: Word, r: Round)
    requires ValidRound(r)
    ensures WideAddSeed(index, r) == FromTemplate(Template(r), index)
        <==> (High32(r.roundId) == Low32(r.roundId) && High32(r.roundSalt) == Low32(r.roundSalt)
              && High32(r.chainHash) == Low32(r.chainHash))
  {
    WideAddSeedLimbs(index, r);
    var w := WideAddSeed(index, r);
    var t := FromTemplate(Template(r), index);
    assert w[3] == High32(r.roundId) && t[3] == Low32(r.roundId);
    assert w[5] == High32(r.roundSalt) && t[5] == Low32(r.roundSalt);
    assert w[7] == High32(r.chainHash) && t[7] == Low32(r.chainHash);
  }

  /** In particular they agree when all three fields are below 2^32 and equal to 0. */
  lemma LayoutsAgreeOnZeroFields(index: Word, r: Round)
    requires ValidRound(r) && r.roundId == 0 && r.roundSalt == 0 && r.chainHash == 0
    ensures WideAddSeed(index, r) == FromTemplate(Template(r), index)
  {
    LayoutsAgree(index, r);
  }

  /** ...and they differ as soon as a field uses its upper word differently,
      e.g. roundId = 1: the wide_add layout has limb 3 = 0, the template 1. */
  lemma LayoutsDifferOnSmallId(index: Word, r: Round)
    requires ValidRound(r) && r.roundId == 1
    ensures WideAddSeed(index, r) != FromTemplate(Template(r), index)
  {
    LayoutsAgree(index, r);
  }
}
