// The round parameters the miner reads and the hash step PoolHashStep: the
// three-call form wide_mul, wide_add of the high half, wide_add of the carry
// (src/bitecoin_miner_unwrap.cpp:80-86 and src/main.cpp:56-60).
module HashStep {
  import opened Wide

  /** 2^64 */
  const U64: nat := 0x1_0000_0000_0000_0000

  /** The fields of Packet_ServerBeginRound that MakeBid reads. chainHash is the
      64-bit FNV hash of chainData, which is computed outside this model. */
  datatype Round = Round(
    roundId: nat,
    roundSalt: nat,
    chainHash: nat,
    hashSteps: nat,
    maxIndices: nat,
    c: seq<Word>)

  /** The field widths of the packet: three uint64_t, two uint32_t, c[4]. */
  predicate ValidRound(r: Round)
  {
    r.roundId < U64 && r.roundSalt < U64 && r.chainHash < U64 &&
    r.hashSteps < BASE && r.maxIndices < BASE && |r.c| == 4
  }

  /** One hash step on a 256-bit point:
        wide_mul(4, tmp+4, tmp, point, c);
        carry = wide_add(4, point, tmp, point+4);
        wide_add(4, point+4, tmp+4, carry);
      The carry out of the last add is discarded. */
  function Step(x: Big, c: seq<Word>): Big
    requires |c| == 4
  {
    var tmp := Mul(x[..4], c);
    var (lo, carry) := Add(tmp[..4], x[4..]);
    var (hi, _) := AddWord(tmp[4..], carry);
    lo + hi
  }

  /** The carry the last wide_add of a step returns. */
  function StepFinalCarry(x: Big, c: seq<Word>): Word
    requires |c| == 4
  {
    var tmp := Mul(x[..4], c);
    var (lo, carry) := Add(tmp[..4], x[4..]);
    AddWord(tmp[4..], carry).1
  }

  /** `hashSteps` steps applied one after the other. */
  function Iterate(x: Big, c: seq<Word>, n: nat): Big
    requires |c| == 4
  {
    if n == 0 then x else Step(Iterate(x, c, n - 1), c)
  }

  lemma Pow4Is128Bits()
    ensures Pow(4) == 0x1_0000_0000_0000_0000_0000_0000_0000_0000
  {
    assert Pow(2) == BASE * BASE;
  }

  /** The largest possible lo(x)·c + hi(x) fits in 256 bits:
      (2^128 - 1)^2 + 2^128 - 1 < 2^256. */
  lemma NoTruncation(l: nat, c: nat, h: nat)
    requires l < Pow(4) && c < Pow(4) && h < Pow(4)
    ensures l * c + h < Pow(8)
  {
    var p := Pow(4);
    PowAdd(4, 4);
    MulLe(c, l, p - 1);
    MulLe(p - 1, c, p - 1);
    assert l * c <= (p - 1) * (p - 1);
    assert (p - 1) * (p - 1) + p - 1 == p * p - p;
  }

  /** One step computes lo(x)·c + hi(x) exactly, and the carry out of its last
      wide_add is always 0, so discarding it loses nothing. */
  lemma {:induction false} StepValue(x: Big, c: seq<Word>)
    requires |c| == 4
    ensures Value(Step(x, c)) == Value(x[..4]) * Value(c) + Value(x[4..])
    ensures StepFinalCarry(x, c) == 0
  {
    var tmp := Mul(x[..4], c);
    var (lo, carry) := Add(tmp[..4], x[4..]);
    var (hi, carry2) := AddWord(tmp[4..], carry);
    assert tmp == tmp[..4] + tmp[4..];
    ValueAppend(tmp[..4], tmp[4..]);
    ValueAppend(lo, hi);
    ValueBound(x[..4]);
    ValueBound(c);
    ValueBound(x[4..]);
    ValueBound(lo);
    ValueBound(hi);
    NoTruncation(Value(x[..4]), Value(c), Value(x[4..]));
    PowAdd(4, 4);
    StepArith(Value(x[..4]) * Value(c), Value(x[4..]), Value(tmp[..4]), Value(tmp[4..]),
              Value(lo), Value(hi), carry, carry2, Pow(4));
  }

  /** The arithmetic of one step: tmp = t0 + p·t1 is the product, lo + p·carry
      = t0 + h and hi + p·carry2 = t1 + carry are the two additions. When the
      exact result is below p², the last carry is 0 and lo + p·hi is exact. */
  lemma StepArith(prod: int, h: int, t0: int, t1: int, lo: int, hi: int,
                  carry: int, carry2: int, p: int)
    requires p > 0 && 0 <= lo < p && 0 <= hi < p && 0 <= carry2 <= 1
    requires t0 + p * t1 == prod && prod + h < p * p
    requires lo + carry * p == t0 + h && hi + carry2 * p == t1 + carry
    ensures carry2 == 0 && lo + p * hi == prod + h
  {
    assert p * hi == p * t1 + p * carry - p * (carry2 * p);
    assert lo + p * hi == prod + h - carry2 * (p * p);
  }

  /** One step from the point [1, 0, ..., 0] yields c in the low half and zeros
      in the high half: lo(x)·c + hi(x) = 1·c + 0. */
  lemma StepOfUnitPoint(c: seq<Word>)
    requires |c| == 4
    ensures Step([1, 0, 0, 0, 0, 0, 0, 0], c) == c + [0, 0, 0, 0]
  {
    var x: Big := [1, 0, 0, 0, 0, 0, 0, 0];
    var want: seq<Word> := c + [0, 0, 0, 0];
    StepValue(x, c);
    assert Value(x[..4]) == 1 by {
      assert x[..4] == [1] + [0, 0, 0];
      ValueAppend([1], [0, 0, 0]);
      assert [0, 0, 0] == Zero(3);
      ZeroValue(3);
    }
    assert Value(x[4..]) == 0 by {
      assert x[4..] == Zero(4);
      ZeroValue(4);
    }
    ValueAppend(c, [0, 0, 0, 0]);
    assert [0, 0, 0, 0] == Zero(4);
    ZeroValue(4);
    ValueInjective(Step(x, c), want);
  }

  /** The round constants of the test harness (src/main.cpp:150-153) with the
      point [1, 0, ..., 0]: one step returns the constants themselves. */
  lemma StepTestVector()
    ensures Step([1, 0, 0, 0, 0, 0, 0, 0], [4294964621, 4294967295, 3418534911, 2138916474])
         == [4294964621, 4294967295, 3418534911, 2138916474, 0, 0, 0, 0]
  {
    StepOfUnitPoint([4294964621, 4294967295, 3418534911, 2138916474]);
  }
}
