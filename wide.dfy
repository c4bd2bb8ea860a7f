// Fixed-width unsigned integers as little-endian sequences of 32-bit limbs
// (the bigint_t type and the wide_* primitives of bitecoin_protocol.hpp).
// bitecoin_protocol.hpp is not part of this model: each primitive is defined
// here by its usual meaning — limb 0 is least significant, additions and
// products are exact modulo 2^(32n), comparison is unsigned from the most
// significant limb down.
module Wide {

  /** 2^32: the radix of one limb. */
  const BASE: nat := 0x1_0000_0000

  /** uint32_t */
  type Word = w: int | 0 <= w < BASE

  /** BIGINT_WORDS: a bigint_t has 8 limbs (256 bits). */
  const WORDS: nat := 8

  /** bigint_t: 8 limbs, limb 0 least significant. */
  type Big = s: seq<Word> | |s| == WORDS witness [0, 0, 0, 0, 0, 0, 0, 0]

  /** BASE^n */
  function Pow(n: nat): (r: nat)
    ensures r >= 1
  {
    if n == 0 then 1 else BASE * Pow(n - 1)
  }

  /** The unsigned integer a limb sequence denotes. */
  function Value(s: seq<Word>): nat
  {
    if s == [] then 0 else s[0] + BASE * Value(s[1..])
  }

  /** The n-limb representation of v mod BASE^n. */
  function FromNat(v: nat, n: nat): (r: seq<Word>)
    ensures |r| == n
  {
    if n == 0 then [] else [v % BASE] + FromNat(v / BASE, n - 1)
  }

  lemma {:induction false} PowAdd(m: nat, n: nat)
    ensures Pow(m + n) == Pow(m) * Pow(n)
  {
    if m > 0 {
      PowAdd(m - 1, n);
      assert Pow(m + n) == BASE * Pow(m - 1 + n);
      assert BASE * (Pow(m - 1) * Pow(n)) == (BASE * Pow(m - 1)) * Pow(n);
    }
  }

  /** An n-limb sequence denotes a value below BASE^n. */
  lemma {:induction false} ValueBound(s: seq<Word>)
    ensures Value(s) < Pow(|s|)
  {
    if s != [] {
      ValueBound(s[1..]);
      assert Value(s[1..]) <= Pow(|s| - 1) - 1;
      assert BASE * Value(s[1..]) <= BASE * (Pow(|s| - 1) - 1);
    }
  }

  /** x + B(v + pw) == (x + Bv) + (Bp)w, with B left symbolic. */
  lemma Regroup(x: int, base: int, v: int, p: int, w: int)
    ensures x + base * (v + p * w) == (x + base * v) + (base * p) * w
  {
  }

  /** Concatenation puts the second part BASE^|a| higher. */
  lemma {:induction false} ValueAppend(a: seq<Word>, b: seq<Word>)
    ensures Value(a + b) == Value(a) + Pow(|a|) * Value(b)
  {
    if a != [] {
      assert (a + b)[1..] == a[1..] + b;
      ValueAppend(a[1..], b);
      Regroup(a[0], BASE, Value(a[1..]), Pow(|a| - 1), Value(b));
    } else {
      assert a + b == b;
    }
  }

  /** FromNat keeps exactly the low n limbs of v. */
  lemma {:induction false} ValueFromNat(v: nat, n: nat)
    ensures Value(FromNat(v, n)) == v % Pow(n)
  {
    if n > 0 {
      ValueFromNat(v / BASE, n - 1);
      var q := v / BASE;
      var p := Pow(n - 1);
      assert FromNat(v, n)[1..] == FromNat(q, n - 1);
      assert v == q * BASE + v % BASE;
      assert q == (q / p) * p + q % p;
      assert v == (q / p) * (BASE * p) + (BASE * (q % p) + v % BASE) by {
        assert q * BASE == ((q / p) * p + q % p) * BASE;
      }
      assert BASE * (q % p) + v % BASE < BASE * p by {
        assert q % p <= p - 1;
        assert BASE * (q % p) <= BASE * (p - 1);
      }
      DivModUnique(v, BASE * p, q / p, BASE * (q % p) + v % BASE);
    }
  }

  /** Euclidean division is unique. */
  lemma DivModUnique(v: int, d: int, q: int, r: int)
    requires d > 0 && 0 <= r < d && v == q * d + r
    ensures v / d == q && v % d == r
  {
    var q0, r0 := v / d, v % d;
    assert v == q0 * d + r0;
    if q0 < q {
      MulStep(d, q0, q);
    } else if q < q0 {
      MulStep(d, q, q0);
    }
  }

  /** A limb sequence is the representation of its own value. */
  lemma {:induction false} FromNatValue(s: seq<Word>)
    ensures FromNat(Value(s), |s|) == s
  {
    if s != [] {
      var v := Value(s);
      DivModUnique(v, BASE, Value(s[1..]), s[0]);
      FromNatValue(s[1..]);
    }
  }

  /** Two limb sequences of one length are equal when their values are. */
  lemma ValueInjective(a: seq<Word>, b: seq<Word>)
    requires |a| == |b| && Value(a) == Value(b)
    ensures a == b
  {
    FromNatValue(a);
    FromNatValue(b);
  }

  // ---------------------------------------------------------------------
  // wide_zero, wide_ones, wide_copy

  /** wide_zero(n, r): every limb 0. */
  function Zero(n: nat): (r: seq<Word>)
    ensures |r| == n
  {
    seq(n, _ => 0)
  }

  /** wide_ones(n, r): every limb 0xFFFFFFFF. */
  function Ones(n: nat): (r: seq<Word>)
    ensures |r| == n
  {
    seq(n, _ => BASE - 1)
  }

  lemma {:induction false} ZeroValue(n: nat)
    ensures Value(Zero(n)) == 0
  {
    if n > 0 {
      assert Zero(n)[1..] == Zero(n - 1);
      ZeroValue(n - 1);
    }
  }

  /** All-ones is the largest n-limb value, BASE^n - 1. */
  lemma {:induction false} OnesValue(n: nat)
    ensures Value(Ones(n)) == Pow(n) - 1
  {
    if n > 0 {
      assert Ones(n)[1..] == Ones(n - 1);
      OnesValue(n - 1);
    }
  }

  // ---------------------------------------------------------------------
  // wide_xor: limb-wise exclusive or

  /** 2^k */
  function Pow2(k: nat): (r: nat)
    ensures r >= 1
  {
    if k == 0 then 1 else 2 * Pow2(k - 1)
  }

  /** The exclusive or of the low `width` bits of a and b, bit by bit. */
  function BitXor(a: nat, b: nat, width: nat): (r: nat)
    ensures r < Pow2(width)
  {
    if width == 0 then 0 else 2 * BitXor(a / 2, b / 2, width - 1) + (a + b) % 2
  }

  lemma {:induction false} Pow2Add(m: nat, n: nat)
    ensures Pow2(m + n) == Pow2(m) * Pow2(n)
  {
    if m > 0 {
      Pow2Add(m - 1, n);
      assert Pow2(m + n) == 2 * Pow2(m - 1 + n);
    }
  }

  lemma Pow2Is32Bits()
    ensures Pow2(32) == BASE
  {
    assert Pow2(2) == 4;
    Pow2Add(2, 2);
    Pow2Add(4, 4);
    Pow2Add(8, 8);
    Pow2Add(16, 16);
  }

  /** uint32_t ^ uint32_t */
  function WordXor(a: Word, b: Word): Word
  {
    Pow2Is32Bits();
    BitXor(a, b, 32)
  }

  lemma {:induction false} BitXorComm(a: nat, b: nat, w: nat)
    ensures BitXor(a, b, w) == BitXor(b, a, w)
  {
    if w > 0 { BitXorComm(a / 2, b / 2, w - 1); }
  }

  lemma {:induction false} BitXorAssoc(a: nat, b: nat, c: nat, w: nat)
    ensures BitXor(BitXor(a, b, w), c, w) == BitXor(a, BitXor(b, c, w), w)
  {
    if w > 0 {
      var ab, bc := BitXor(a, b, w), BitXor(b, c, w);
      BitXorHalves(a, b, w);
      BitXorHalves(b, c, w);
      BitXorAssoc(a / 2, b / 2, c / 2, w - 1);
      BitXorHalves(ab, c, w);
      BitXorHalves(a, bc, w);
      ParityShift(a, b, c, ab, bc);
      HalvesDetermine(BitXor(ab, c, w), BitXor(a, bc, w));
    }
  }

  /** The top bits and the low bit of a ^ b, read back. */
  lemma BitXorHalves(a: nat, b: nat, w: nat)
    requires w > 0
    ensures BitXor(a, b, w) / 2 == BitXor(a / 2, b / 2, w - 1)
    ensures BitXor(a, b, w) % 2 == (a + b) % 2
  {
  }

  /** A number is determined by its top bits and its low bit. */
  lemma HalvesDetermine(x: nat, y: nat)
    requires x / 2 == y / 2 && x % 2 == y % 2
    ensures x == y
  {
  }

  /** The low bit of a ^ b ^ c does not depend on the grouping. */
  lemma ParityShift(a: nat, b: nat, c: nat, ab: nat, bc: nat)
    requires ab % 2 == (a + b) % 2 && bc % 2 == (b + c) % 2
    ensures (ab + c) % 2 == (a + bc) % 2
  {
    assert ab == 2 * (ab / 2) + (a + b) % 2;
    assert bc == 2 * (bc / 2) + (b + c) % 2;
    assert a + b == 2 * ((a + b) / 2) + (a + b) % 2;
    assert b + c == 2 * ((b + c) / 2) + (b + c) % 2;
    var k := ab / 2 - (a + b) / 2 - bc / 2 + (b + c) / 2;
    assert ab + c - (a + bc) == 2 * k;
  }

  /** x ^ 0 == x for every x of the width. */
  lemma {:induction false} BitXorZero(a: nat, w: nat)
    requires a < Pow2(w)
    ensures BitXor(a, 0, w) == a
  {
    if w > 0 { BitXorZero(a / 2, w - 1); }
  }

  /** x ^ x == 0 */
  lemma {:induction false} BitXorSelf(a: nat, w: nat)
    ensures BitXor(a, a, w) == 0
  {
    if w > 0 { BitXorSelf(a / 2, w - 1); }
  }

  /** wide_xor(n, r, a, b): r[i] = a[i] ^ b[i] for every limb. */
  function Xor(a: seq<Word>, b: seq<Word>): (r: seq<Word>)
    requires |a| == |b|
    ensures |r| == |a|
  {
    seq(|a|, i requires 0 <= i < |a| => WordXor(a[i], b[i]))
  }

  lemma XorComm(a: seq<Word>, b: seq<Word>)
    requires |a| == |b|
    ensures Xor(a, b) == Xor(b, a)
  {
    forall i | 0 <= i < |a| ensures Xor(a, b)[i] == Xor(b, a)[i] {
      BitXorComm(a[i], b[i], 32);
    }
  }

  lemma XorAssoc(a: seq<Word>, b: seq<Word>, c: seq<Word>)
    requires |a| == |b| == |c|
    ensures Xor(Xor(a, b), c) == Xor(a, Xor(b, c))
  {
    forall i | 0 <= i < |a| ensures Xor(Xor(a, b), c)[i] == Xor(a, Xor(b, c))[i] {
      BitXorAssoc(a[i], b[i], c[i], 32);
    }
  }

  /** Zero is the identity of wide_xor. */
  lemma XorZeroRight(a: seq<Word>)
    ensures Xor(a, Zero(|a|)) == a
  {
    forall i | 0 <= i < |a| ensures Xor(a, Zero(|a|))[i] == a[i] {
      Pow2Is32Bits();
      BitXorZero(a[i], 32);
    }
  }

  /** Every value is its own wide_xor inverse. */
  lemma XorSelfZero(a: seq<Word>)
    ensures Xor(a, a) == Zero(|a|)
  {
    forall i | 0 <= i < |a| ensures Xor(a, a)[i] == 0 {
      BitXorSelf(a[i], 32);
    }
  }

  // ---------------------------------------------------------------------
  // wide_compare

  /** wide_compare(n, a, b): -1, 0 or 1, deciding at the most significant
      limb where a and b differ. */
  function Compare(a: seq<Word>, b: seq<Word>): (r: int)
    requires |a| == |b|
    ensures -1 <= r <= 1
    ensures r < 0 <==> Value(a) < Value(b)
    ensures r == 0 <==> a == b
    ensures r > 0 <==> Value(a) > Value(b)
  {
    if |a| == 0 then 0
    else
      var n := |a| - 1;
      if a[n] < b[n] then
        TopLimbDecides(a, b);
        -1
      else if a[n] > b[n] then
        TopLimbDecides(b, a);
        1
      else
        var r := Compare(a[..n], b[..n]);
        ValueSnoc(a);
        ValueSnoc(b);
        assert a == a[..n] + [a[n]] && b == b[..n] + [b[n]];
        r
  }

  /** The top limb carries weight BASE^(n-1). */
  lemma ValueSnoc(s: seq<Word>)
    requires |s| > 0
    ensures Value(s) == Value(s[..|s| - 1]) + Pow(|s| - 1) * s[|s| - 1]
  {
    var n := |s| - 1;
    assert s == s[..n] + [s[n]];
    ValueAppend(s[..n], [s[n]]);
    assert Value([s[n]]) == s[n] + BASE * Value([]);
  }

  /** Between two equally long values, a smaller top limb means a smaller value. */
  lemma TopLimbDecides(a: seq<Word>, b: seq<Word>)
    requires |a| == |b| > 0 && a[|a| - 1] < b[|b| - 1]
    ensures Value(a) < Value(b)
  {
    var n := |a| - 1;
    ValueSnoc(a);
    ValueSnoc(b);
    ValueBound(a[..n]);
    MulStep(Pow(n), a[n], b[n]);
  }

  /** wide_compare(...) < 0 is strict unsigned less-than. */
  predicate Less(a: Big, b: Big)
  {
    Compare(a, b) < 0
  }

  // ---------------------------------------------------------------------
  // wide_add and wide_mul

  /** wide_add(n, r, a, b): r = (a + b) mod BASE^n; the carry out is returned. */
  function Add(a: seq<Word>, b: seq<Word>): (r: (seq<Word>, Word))
    requires |a| == |b|
    ensures |r.0| == |a|
    ensures Value(r.0) + r.1 * Pow(|a|) == Value(a) + Value(b)
  {
    ValueBound(a);
    ValueBound(b);
    SumWithCarry(Value(a) + Value(b), |a|)
  }

  /** wide_add(n, r, a, b) with a scalar b: r = (a + b) mod BASE^n, carry out returned. */
  function AddWord(a: seq<Word>, b: Word): (r: (seq<Word>, Word))
    requires |a| >= 1
    ensures |r.0| == |a|
    ensures Value(r.0) + r.1 * Pow(|a|) == Value(a) + b
  {
    ValueBound(a);
    assert Pow(|a|) == BASE * Pow(|a| - 1);
    SumWithCarry(Value(a) + b, |a|)
  }

  /** The 64-bit overload of wide_add(n, r, a, b): b is spread over two limbs. */
  function AddU64(a: seq<Word>, b: nat): (r: (seq<Word>, Word))
    requires |a| >= 2 && b < BASE * BASE
    ensures |r.0| == |a|
    ensures Value(r.0) + r.1 * Pow(|a|) == Value(a) + b
  {
    ValueBound(a);
    PowAdd(2, |a| - 2);
    assert Pow(2) == BASE * BASE;
    SumWithCarry(Value(a) + b, |a|)
  }

  /** An n-limb sum below 2 BASE^n split into its n limbs and the carry out. */
  function SumWithCarry(s: nat, n: nat): (r: (seq<Word>, Word))
    requires s < 2 * Pow(n)
    ensures |r.0| == n && r.1 <= 1
    ensures Value(r.0) + r.1 * Pow(n) == s
  {
    var carry := if s < Pow(n) then 0 else 1;
    DivModUnique(s, Pow(n), carry, s - carry * Pow(n));
    ValueFromNat(s, n);
    (FromNat(s, n), carry)
  }

  /** wide_mul(n, hi, lo, a, b): the full 2n-limb product, lo ++ hi. */
  function Mul(a: seq<Word>, b: seq<Word>): (r: seq<Word>)
    requires |a| == |b|
    ensures |r| == 2 * |a|
    ensures Value(r) == Value(a) * Value(b)
  {
    var n := |a|;
    ValueBound(a);
    ValueBound(b);
    PowAdd(n, n);
    MulLess(Value(a), Value(b), Pow(n));
    assert n + n == 2 * n;
    DivModUnique(Value(a) * Value(b), Pow(2 * n), 0, Value(a) * Value(b));
    ValueFromNat(Value(a) * Value(b), 2 * n);
    FromNat(Value(a) * Value(b), 2 * n)
  }

  lemma MulLe(p: int, x: int, y: int)
    requires p >= 0 && x <= y
    ensures p * x <= p * y
  {
  }

  /** (b + 1)·n == b·n + n */
  lemma MulSucc(b: int, n: int)
    ensures (b + 1) * n == b * n + n
  {
  }

  lemma MulStep(p: int, x: int, y: int)
    requires p >= 0 && x < y
    ensures p * x + p <= p * y
  {
    assert p * y - p * x == p * (y - x);
    MulLe(p, 1, y - x);
  }

  lemma MulLess(x: nat, y: nat, p: nat)
    requires x < p && y < p
    ensures x * y < p * p
  {
    assert x * y <= x * p;
    assert x * p < p * p;
  }
}
