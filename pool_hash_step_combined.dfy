// PoolHashStepCombined (src/PoolHashStepCombined.cpp): the hash step as one
// pass of column multiplication. Column col gathers every product
// x[j]·c[col-j]; a 64-bit accumulator `acc` with an overflow counter `carry`
// holds the running column sum, and `carryy` carries the addition of the
// high half hi(x) into columns 0..3 and on through columns 4..7.
// The method is proved to give bit for bit the result of the three-call
// step HashStep.Step, so no carry is dropped.
module Combined {
  import opened Wide
  import opened HashStep

  /** The largest product of two limbs, (2^32 - 1)^2. */
  const MAX_PRODUCT: nat := 0xFFFF_FFFE_0000_0001

  /** The first j with a product x[j]·c[col-j] in column col (both indices <= 3). */
  function Lowest(col: nat): nat
  {
    if col <= 3 then 0 else col - 3
  }

  /** The sum of x[j]·c[col-j] for Lowest(col) <= j < to. */
  function ColumnTerms(x: seq<Word>, c: seq<Word>, col: nat, to: nat): nat
    requires |x| >= 4 && |c| == 4 && to <= 4 && to <= col + 1
  {
    if to <= Lowest(col) then 0
    else ColumnTerms(x, c, col, to - 1) + (x[to - 1] as int) * c[col - (to - 1)]
  }

  /** Column col of the 4x4-limb product: every x[j]·c[t] with j + t == col. */
  function Column(x: seq<Word>, c: seq<Word>, col: nat): nat
    requires |x| >= 4 && |c| == 4 && col <= 6
  {
    ColumnTerms(x, c, col, if col <= 3 then col + 1 else 4)
  }

  /** The first n columns, each weighted by BASE^col. */
  function Columns(x: seq<Word>, c: seq<Word>, n: nat): nat
    requires |x| >= 4 && |c| == 4 && n <= 7
  {
    if n == 0 then 0 else Columns(x, c, n - 1) + Column(x, c, n - 1) * Pow(n - 1)
  }

  lemma WordProduct(a: Word, b: Word)
    ensures a * b <= MAX_PRODUCT
  {
    MulLe(a, b, BASE - 1);
    MulLe(BASE - 1, a, BASE - 1);
  }

  /** A partial column holds at most one maximal product per term. */
  lemma {:induction false} ColumnTermsBound(x: seq<Word>, c: seq<Word>, col: nat, to: nat)
    requires |x| >= 4 && |c| == 4 && to <= 4 && to <= col + 1
    ensures ColumnTerms(x, c, col, to) <= (if to <= Lowest(col) then 0 else to - Lowest(col)) * MAX_PRODUCT
  {
    if to > Lowest(col) {
      ColumnTermsBound(x, c, col, to - 1);
      WordProduct(x[to - 1], c[col - (to - 1)]);
    }
  }

  lemma Value4(s: seq<Word>)
    requires |s| == 4
    ensures Value(s) == s[0] + BASE * (s[1] + BASE * (s[2] + BASE * s[3]))
  {
    assert s[1..][1..] == s[2..];
    assert s[2..][1..] == s[3..];
    assert s[3..][1..] == [];
    assert Value(s[3..]) == s[3];
    assert Value(s[2..]) == s[2] + BASE * Value(s[3..]);
    assert Value(s[1..]) == s[1] + BASE * Value(s[2..]);
  }

  lemma Distribute(a: int, c0: int, c1: int, c2: int, c3: int)
    ensures a * (c0 + BASE * (c1 + BASE * (c2 + BASE * c3)))
         == a * c0 + BASE * (a * c1 + BASE * (a * c2 + BASE * (a * c3)))
  {
  }

  /** Schoolbook multiplication of two 4-limb numbers grouped by column. */
  lemma ProductByColumns(x0: int, x1: int, x2: int, x3: int, c0: int, c1: int, c2: int, c3: int)
    ensures (x0 + BASE * (x1 + BASE * (x2 + BASE * x3))) * (c0 + BASE * (c1 + BASE * (c2 + BASE * c3)))
         == x0 * c0 + BASE * ((x0 * c1 + x1 * c0) + BASE * ((x0 * c2 + x1 * c1 + x2 * c0)
            + BASE * ((x0 * c3 + x1 * c2 + x2 * c1 + x3 * c0) + BASE * ((x1 * c3 + x2 * c2 + x3 * c1)
            + BASE * ((x2 * c3 + x3 * c2) + BASE * (x3 * c3))))))
  {
    var cv := c0 + BASE * (c1 + BASE * (c2 + BASE * c3));
    var h2 := x2 + BASE * x3;
    var h1 := x1 + BASE * h2;
    assert (x0 + BASE * h1) * cv == x0 * cv + BASE * (h1 * cv);
    assert h1 * cv == x1 * cv + BASE * (h2 * cv);
    assert h2 * cv == x2 * cv + BASE * (x3 * cv);
    Distribute(x0, c0, c1, c2, c3);
    Distribute(x1, c0, c1, c2, c3);
    Distribute(x2, c0, c1, c2, c3);
    Distribute(x3, c0, c1, c2, c3);
  }

  /** The column sums, read as digits, make the product of the two numbers. */
  lemma ColumnSumsMultiply(vx: int, vc: int, cols: int,
                           x0: int, x1: int, x2: int, x3: int, c0: int, c1: int, c2: int, c3: int)
    requires vx == x0 + BASE * (x1 + BASE * (x2 + BASE * x3))
    requires vc == c0 + BASE * (c1 + BASE * (c2 + BASE * c3))
    requires cols == x0 * c0 + BASE * ((x0 * c1 + x1 * c0) + BASE * ((x0 * c2 + x1 * c1 + x2 * c0)
            + BASE * ((x0 * c3 + x1 * c2 + x2 * c1 + x3 * c0) + BASE * ((x1 * c3 + x2 * c2 + x3 * c1)
            + BASE * ((x2 * c3 + x3 * c2) + BASE * (x3 * c3))))))
    ensures cols == vx * vc
  {
    ProductByColumns(x0, x1, x2, x3, c0, c1, c2, c3);
  }

  /** Every product x[j]·c[t], j, t in 0..3, lands exactly once, in column j + t:
      the seven columns add up to lo(x)·c. */
  lemma ColumnsAreProduct(x: seq<Word>, c: seq<Word>)
    requires |x| >= 4 && |c| == 4
    ensures Columns(x, c, 7) == Value(x[..4]) * Value(c)
  {
    var x0: int, x1: int, x2: int, x3: int := x[0], x[1], x[2], x[3];
    var c0: int, c1: int, c2: int, c3: int := c[0], c[1], c[2], c[3];
    var vx, vc, cols := Value(x[..4]), Value(c), Columns(x, c, 7);
    assert vx == x0 + BASE * (x1 + BASE * (x2 + BASE * x3)) by {
      Value4(x[..4]);
    }
    assert vc == c0 + BASE * (c1 + BASE * (c2 + BASE * c3)) by {
      Value4(c);
    }
    assert cols == x0 * c0 + BASE * ((x0 * c1 + x1 * c0) + BASE * ((x0 * c2 + x1 * c1 + x2 * c0)
            + BASE * ((x0 * c3 + x1 * c2 + x2 * c1 + x3 * c0) + BASE * ((x1 * c3 + x2 * c2 + x3 * c1)
            + BASE * ((x2 * c3 + x3 * c2) + BASE * (x3 * c3)))))) by {
      ColumnsHorner(x, c);
      ColumnFormulas(x, c);
    }
    ColumnSumsMultiply(vx, vc, cols, x0, x1, x2, x3, c0, c1, c2, c3);
  }

  /** The seven columns written out. */
  lemma ColumnFormulas(x: seq<Word>, c: seq<Word>)
    requires |x| >= 4 && |c| == 4
    ensures Column(x, c, 0) == (x[0] as int) * c[0]
    ensures Column(x, c, 1) == (x[0] as int) * c[1] + (x[1] as int) * c[0]
    ensures Column(x, c, 2) == (x[0] as int) * c[2] + (x[1] as int) * c[1] + (x[2] as int) * c[0]
    ensures Column(x, c, 3) == (x[0] as int) * c[3] + (x[1] as int) * c[2] + (x[2] as int) * c[1] + (x[3] as int) * c[0]
    ensures Column(x, c, 4) == (x[1] as int) * c[3] + (x[2] as int) * c[2] + (x[3] as int) * c[1]
    ensures Column(x, c, 5) == (x[2] as int) * c[3] + (x[3] as int) * c[2]
    ensures Column(x, c, 6) == (x[3] as int) * c[3]
  {
    assert ColumnTerms(x, c, 0, 0) == 0;
    assert ColumnTerms(x, c, 0, 1) == ColumnTerms(x, c, 0, 0) + (x[0] as int) * c[0];
    assert ColumnTerms(x, c, 1, 0) == 0;
    assert ColumnTerms(x, c, 1, 1) == ColumnTerms(x, c, 1, 0) + (x[0] as int) * c[1];
    assert ColumnTerms(x, c, 1, 2) == ColumnTerms(x, c, 1, 1) + (x[1] as int) * c[0];
    assert ColumnTerms(x, c, 2, 0) == 0;
    assert ColumnTerms(x, c, 2, 1) == ColumnTerms(x, c, 2, 0) + (x[0] as int) * c[2];
    assert ColumnTerms(x, c, 2, 2) == ColumnTerms(x, c, 2, 1) + (x[1] as int) * c[1];
    assert ColumnTerms(x, c, 2, 3) == ColumnTerms(x, c, 2, 2) + (x[2] as int) * c[0];
    assert ColumnTerms(x, c, 3, 0) == 0;
    assert ColumnTerms(x, c, 3, 1) == ColumnTerms(x, c, 3, 0) + (x[0] as int) * c[3];
    assert ColumnTerms(x, c, 3, 2) == ColumnTerms(x, c, 3, 1) + (x[1] as int) * c[2];
    assert ColumnTerms(x, c, 3, 3) == ColumnTerms(x, c, 3, 2) + (x[2] as int) * c[1];
    assert ColumnTerms(x, c, 3, 4) == ColumnTerms(x, c, 3, 3) + (x[3] as int) * c[0];
    assert ColumnTerms(x, c, 4, 1) == 0;
    assert ColumnTerms(x, c, 4, 2) == ColumnTerms(x, c, 4, 1) + (x[1] as int) * c[3];
    assert ColumnTerms(x, c, 4, 3) == ColumnTerms(x, c, 4, 2) + (x[2] as int) * c[2];
    assert ColumnTerms(x, c, 4, 4) == ColumnTerms(x, c, 4, 3) + (x[3] as int) * c[1];
    assert ColumnTerms(x, c, 5, 2) == 0;
    assert ColumnTerms(x, c, 5, 3) == ColumnTerms(x, c, 5, 2) + (x[2] as int) * c[3];
    assert ColumnTerms(x, c, 5, 4) == ColumnTerms(x, c, 5, 3) + (x[3] as int) * c[2];
    assert ColumnTerms(x, c, 6, 3) == 0;
    assert ColumnTerms(x, c, 6, 4) == ColumnTerms(x, c, 6, 3) + (x[3] as int) * c[3];
  }

  lemma PowLiterals()
    ensures Pow(1) == 0x1_0000_0000
    ensures Pow(2) == 0x1_0000_0000_0000_0000
    ensures Pow(3) == 0x1_0000_0000_0000_0000_0000_0000
    ensures Pow(4) == 0x1_0000_0000_0000_0000_0000_0000_0000_0000
    ensures Pow(5) == 0x1_0000_0000_0000_0000_0000_0000_0000_0000_0000_0000
    ensures Pow(6) == 0x1_0000_0000_0000_0000_0000_0000_0000_0000_0000_0000_0000_0000
  {
    assert Pow(1) == BASE * Pow(0);
    assert Pow(2) == BASE * Pow(1);
    assert Pow(3) == BASE * Pow(2);
    assert Pow(4) == BASE * Pow(3);
    assert Pow(5) == BASE * Pow(4);
    assert Pow(6) == BASE * Pow(5);
  }

  /** The weighted column sum in nested form. */
  lemma ColumnsHorner(x: seq<Word>, c: seq<Word>)
    requires |x| >= 4 && |c| == 4
    ensures Columns(x, c, 7) == Column(x, c, 0) + BASE * (Column(x, c, 1) + BASE * (Column(x, c, 2)
      + BASE * (Column(x, c, 3) + BASE * (Column(x, c, 4) + BASE * (Column(x, c, 5) + BASE * Column(x, c, 6))))))
  {
    PowLiterals();
    var k0, k1, k2, k3, k4, k5, k6 := Column(x, c, 0), Column(x, c, 1), Column(x, c, 2),
      Column(x, c, 3), Column(x, c, 4), Column(x, c, 5), Column(x, c, 6);
    assert Columns(x, c, 1) == k0;
    assert Columns(x, c, 2) == Columns(x, c, 1) + k1 * Pow(1);
    assert Columns(x, c, 3) == Columns(x, c, 2) + k2 * Pow(2);
    assert Columns(x, c, 4) == Columns(x, c, 3) + k3 * Pow(3);
    assert Columns(x, c, 5) == Columns(x, c, 4) + k4 * Pow(4);
    assert Columns(x, c, 6) == Columns(x, c, 5) + k5 * Pow(5);
    assert Columns(x, c, 7) == Columns(x, c, 6) + k6 * Pow(6);
  }
  /** acc += temp in uint64_t, with the overflow test `acc < temp` after it:
      the test holds exactly when the true sum reached 2^64. */
  lemma OverflowTest(acc: nat, temp: nat)
    requires acc < U64 && temp <= MAX_PRODUCT
    ensures var sum := (acc + temp) % U64;
      (sum < temp <==> acc + temp >= U64) &&
      sum + (if sum < temp then U64 else 0) == acc + temp
  {
  }

  /** Closing a column: with v = carry·2^64 + acc the column's exact sum,
      (carry<<32) | (acc>>32) is v / 2^32 (the two parts occupy disjoint bits),
      acc & 0xFFFFFFFF is v mod 2^32, carry>>32 is 0, and the new acc stays
      below 4·2^32 because a column holds at most four limb products. */
  lemma CloseColumn(start: nat, terms: nat, carry: nat, acc: nat)
    requires start < 4 * BASE && terms <= 4 * MAX_PRODUCT
    requires acc < U64 && carry * U64 + acc == start + terms
    ensures carry < 4
    ensures (carry * BASE) % U64 + acc / BASE == (start + terms) / BASE
    ensures acc % BASE == (start + terms) % BASE
    ensures carry / BASE == 0
    ensures (start + terms) / BASE < 4 * BASE
  {
    assert start + terms < 4 * U64;
    if carry >= 4 {
      MulLe(U64, 4, carry);
      assert false;
    }
    var v := start + terms;
    assert v == BASE * (carry * BASE + acc / BASE) + acc % BASE;
    DivModUnique(v, BASE, carry * BASE + acc / BASE, acc % BASE);
  }

  /** The bookkeeping of one column: y = Value of the limbs written so far,
      p = BASE^i, a + cy the pending accumulator and carry, s the column sum
      and h the limb of hi(x) added in (0 beyond column 3). */
  lemma ColumnStep(y: int, p: int, a: int, cy: int, s: int, h: int,
                   tmp: int, yi: int, cy2: int, a2: int, l: int, hs: int)
    requires y + p * (a + cy) == l + hs
    requires tmp == (a + s) % BASE + h + cy
    requires yi == tmp % BASE && cy2 == tmp / BASE && a2 == (a + s) / BASE
    ensures y + p * yi + (BASE * p) * (a2 + cy2) == (l + s * p) + (hs + p * h)
  {
    var v := a + s;
    assert v == BASE * a2 + v % BASE;
    assert tmp == BASE * cy2 + yi;
    assert yi + BASE * (a2 + cy2) == a + cy + s + h;
    assert p * (yi + BASE * (a2 + cy2)) == p * (a + cy) + s * p + p * h;
    assert (BASE * p) * (a2 + cy2) == p * (BASE * (a2 + cy2));
  }

  /** The loop invariant of both column loops: the limbs ys written so far,
      with the pending accumulator acc and carry carryy above them, hold the
      first col columns of the product plus hs, the part of hi(x) added. */
  ghost predicate Pending(ys: seq<Word>, x0: seq<Word>, c: seq<Word>, col: nat, acc: nat, carryy: nat, hs: nat)
    requires |x0| >= 4 && |c| == 4 && col <= 7
  {
    Value(ys) + Pow(col) * (acc + carryy) == Columns(x0, c, col) + hs
  }

  /** One column closed and written: the invariant of the column loops moves
      from column col to column col + 1. hs is the part of hi(x) added so far
      and h the limb of hi(x) added in this column (0 beyond column 3). */
  lemma {:induction false} ColumnAdvance(ys: seq<Word>, x0: seq<Word>, c: seq<Word>, col: nat,
                                         hs: nat, h: Word, a: nat, cy: nat, carry: nat, acc: nat, tmp: nat)
    requires |x0| >= 4 && |c| == 4 && col <= 6 && |ys| == col + 1
    requires Pending(ys[..col], x0, c, col, a, cy, hs)
    requires a < 4 * BASE && cy <= 1
    requires acc < U64 && carry * U64 + acc == a + Column(x0, c, col)
    requires tmp == (acc % BASE + h + cy) % U64 && ys[col] == tmp % BASE
    ensures carry / BASE == 0 && tmp / BASE <= 1
    ensures (carry * BASE) % U64 + acc / BASE < 4 * BASE
    ensures Pending(ys, x0, c, col + 1, (carry * BASE) % U64 + acc / BASE, tmp / BASE, hs + Pow(col) * h)
  {
    ColumnTermsBound(x0, c, col, if col <= 3 then col + 1 else 4);
    ValueSnoc(ys);
    ColumnArith(Value(ys[..col]), Value(ys), ys[col], Pow(col), Pow(col + 1),
                Columns(x0, c, col), Columns(x0, c, col + 1), Column(x0, c, col),
                hs, h, a, cy, carry, acc, tmp);
  }

  /** The arithmetic of ColumnAdvance on plain integers: y0, y1 are the limbs
      written before and after, p = BASE^col and p1 = BASE^(col+1), l0, l1 the
      column sums before and after, s this column's sum. */
  lemma ColumnArith(y0: int, y1: int, yc: int, p: int, p1: int, l0: int, l1: int, s: int,
                    hs: int, h: int, a: int, cy: int, carry: nat, acc: nat, tmp: nat)
    requires y0 + p * (a + cy) == l0 + hs
    requires 0 <= a < 4 * BASE && 0 <= cy <= 1 && 0 <= h < BASE && 0 <= s <= 4 * MAX_PRODUCT
    requires acc < U64 && carry * U64 + acc == a + s
    requires tmp == (acc % BASE + h + cy) % U64 && yc == tmp % BASE
    requires y1 == y0 + p * yc && l1 == l0 + s * p && p1 == BASE * p
    ensures carry / BASE == 0 && tmp / BASE <= 1
    ensures (carry * BASE) % U64 + acc / BASE < 4 * BASE
    ensures y1 + p1 * ((carry * BASE) % U64 + acc / BASE + tmp / BASE) == l1 + (hs + p * h)
  {
    var a2, cy2 := (a + s) / BASE, tmp / BASE;
    CloseColumn(a, s, carry, acc);
    assert tmp == (a + s) % BASE + h + cy;
    ColumnStep(y0, p, a, cy, s, h, tmp, yc, cy2, a2, l0, hs);
  }

  /** One more limb of hi(x). */
  lemma HighPrefix(x0: Big, i: nat)
    requires i < 4
    ensures Value(x0[4..4 + (i + 1)]) == Value(x0[4..4 + i]) + Pow(i) * x0[4 + i]
  {
    assert x0[4..4 + (i + 1)][..i] == x0[4..4 + i];
    ValueSnoc(x0[4..4 + (i + 1)]);
  }

  /** The top limb: Pow(7)·t < Pow(8) forces t < BASE. */
  lemma TopLimbFits(y: nat, t: nat, total: nat)
    requires y + Pow(7) * t == total && total < Pow(8)
    ensures t < BASE
  {
    assert Pow(8) == BASE * Pow(7);
    if t >= BASE {
      MulLe(Pow(7), BASE, t);
      assert false;
    }
  }

  lemma SmallMod(t: nat)
    requires t < BASE
    ensures (t % U64) % BASE == t
  {
  }

  /** After column 6, limb 7 takes the rest of the accumulator, and the eight
      limbs are the step's result. */
  lemma LastLimb(ys: seq<Word>, x0: Big, c: seq<Word>, acc: nat, carryy: nat)
    requires |ys| == 8 && |c| == 4
    requires Pending(ys[..7], x0, c, 7, acc, carryy, Value(x0[4..]))
    requires ys[7] == ((acc + carryy) % U64) % BASE
    ensures ys == Step(x0, c)
  {
    var t := acc + carryy;
    var total := Value(Step(x0, c));
    assert Columns(x0, c, 7) + Value(x0[4..]) == total by {
      ColumnsAreProduct(x0, c);
      StepValue(x0, c);
    }
    assert t < BASE by {
      ValueBound(Step(x0, c));
      TopLimbFits(Value(ys[..7]), t, total);
    }
    assert ys[7] == t by {
      SmallMod(t);
    }
    assert ys[..|ys| - 1] == ys[..7];
    assert Value(ys) == total by {
      ValueSnoc(ys);
    }
    ValueInjective(ys, Step(x0, c));
  }

  /** The inner loop of either column loop: add x[j]·c[col-j] for j from
      Lowest(col) to to - 1 into the 64-bit acc, counting its overflows in
      carry. The result is the exact column sum, split at 2^64. */
  method AccumulateColumn(x: array<Word>, c: seq<Word>, col: nat, to: nat, acc0: nat)
    returns (carry: nat, acc: nat)
    requires x.Length == WORDS && |c| == 4 && to <= 4 && to <= col + 1 && acc0 < U64
    ensures acc < U64 && carry <= 4
    ensures carry * U64 + acc == acc0 + ColumnTerms(x[..], c, col, to)
  {
    carry, acc := 0, acc0;
    var from := Lowest(col);
    if to <= from {
      return;
    }
    for j := from to to
      invariant acc < U64 && carry <= j - from
      invariant carry * U64 + acc == acc0 + ColumnTerms(x[..], c, col, j)
    {
      var temp: nat := (x[j] as int) * c[col - j];
      WordProduct(x[j], c[col - j]);
      OverflowTest(acc, temp);
      acc := (acc + temp) % U64;
      if acc < temp {
        carry := carry + 1;
      }
    }
  }

  /** The end of a column in either column loop: add the limb h of hi(x)
      (0 beyond column 3) and the carry carryy to the low 32 bits of the column
      sum, store limb i of the result, and shift the column sum down 32 bits
      for the next column. a is the accumulator the column started from. */
  method StoreColumn(y: array<Word>, i: nat, h: Word, carry: nat, acc: nat, carryy: nat,
                     ghost x0: seq<Word>, ghost c: seq<Word>, ghost a: nat, ghost hs: nat)
    returns (acc2: nat, carry2: nat, carryy2: nat)
    requires y.Length == WORDS && i <= 6 && |x0| >= 4 && |c| == 4
    requires Pending(y[..i], x0, c, i, a, carryy, hs) && a < 4 * BASE && carryy <= 1
    requires acc < U64 && carry * U64 + acc == a + Column(x0, c, i)
    modifies y
    ensures carry2 == 0 && acc2 < 4 * BASE && carryy2 <= 1
    ensures Pending(y[..i + 1], x0, c, i + 1, acc2, carryy2, hs + Pow(i) * h)
  {
    var tmp := (acc % BASE + h + carryy) % U64;
    y[i] := tmp % BASE;
    assert y[..i + 1][..i] == old(y[..i]);
    ColumnAdvance(y[..i + 1], x0, c, i, hs, h, a, carryy, carry, acc, tmp);
    // (carry<<32) | (acc>>32): the two parts occupy disjoint bits
    acc2 := (carry * BASE) % U64 + acc / BASE;
    carry2 := carry / BASE;
    carryy2 := tmp / BASE;
  }

  /** PoolHashStepCombined on the point x, in place. The result is the
      three-call step, limb for limb. */
  method PoolHashStepCombined(x: array<Word>, params: Round)
    requires x.Length == WORDS && |params.c| == 4
    modifies x
    ensures x[..] == Step(old(x[..]), params.c)
  {
    ghost var x0: Big := x[..];
    var c := params.c;
    var y := new Word[WORDS];
    var carry: nat, acc: nat := 0, 0;
    var carryy: nat := 0;
    // columns 0..3: products x[j]·c[i-j], plus the limb x[i+4] of hi(x)
    for i := 0 to 4
      invariant x[..] == x0
      invariant carry == 0 && acc < 4 * BASE && carryy <= 1
      invariant Pending(y[..i], x0, c, i, acc, carryy, Value(x0[4..4 + i]))
    {
      ghost var a := acc;
      carry, acc := AccumulateColumn(x, c, i, i + 1, acc);
      acc, carry, carryy := StoreColumn(y, i, x[i + 4], carry, acc, carryy, x0, c, a, Value(x0[4..4 + i]));
      HighPrefix(x0, i);
    }
    // columns 4..6: products x[j]·c[3-j+i], nothing more from hi(x)
    assert x0[4..4 + 4] == x0[4..];
    for i := 1 to 4
      invariant x[..] == x0
      invariant carry == 0 && acc < 4 * BASE && carryy <= 1
      invariant Pending(y[..i + 3], x0, c, i + 3, acc, carryy, Value(x0[4..]))
    {
      ghost var a := acc;
      carry, acc := AccumulateColumn(x, c, i + 3, 4, acc);
      acc, carry, carryy := StoreColumn(y, i + 3, 0, carry, acc, carryy, x0, c, a, Value(x0[4..]));
    }
    // limb 7: what is left in the accumulator
    y[7] := ((acc + carryy) % U64) % BASE;
    assert y[..8][..7] == y[..7];
    assert y[..] == y[..8];
    LastLimb(y[..], x0, c, acc, carryy);
    forall k | 0 <= k < WORDS {
      x[k] := y[k];
    }
    assert x[..] == y[..];
  }
}
