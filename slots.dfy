// Flat point buffers: slot s of a uint32_t buffer is the 8 words
// point[s*8 .. s*8+8). The free function main_loop (src/main.cpp:37-62) seeds
// one slot from the template and an index and steps it in place; the TBB and
// CPU-kernel variants inline the same code for slot k*maxIndices+i.
module Slots {
  import opened Wide
  import opened HashStep
  import opened Seed

  /** Slot s of a flat buffer. */
  function Slot(pts: seq<Word>, s: nat): Big
    requires (s + 1) * WORDS <= |pts|
  {
    pts[s * WORDS..s * WORDS + WORDS]
  }

  /** The buffer with slot s replaced by v. */
  function WithSlot(pts: seq<Word>, s: nat, v: Big): (r: seq<Word>)
    requires (s + 1) * WORDS <= |pts|
    ensures |r| == |pts|
  {
    pts[..s * WORDS] + v + pts[s * WORDS + WORDS..]
  }

  /** Writing slot s sets that slot... */
  lemma WithSlotSlot(pts: seq<Word>, s: nat, v: Big)
    requires (s + 1) * WORDS <= |pts|
    ensures Slot(WithSlot(pts, s, v), s) == v
  {
  }

  /** ...and leaves every word outside it alone. */
  lemma WithSlotFrame(pts: seq<Word>, s: nat, v: Big)
    requires (s + 1) * WORDS <= |pts|
    ensures forall t :: 0 <= t < |pts| && !(s * WORDS <= t < s * WORDS + WORDS) ==>
              WithSlot(pts, s, v)[t] == pts[t]
  {
  }

  /** Writing a slot's own value back changes nothing. */
  lemma WithSlotSame(pts: seq<Word>, s: nat)
    requires (s + 1) * WORDS <= |pts|
    ensures WithSlot(pts, s, Slot(pts, s)) == pts
  {
    var o := s * WORDS;
    assert pts == pts[..o] + pts[o..o + WORDS] + pts[o + WORDS..];
  }

  /** Writing slot s twice keeps the second value only. */
  lemma WithSlotTwice(pts: seq<Word>, s: nat, v: Big, w: Big)
    requires (s + 1) * WORDS <= |pts|
    ensures WithSlot(WithSlot(pts, s, v), s, w) == WithSlot(pts, s, w)
  {
    var o := s * WORDS;
    var mid := WithSlot(pts, s, v);
    assert mid[..o] == pts[..o];
    assert mid[o + WORDS..] == pts[o + WORDS..];
  }

  /** Slots other than s are untouched by writing slot s. */
  lemma WithSlotOther(pts: seq<Word>, s: nat, v: Big, s2: nat)
    requires (s + 1) * WORDS <= |pts| && (s2 + 1) * WORDS <= |pts| && s2 != s
    ensures Slot(WithSlot(pts, s, v), s2) == Slot(pts, s2)
  {
    if s2 < s {
      assert (s2 + 1) * WORDS <= s * WORDS;
    } else {
      assert (s + 1) * WORDS <= s2 * WORDS;
    }
  }

  /** The three-call hash step on slot s, in place:
        wide_mul(4, &tmp[4], &tmp[0], &point[s*8], c);
        carry = wide_add(4, &point[s*8], &tmp[0], &point[s*8+4]);
        wide_add(4, &point[s*8+4], &tmp[4], carry); */
  method StepSlot(point: array<Word>, s: nat, c: seq<Word>)
    requires (s + 1) * WORDS <= point.Length && |c| == 4
    modifies point
    ensures point[..] == WithSlot(old(point[..]), s, Step(Slot(old(point[..]), s), c))
  {
    ghost var before := point[..];
    var o := s * WORDS;
    var x: Big := point[o..o + WORDS];
    var tmp := Mul(x[..4], c);
    var (lo, carry) := Add(tmp[..4], x[4..]);
    forall t | 0 <= t < 4 {
      point[o + t] := lo[t];
    }
    var (hi, _) := AddWord(tmp[4..], carry);
    forall t | 0 <= t < 4 {
      point[o + 4 + t] := hi[t];
    }
    assert Step(x, c) == lo + hi;
    HalvesWritten(before, point[..], s, lo, hi);
  }

  /** A buffer that agrees with `before` outside slot s and holds lo then hi
      inside it is `before` with slot s replaced by lo + hi. */
  lemma HalvesWritten(before: seq<Word>, after: seq<Word>, s: nat, lo: seq<Word>, hi: seq<Word>)
    requires (s + 1) * WORDS <= |before| == |after| && |lo| == 4 && |hi| == 4
    requires forall t :: 0 <= t < 4 ==> after[s * WORDS + t] == lo[t] && after[s * WORDS + 4 + t] == hi[t]
    requires forall t :: 0 <= t < |after| && !(s * WORDS <= t < s * WORDS + WORDS) ==> after[t] == before[t]
    ensures after == WithSlot(before, s, lo + hi)
  {
    var o := s * WORDS;
    var w := WithSlot(before, s, lo + hi);
    forall t | 0 <= t < |after|
      ensures after[t] == w[t]
    {
      if t < o {
      } else if t < o + 4 {
        assert after[o + (t - o)] == lo[t - o];
      } else if t < o + WORDS {
        assert after[o + 4 + (t - o - 4)] == hi[t - o - 4];
      } else {
      }
    }
  }

  /** hashSteps applications of the step to slot s, in place. */
  method IterateSlot(point: array<Word>, s: nat, c: seq<Word>, hashSteps: nat)
    requires (s + 1) * WORDS <= point.Length && |c| == 4
    modifies point
    ensures point[..] == WithSlot(old(point[..]), s, Iterate(Slot(old(point[..]), s), c, hashSteps))
  {
    ghost var before := point[..];
    ghost var seed := Slot(before, s);
    WithSlotSame(before, s);
    for y := 0 to hashSteps
      invariant point[..] == WithSlot(before, s, Iterate(seed, c, y))
    {
      WithSlotSlot(before, s, Iterate(seed, c, y));
      StepSlot(point, s, c);
      WithSlotTwice(before, s, Iterate(seed, c, y), Iterate(seed, c, y + 1));
    }
  }

  /** Slot s gets limbs 1..7 of the template and `index` in limb 0. */
  method SeedSlot(point: array<Word>, s: nat, temp: array<Word>, index: Word)
    requires temp.Length == WORDS && (s + 1) * WORDS <= point.Length && point != temp
    modifies point
    ensures point[..] == WithSlot(old(point[..]), s, FromTemplate(temp[..], index))
  {
    var o := s * WORDS;
    for x := 1 to WORDS
      invariant forall t :: 0 <= t < point.Length ==>
                  point[t] == if o + 1 <= t < o + x then temp[t - o] else old(point[t])
    {
      point[o + x] := temp[x];
    }
    point[o] := index;
    assert Slot(point[..], s) == FromTemplate(temp[..], index);
    assert point[..] == WithSlot(old(point[..]), s, FromTemplate(temp[..], index));
  }

  /** main_loop(i, k, j, l, hashSteps, c, indices, point, temp): slot k*j+i gets
      limbs 1..7 of the template and the index indices[k*j+i] in limb 0, then
      is stepped hashSteps times. l is unused. */
  method MainLoop(i: nat, k: nat, j: nat, l: nat, hashSteps: nat, c: seq<Word>,
                  indices: array<Word>, point: array<Word>, temp: array<Word>)
    requires |c| == 4 && temp.Length == WORDS
    requires k * j + i < indices.Length && (k * j + i + 1) * WORDS <= point.Length
    requires point != indices && point != temp
    modifies point
    ensures point[..] == WithSlot(old(point[..]), k * j + i,
                                  Iterate(FromTemplate(temp[..], indices[k * j + i]), c, hashSteps))
  {
    var s := k * j + i;
    ghost var before := point[..];
    ghost var seed := FromTemplate(temp[..], indices[s]);
    SeedSlot(point, s, temp, indices[s]);
    WithSlotSlot(before, s, seed);
    IterateSlot(point, s, c, hashSteps);
    WithSlotTwice(before, s, seed, Iterate(seed, c, hashSteps));
  }
}
