/** Unsigned numbers as 32-bit limbs, least significant first (src/arith_uint256.h), of any width. */
module Limbs {
  import opened Powers

  const LIMB: nat := 0x1_0000_0000

  type Limb = x: nat | x < LIMB

  /** What limb i counts for. */
  function Weight(i: nat): (r: nat)
    ensures r >= 1
  {
    Pow2(32 * i)
  }

  lemma WeightStep(i: nat)
    ensures Weight(i + 1) == LIMB * Weight(i) && Weight(0) == 1
  {
    Pow2Add(32, 32 * i);
    Pow2At31();
    assert 32 * (i + 1) == 32 + 32 * i;
  }

  function Term(d: nat, i: nat): nat { d * Weight(i) }

  /** The number a limb string stands for. */
  function LVal(s: seq<Limb>): nat {
    if s == [] then 0 else LVal(s[..|s| - 1]) + Term(s[|s| - 1], |s| - 1)
  }

  lemma LValTake(s: seq<Limb>, i: nat)
    requires i < |s|
    ensures LVal(s[..i + 1]) == LVal(s[..i]) + s[i] * Weight(i)
  {
    assert s[..i + 1][..i] == s[..i];
  }

  lemma {:induction false} LValBound(s: seq<Limb>)
    ensures LVal(s) < Weight(|s|)
  {
    if s == [] {
      WeightStep(0);
    } else {
      var n := |s| - 1;
      LValBound(s[..n]);
      WeightStep(n);
      hide LVal, Weight;
      MulLe(s[n], LIMB - 1, Weight(n));
      MulAdd(LIMB, -1, Weight(n));
    }
  }

  /** A carry out of the top is what the result modulo the width drops. */
  lemma DropCarry(v: nat, carry: nat, w: nat, total: nat)
    requires v < w && v + carry * w == total
    ensures v == total % w
  {
    QuotientIs(total, w, carry, v);
  }

  // ---------------------------------------------------------------- addition

  /** Low i limbs of the sum and the carry hold the sum of the low limbs. */
  ghost predicate SumOk(now: seq<Limb>, a: seq<Limb>, b: seq<Limb>, i: nat, carry: nat)
    requires i <= |now| == |a| == |b|
  {
    && now[i..] == a[i..]
    && LVal(now[..i]) + carry * Weight(i) == LVal(a[..i]) + LVal(b[..i])
  }

  lemma SumStep(now: seq<Limb>, a: seq<Limb>, b: seq<Limb>, i: nat, carry: nat, d: Limb, q: nat)
    requires i < |now| == |a| == |b| && SumOk(now, a, b, i, carry)
    requires carry + now[i] + b[i] == q * LIMB + d
    ensures SumOk(now[i := d], a, b, i + 1, q)
  {
    var next := now[i := d];
    assert now[i] == now[i..][0] == a[i];
    assert next[i + 1..] == now[i..][1..] == a[i..][1..] == a[i + 1..];
    assert next[..i] == now[..i];
    hide LVal, Weight;
    LValTake(next, i);
    LValTake(a, i);
    LValTake(b, i);
    WeightStep(i);
    SumLimb(LVal(now[..i]), LVal(a[..i]) + LVal(b[..i]), carry, a[i], b[i], q, d, Weight(i));
  }

  /** The arithmetic of one limb of a sum. */
  lemma SumLimb(v: nat, was: nat, carry: nat, x: nat, y: nat, q: nat, d: nat, w: nat)
    requires v + carry * w == was && carry + x + y == q * LIMB + d
    ensures (v + d * w) + q * (LIMB * w) == was + x * w + y * w
  {
    MulAssoc(q, LIMB, w);
    MulAdd(q * LIMB, d, w);
    MulAdd(carry + x, y, w);
    MulAdd(carry, x, w);
  }

  /** a += b, modulo the width. */
  method AddTo(pn: array<Limb>, b: seq<Limb>)
    requires |b| == pn.Length
    modifies pn
    ensures LVal(pn[..]) == (LVal(old(pn[..])) + LVal(b)) % Weight(pn.Length)
  {
    hide SumOk, LVal, Weight;
    ghost var a := pn[..];
    var carry: nat := 0;
    SumStart(a, b);
    for i := 0 to pn.Length
      invariant carry <= 1 && SumOk(pn[..], a, b, i, carry)
    {
      var n := carry + pn[i] + b[i];
      var d: Limb, q := n % LIMB, n / LIMB;
      SumStep(pn[..], a, b, i, carry, d, q);
      ghost var mid := pn[..];
      pn[i] := d;
      assert pn[..] == mid[i := d];
      carry := q;
    }
    SumEnd(pn[..], a, b, carry);
  }

  lemma SumStart(a: seq<Limb>, b: seq<Limb>)
    requires |a| == |b|
    ensures SumOk(a, a, b, 0, 0)
  {
  }

  lemma SumEnd(now: seq<Limb>, a: seq<Limb>, b: seq<Limb>, carry: nat)
    requires |now| == |a| == |b| && SumOk(now, a, b, |now|, carry)
    ensures LVal(now) == (LVal(a) + LVal(b)) % Weight(|now|)
  {
    hide LVal, Weight;
    var n := |now|;
    assert now[..n] == now && a[..n] == a && b[..n] == b;
    LValBound(now);
    DropCarry(LVal(now), carry, Weight(n), LVal(a) + LVal(b));
  }

  // ---------------------------------------------------------------- complement, increment, negation

  function Flip(s: seq<Limb>): (r: seq<Limb>)
    ensures |r| == |s| && forall i :: 0 <= i < |s| ==> r[i] == LIMB - 1 - s[i]
  {
    seq(|s|, i requires 0 <= i < |s| => LIMB - 1 - s[i])
  }

  /** ~x is the distance to the largest number of the width. */
  lemma {:induction false} FlipValue(s: seq<Limb>)
    ensures LVal(s) + LVal(Flip(s)) == Weight(|s|) - 1
  {
    if s == [] {
      WeightStep(0);
    } else {
      var n := |s| - 1;
      FlipValue(s[..n]);
      assert Flip(s)[..n] == Flip(s[..n]);
      WeightStep(n);
      hide Weight;
      MulAdd(s[n], LIMB - 1 - s[n], Weight(n));
      MulAdd(LIMB, -1, Weight(n));
    }
  }

  /** ++x, modulo the width: limbs roll over while they become zero. */
  method Increment(pn: array<Limb>)
    modifies pn
    ensures LVal(pn[..]) == (LVal(old(pn[..])) + 1) % Weight(pn.Length)
  {
    hide LVal, Weight;
    ghost var a := pn[..];
    var i := 0;
    var rolled := true;
    RollStart(a);
    while i < pn.Length && rolled
      invariant 0 <= i <= pn.Length
      invariant pn[i..] == a[i..]
      invariant rolled ==> LVal(pn[..i]) + Weight(i) == LVal(a[..i]) + 1
      invariant !rolled ==> LVal(pn[..i]) == LVal(a[..i]) + 1
    {
      var d: Limb := (pn[i] + 1) % LIMB;
      RollStep(pn[..], a, i, d);
      ghost var mid := pn[..];
      pn[i] := d;
      assert pn[..] == mid[i := d];
      rolled := d == 0;
      i := i + 1;
    }
    RollEnd(pn[..], a, i, rolled);
  }

  lemma RollStart(a: seq<Limb>)
    ensures LVal(a[..0]) + Weight(0) == LVal(a[..0]) + 1
  {
    WeightStep(0);
  }

  lemma RollStep(now: seq<Limb>, a: seq<Limb>, i: nat, d: Limb)
    requires i < |now| == |a| && now[i..] == a[i..] && LVal(now[..i]) + Weight(i) == LVal(a[..i]) + 1
    requires d == if now[i] == LIMB - 1 then 0 else now[i] + 1
    ensures now[i := d][i + 1..] == a[i + 1..]
    ensures d == 0 ==> LVal(now[i := d][..i + 1]) + Weight(i + 1) == LVal(a[..i + 1]) + 1
    ensures d != 0 ==> LVal(now[i := d][..i + 1]) == LVal(a[..i + 1]) + 1
  {
    var next := now[i := d];
    assert now[i] == now[i..][0] == a[i];
    assert next[i + 1..] == now[i..][1..] == a[i..][1..] == a[i + 1..];
    assert next[..i] == now[..i];
    hide LVal, Weight;
    LValTake(next, i);
    LValTake(a, i);
    WeightStep(i);
    RollLimb(LVal(now[..i]), LVal(a[..i]), a[i], d, Weight(i));
  }

  lemma RollLimb(v: nat, was: nat, x: Limb, d: Limb, w: nat)
    requires v + w == was + 1 && d == if x == LIMB - 1 then 0 else x + 1
    ensures d == 0 ==> v + d * w + LIMB * w == was + x * w + 1
    ensures d != 0 ==> v + d * w == was + x * w + 1
  {
    MulAdd(x, 1, w);
  }

  lemma RollEnd(now: seq<Limb>, a: seq<Limb>, i: nat, rolled: bool)
    requires i <= |now| == |a| && now[i..] == a[i..] && (rolled ==> i == |a|)
    requires rolled ==> LVal(now[..i]) + Weight(i) == LVal(a[..i]) + 1
    requires !rolled ==> LVal(now[..i]) == LVal(a[..i]) + 1
    ensures LVal(now) == (LVal(a) + 1) % Weight(|now|)
  {
    hide LVal, Weight;
    var n := |now|;
    LValBound(now);
    if rolled {
      assert now[..n] == now && a[..n] == a;
      DropCarry(LVal(now), 1, Weight(n), LVal(a) + 1);
    } else {
      TailCarries(now, a, i, 1);
      DropCarry(LVal(now), 0, Weight(n), LVal(a) + 1);
    }
  }

  /** Numbers with the same high limbs differ by what their low limbs differ by. */
  lemma {:induction false} TailCarries(now: seq<Limb>, a: seq<Limb>, i: nat, gap: int)
    requires i <= |now| == |a| && now[i..] == a[i..] && LVal(now[..i]) == LVal(a[..i]) + gap
    ensures LVal(now) == LVal(a) + gap
    decreases |now| - i
  {
    if i == |now| {
      assert now[..i] == now && a[..i] == a;
    } else {
      assert now[i] == now[i..][0] == a[i..][0] == a[i];
      assert now[i + 1..] == now[i..][1..] == a[i..][1..] == a[i + 1..];
      LValTake(now, i);
      LValTake(a, i);
      TailCarries(now, a, i + 1, gap);
    }
  }

  /** -x, modulo the width. */
  method Negate(s: seq<Limb>) returns (r: array<Limb>)
    ensures fresh(r) && r.Length == |s|
    ensures LVal(r[..]) == (Weight(|s|) - LVal(s)) % Weight(|s|)
  {
    hide LVal, Weight;
    r := new Limb[|s|](i requires 0 <= i < |s| => LIMB - 1 - s[i]);
    assert r[..] == Flip(s);
    FlipValue(s);
    Increment(r);
  }

  /** a -= b, modulo the width. */
  method SubFrom(pn: array<Limb>, b: seq<Limb>)
    requires |b| == pn.Length
    modifies pn
    ensures LVal(pn[..]) == (LVal(old(pn[..])) - LVal(b)) % Weight(pn.Length)
  {
    hide LVal, Weight;
    var minus := Negate(b);
    LValBound(b);
    SubtractByAdding(LVal(pn[..]), LVal(b), Weight(pn.Length));
    AddTo(pn, minus[..]);
  }

  lemma SubtractByAdding(a: nat, b: nat, w: nat)
    requires b < w
    ensures (a + (w - b) % w) % w == (a - b) % w
  {
    if b == 0 {
      QuotientIs(w - b, w, 1, 0);
    } else {
      QuotientIs(w - b, w, 0, w - b);
      var q, r := (a - b) / w, (a - b) % w;
      assert a - b == q * w + r;
      MulAdd(q, 1, w);
      QuotientIs(a + (w - b), w, q + 1, r);
    }
  }

  // ---------------------------------------------------------------- comparison

  /** -1, 0 or 1 as the first number is below, equal to or above the second. */
  method CompareTo(a: seq<Limb>, b: seq<Limb>) returns (r: int)
    requires |a| == |b|
    ensures r == if LVal(a) < LVal(b) then -1 else if LVal(a) > LVal(b) then 1 else 0
    ensures r == 0 <==> a == b
  {
    hide LVal, Weight;
    var i := |a| - 1;
    while i >= 0
      invariant -1 <= i < |a| && a[i + 1..] == b[i + 1..]
      decreases i + 1
    {
      if a[i] != b[i] {
        HigherLimbDecides(a, b, i);
        return if a[i] < b[i] then -1 else 1;
      }
      assert a[i..] == [a[i]] + a[i + 1..] && b[i..] == [b[i]] + b[i + 1..];
      i := i - 1;
    }
    assert a[0..] == a && b[0..] == b;
    r := 0;
  }

  lemma HigherLimbDecides(a: seq<Limb>, b: seq<Limb>, i: nat)
    requires i < |a| == |b| && a[i + 1..] == b[i + 1..]
    ensures a[i] < b[i] ==> LVal(a) < LVal(b)
    ensures a[i] > b[i] ==> LVal(a) > LVal(b)
  {
    hide LVal, Weight;
    LValTake(a, i);
    LValTake(b, i);
    LValBound(a[..i]);
    LValBound(b[..i]);
    TailCarries(a, b, i + 1, LVal(a[..i + 1]) - LVal(b[..i + 1]));
    var w := Weight(i);
    if a[i] < b[i] {
      MulLe(a[i] + 1, b[i], w);
      MulAdd(a[i], 1, w);
    } else if a[i] > b[i] {
      MulLe(b[i] + 1, a[i], w);
      MulAdd(b[i], 1, w);
    }
  }
}
