/** Shifts and bit length of limb numbers (src/arith_uint256.cpp). */
module LimbShift {
  import opened Powers
  import opened Limbs

  // ---------------------------------------------------------------- bits of one limb

  /** Bitwise or. */
  function Or(a: nat, b: nat): nat
    decreases a
  {
    if a == 0 then b
    else if b == 0 then a
    else (if a % 2 == 1 || b % 2 == 1 then 1 else 0) + 2 * Or(a / 2, b / 2)
  }

  /** Bits that do not overlap add up. */
  lemma {:induction false} OrDisjoint(x: nat, y: nat, s: nat)
    requires x < Pow2(s)
    ensures Or(x, y * Pow2(s)) == x + y * Pow2(s)
    decreases s
  {
    if s > 0 && x > 0 && y > 0 {
      var z := y * Pow2(s - 1);
      assert y * Pow2(s) == 2 * z by {
        MulSwap(y, 2, Pow2(s - 1));
      }
      assert z > 0 by {
        MulLe(1, y, Pow2(s - 1));
      }
      OrDisjoint(x / 2, y, s - 1);
      assert (2 * z) / 2 == z && (2 * z) % 2 == 0;
    }
  }

  /** x << s in 32 bits. */
  function Low(x: Limb, s: nat): Limb { Rem(x * Pow2(s), LIMB) }

  /** The bits that x << s loses, x >> (32 - s). */
  function High(x: Limb, s: nat): nat
    requires s < 32
  {
    if s == 0 then 0 else Quot(x, Pow2(32 - s))
  }

  lemma SplitParts(x: nat, p: nat, q: nat, hi: nat, lo: nat)
    requires x == hi * q + lo && lo < q && x < q * p
    ensures (x * p) % (q * p) == lo * p && lo * p + hi * (q * p) == x * p && hi < p
  {
    MulAdd(hi * q, lo, p);
    MulAssoc(hi, q, p);
    MulLe(lo, q - 1, p);
    MulAdd(q, -1, p);
    MulLe(0, lo, p);
    QuotientIs(x * p, q * p, hi, lo * p);
    if hi >= p {
      MulLe(p, hi, q);
    }
  }

  /** What goes to the limb itself and what goes to the next one. */
  lemma SplitLimb(x: Limb, s: nat) returns (y: nat)
    requires s < 32
    ensures High(x, s) < Pow2(s) && Low(x, s) == y * Pow2(s)
    ensures Low(x, s) + High(x, s) * LIMB == x * Pow2(s) && Low(x, s) + Pow2(s) <= LIMB
  {
    var p, q := Pow2(s), Pow2(32 - s);
    Pow2Add(32 - s, s);
    Pow2At31();
    assert q * p == LIMB;
    var hi, lo := Quot(x, q), Rem(x, q);
    QuotRem(x, q);
    y := lo;
    assert s == 0 ==> q == LIMB && p == 1;
    hide Quot, Pow2;
    SplitParts(x, p, q, hi, lo);
    assert Low(x, s) == lo * p;
    MulLe(lo + 1, q, p);
    MulAdd(lo, 1, p);
    assert s == 0 ==> hi < 1;
    assert High(x, s) == hi;
  }

  // ---------------------------------------------------------------- left shift

  /** What limb i - 1 leaves for limb i. */
  function Carry(a: seq<Limb>, i: nat, s: nat): nat
    requires i <= |a| && s < 32
  {
    if i == 0 then 0 else High(a[i - 1], s)
  }

  /** The low i limbs of a have been placed k limbs and s bits higher. */
  ghost predicate ShlOk(now: seq<Limb>, a: seq<Limb>, i: nat, k: nat, s: nat)
    requires i + k <= |now| == |a| && s < 32
  {
    && LVal(now[..i + k]) + Carry(a, i, s) * Weight(i + k) == LVal(a[..i]) * (Pow2(s) * Weight(k))
    && (i + k < |now| ==> now[i + k] == Carry(a, i, s))
    && forall j :: i + k < j < |now| ==> now[j] == 0
  }

  lemma ShlStart(a: seq<Limb>, zeros: seq<Limb>, k: nat, s: nat)
    requires k <= |zeros| == |a| && s < 32 && forall j :: 0 <= j < |zeros| ==> zeros[j] == 0
    ensures ShlOk(zeros, a, 0, k, s)
  {
    LValZeros(zeros[..k]);
  }

  lemma {:induction false} LValZeros(zeros: seq<Limb>)
    requires forall j :: 0 <= j < |zeros| ==> zeros[j] == 0
    ensures LVal(zeros) == 0
  {
    if zeros != [] {
      LValZeros(zeros[..|zeros| - 1]);
    }
  }

  lemma WeightAdd(i: nat, k: nat)
    ensures Weight(i + k) == Weight(i) * Weight(k)
  {
    Pow2Add(32 * i, 32 * k);
    assert 32 * (i + k) == 32 * i + 32 * k;
  }

  /** The arithmetic of one limb of a left shift. */
  lemma ShlLimb(v: nat, c: nat, lo: nat, hi: nat, x: nat, p: nat, was: nat, wi: nat, wk: nat, w: nat)
    requires v + c * w == was * (p * wk) && lo + hi * LIMB == x * p && w == wi * wk
    ensures (v + (c + lo) * w) + hi * (LIMB * w) == (was + x * wi) * (p * wk)
  {
    MulAdd(c, lo, w);
    MulAssoc(hi, LIMB, w);
    MulAdd(lo, hi * LIMB, w);
    assert (x * p) * w == (x * wi) * (p * wk) by {
      MulAssoc(x, p, wi * wk);
      MulSwap(p, wi, wk);
      MulAssoc(x, wi, p * wk);
    }
    MulAdd(was, x * wi, p * wk);
  }

  lemma ShlStep(now: seq<Limb>, a: seq<Limb>, i: nat, k: nat, s: nat, next: seq<Limb>)
    requires i + k < |now| == |a| == |next| && s < 32 && ShlOk(now, a, i, k, s)
    requires next[..i + k] == now[..i + k] && next[i + k] == Carry(a, i, s) + Low(a[i], s)
    requires i + k + 1 < |now| ==> next[i + k + 1] == High(a[i], s)
    requires forall j :: i + k + 1 < j < |now| ==> next[j] == 0
    ensures ShlOk(next, a, i + 1, k, s)
  {
    hide LVal, Weight, Low, High, Pow2;
    LValTake(next, i + k);
    LValTake(a, i);
    WeightStep(i + k);
    WeightAdd(i, k);
    var y := SplitLimb(a[i], s);
    ShlLimb(LVal(now[..i + k]), Carry(a, i, s), Low(a[i], s), High(a[i], s), a[i], Pow2(s), LVal(a[..i]), Weight(i),
            Weight(k), Weight(i + k));
  }

  /** High limbs only add multiples of their weight. */
  lemma {:induction false} LValSplit(a: seq<Limb>, i: nat)
    requires i <= |a|
    ensures LVal(a) == LVal(a[..i]) + LVal(a[i..]) * Weight(i)
    decreases |a|
  {
    assert LVal([]) == 0;
    hide LVal, Weight;
    if i == |a| {
      assert a[..i] == a && a[i..] == [];
    } else {
      var n := |a| - 1;
      LValSplit(a[..n], i);
      assert a[..n][..i] == a[..i] && a[..n][i..] == a[i..n];
      LValTake(a[i..], n - i);
      assert a[i..][..n - i] == a[i..n] && a[i..][..n - i + 1] == a[i..] && a[i..][n - i] == a[n];
      LValTake(a, n);
      assert a[..n + 1] == a;
      WeightAdd(n - i, i);
      TopLimb(LVal(a), LVal(a[..n]), LVal(a[..i]), LVal(a[i..]), LVal(a[i..n]), a[n], Weight(n), Weight(n - i),
              Weight(i));
    }
  }

  lemma TopLimb(all: nat, most: nat, lo: nat, hi: nat, mid: nat, x: nat, wn: nat, w: nat, wi: nat)
    requires all == most + x * wn && most == lo + mid * wi && hi == mid + x * w && wn == w * wi
    ensures all == lo + hi * wi
  {
    MulAdd(mid, x * w, wi);
    MulAssoc(x, w, wi);
  }

  lemma ShlEnd(now: seq<Limb>, a: seq<Limb>, k: nat, s: nat, shift: nat)
    requires k <= |now| == |a| && s < 32 && shift == 32 * k + s && ShlOk(now, a, |a| - k, k, s)
    ensures LVal(now) == (LVal(a) * Pow2(shift)) % Weight(|a|)
  {
    hide LVal, Weight, Pow2, ShlOk, Carry;
    var n := |a|;
    ShlValue(now, a, k, s);
    LValSplit(a, n - k);
    ShiftFactor(k, s);
    WeightAdd(n - k, k);
    LValBound(now);
    ShlTotal(LVal(now), Carry(a, n - k, s), LVal(a[..n - k]), LVal(a[n - k..]), Pow2(s), Weight(k), Weight(n - k),
             Weight(n),
             LVal(a), Pow2(shift));
  }

  lemma ShlValue(now: seq<Limb>, a: seq<Limb>, k: nat, s: nat)
    requires k <= |now| == |a| && s < 32 && ShlOk(now, a, |a| - k, k, s)
    ensures LVal(now) + Carry(a, |a| - k, s) * Weight(|a|) == LVal(a[..|a| - k]) * (Pow2(s) * Weight(k))
  {
    hide LVal, Weight, Pow2, Carry;
    assert now[..|now|] == now;
  }

  lemma ShlTotal(v: nat, c: nat, lo: nat, hi: nat, p: nat, wk: nat, wnk: nat, wn: nat,
                 all: nat, f: nat)
    requires v + c * wn == lo * (p * wk) && wn == wnk * wk && v < wn
    requires all == lo + hi * wnk && f == p * wk
    ensures v == (all * f) % wn
  {
    var total := (lo + hi * wnk) * (p * wk);
    MulAdd(lo, hi * wnk, p * wk);
    Regroup(hi, wnk, p, wk);
    MulAdd(c, hi * p, wn);
    MulLe(0, hi, p);
    DropCarry(v, c + hi * p, wn, total);
  }

  lemma Regroup(a: nat, b: nat, c: nat, d: nat)
    ensures (a * b) * (c * d) == (a * c) * (b * d)
  {
    MulAssoc(a, b, c * d);
    MulSwap(b, c, d);
    MulAssoc(a, c, b * d);
  }

  lemma ShiftFactor(k: nat, s: nat)
    ensures Pow2(32 * k + s) == Pow2(s) * Weight(k)
  {
    Pow2Add(s, 32 * k);
    assert 32 * k + s == s + 32 * k;
  }

  /** Everything is shifted out. */
  lemma ShlAllOut(a: seq<Limb>, zeros: seq<Limb>, k: nat, s: nat)
    requires |a| == |zeros| <= k && forall j :: 0 <= j < |zeros| ==> zeros[j] == 0
    ensures LVal(zeros) == (LVal(a) * Pow2(32 * k + s)) % Weight(|a|)
  {
    LValZeros(zeros);
    ShiftFactor(k, s);
    WeightAdd(k - |a|, |a|);
    hide *;
    var v, p, w, x := LVal(a), Pow2(s), Weight(|a|), Weight(k - |a|);
    assert v * (p * (x * w)) == (v * (p * x)) * w by {
      MulAssoc(p, x, w);
      MulAssoc(v, p * x, w);
    }
    MulLe(0, p, x);
    MulLe(0, p * x, v);
    assert v * (p * x) == (p * x) * v;
    QuotientIs(v * Pow2(32 * k + s), w, v * (p * x), 0);
  }

  /** a <<= shift, modulo the width. */
  method ShiftLeft(pn: array<Limb>, shift: nat)
    modifies pn
    ensures LVal(pn[..]) == (LVal(old(pn[..])) * Pow2(shift)) % Weight(pn.Length)
  {
    hide LVal, Weight, Low, High, Pow2, ShlOk;
    var a := pn[..];
    var n := pn.Length;
    Clear(pn);
    var k, s := shift / 32, shift % 32;
    if k <= n {
      ShlStart(a, pn[..], k, s);
    } else {
      ShlAllOut(a, pn[..], k, s);
    }
    for i := 0 to n
      invariant k > n ==> LVal(pn[..]) == (LVal(a) * Pow2(shift)) % Weight(n)
      invariant k <= n ==> ShlOk(pn[..], a, if i <= n - k then i else n - k, k, s)
    {
      if i + k < n {
        ShlPlace(pn, a, i, k, s);
      }
    }
    if k <= n {
      ShlEnd(pn[..], a, k, s, shift);
    }
  }

  method Clear(pn: array<Limb>)
    modifies pn
    ensures forall j :: 0 <= j < pn.Length ==> pn[j] == 0
  {
    for i := 0 to pn.Length
      invariant forall j :: 0 <= j < i ==> pn[j] == 0
    {
      pn[i] := 0;
    }
  }

  /** One round of the loop: the bits of limb i go to two limbs that have room for them. */
  method ShlPlace(pn: array<Limb>, a: seq<Limb>, i: nat, k: nat, s: nat)
    requires i + k < pn.Length == |a| && s < 32 && ShlOk(pn[..], a, i, k, s)
    modifies pn
    ensures ShlOk(pn[..], a, i + 1, k, s)
  {
    hide LVal, Weight, Low, High, Pow2;
    var n := pn.Length;
    ghost var was := pn[..];
    ghost var y := SplitLimb(a[i], s);
    ghost var c := Carry(a, i, s);
    CarryFits(a, i, s);
    OrDisjoint(c, y, s);
    assert pn[i + k] == was[i + k] == c;
    if i + k + 1 < n && s != 0 {
      assert pn[i + k + 1] == was[i + k + 1] == 0;
      pn[i + k + 1] := Or(pn[i + k + 1], High(a[i], s));
    }
    pn[i + k] := Or(pn[i + k], Low(a[i], s));
    HighZero(a[i], s);
    ShlStep(was, a, i, k, s, pn[..]);
  }

  lemma HighZero(x: Limb, s: nat)
    requires s < 32
    ensures s == 0 ==> High(x, s) == 0
  {
  }

  lemma CarryFits(a: seq<Limb>, i: nat, s: nat)
    requires i <= |a| && s < 32
    ensures Carry(a, i, s) < Pow2(s)
  {
    if i > 0 {
      var y := SplitLimb(a[i - 1], s);
    }
  }

  // ---------------------------------------------------------------- right shift

  /** x >> s. */
  function Top(x: Limb, s: nat): nat { Quot(x, Pow2(s)) }

  /** The bits x >> s loses, moved to the top of the limb below: x << (32 - s). */
  function Bottom(x: Limb, s: nat): nat
    requires s < 32
  {
    if s == 0 then 0 else Low(x, 32 - s)
  }

  /** The bits below limb k and bit s of it, which a right shift loses. */
  function Lost(a: seq<Limb>, k: nat, s: nat): nat
    requires k < |a|
  {
    LVal(a[..k]) + Term(Rem(a[k], Pow2(s)), k)
  }

  lemma SplitBack(x: Limb, s: nat)
    requires s < 32
    ensures var r := Rem(x, Pow2(s));
            && x == Top(x, s) * Pow2(s) + r && r < Pow2(s) && Top(x, s) < Pow2(32 - s) && Top(x, s) < LIMB
            && Bottom(x, s) == r * Pow2(32 - s) && Pow2(32 - s) * Pow2(s) == LIMB
  {
    hide *;
    LimbFactors(s);
    BackParts(x, s);
    QuotRem(x, Pow2(s));
    SplitParts(x, Pow2(32 - s), Pow2(s), Top(x, s), Rem(x, Pow2(s)));
    MulLe(1, Pow2(s), Top(x, s));
  }

  lemma LimbFactors(s: nat)
    requires s <= 32
    ensures Pow2(32 - s) * Pow2(s) == Pow2(s) * Pow2(32 - s) == LIMB == 0x1_0000_0000 && (s == 0 ==> Pow2(s) == 1)
  {
    Pow2At31();
    assert Pow2(0) == 1;
    hide Pow2;
    Pow2Add(32 - s, s);
    assert 32 - s + s == 32;
    Commute(Pow2(s), Pow2(32 - s));
  }

  lemma Commute(a: int, b: int)
    ensures a * b == b * a
  {
  }

  lemma BackParts(x: Limb, s: nat)
    requires s < 32
    ensures Top(x, s) == Quot(x, Pow2(s)) && x < LIMB
    ensures s == 0 ==> Bottom(x, s) == 0
    ensures s > 0 ==> Bottom(x, s) == (x * Pow2(32 - s)) % LIMB
  {
  }

  /** The arithmetic of one limb of a right shift. */
  lemma ShrLimb(x: nat, top: nat, bot: nat, r: nat, p: nat, q: nat, wi: nat, wk: nat, wm: nat, below: nat)
    requires x == top * p + r && bot == r * q && q * p == LIMB && wi == wm * wk && wm == LIMB * below
    ensures (bot * below + top * wm) * (p * wk) == x * wi
  {
    assert (bot * below) * (p * wk) == r * wi by {
      Regroup(r * q, below, p, wk);
      MulAssoc(r, q, p);
      MulAssoc(r, LIMB, below * wk);
      MulAssoc(LIMB, below, wk);
    }
    Regroup(top, wm, p, wk);
    MulAdd(bot * below, top * wm, p * wk);
    MulAdd(top * p, r, wi);
  }

  /** The low i limbs of a have been placed k limbs and s bits lower. */
  ghost predicate ShrOk(now: seq<Limb>, a: seq<Limb>, i: nat, k: nat, s: nat)
    requires i <= |now| == |a| && s < 32
  {
    if i <= k then forall j :: 0 <= j < |now| ==> now[j] == 0
    else
      && LVal(a[..i]) == LVal(now[..i - k]) * (Pow2(s) * Weight(k)) + Lost(a, k, s)
      && now[i - k - 1] == Top(a[i - 1], s)
      && forall j :: i - k <= j < |now| ==> now[j] == 0
  }

  lemma ShrFirst(now: seq<Limb>, a: seq<Limb>, k: nat, s: nat, next: seq<Limb>)
    requires k < |now| == |a| == |next| && s < 32 && ShrOk(now, a, k, k, s)
    requires next[0] == Top(a[k], s) && forall j :: 1 <= j < |next| ==> next[j] == 0
    ensures ShrOk(next, a, k + 1, k, s)
  {
    assert next[..0] == [] && LVal(next[..0]) == 0;
    hide LVal, Weight, Pow2, Top;
    LValTake(a, k);
    LValTake(next, 0);
    WeightStep(0);
    SplitBack(a[k], s);
    FirstLimb(a[k], Top(a[k], s), Rem(a[k], Pow2(s)), Pow2(s), Weight(k));
  }

  lemma FirstLimb(x: nat, top: nat, r: nat, p: nat, w: nat)
    requires x == top * p + r
    ensures x * w == top * (p * w) + r * w
  {
    MulAssoc(top, p, w);
    MulAdd(top * p, r, w);
  }

  lemma ShrStep(now: seq<Limb>, a: seq<Limb>, i: nat, k: nat, s: nat, next: seq<Limb>)
    requires k < i < |now| == |a| == |next| && s < 32 && ShrOk(now, a, i, k, s)
    requires next[..i - k - 1] == now[..i - k - 1]
    requires next[i - k - 1] == now[i - k - 1] + Bottom(a[i], s) && next[i - k] == Top(a[i], s)
    requires forall j :: i - k < j < |next| ==> next[j] == 0
    ensures ShrOk(next, a, i + 1, k, s)
  {
    hide LVal, Weight, Pow2, Top, Bottom, Lost;
    var m := i - k;
    LValTake(a, i);
    LValTake(next, m);
    LValTake(next, m - 1);
    LValTake(now, m - 1);
    WeightStep(m - 1);
    WeightAdd(m, k);
    SplitBack(a[i], s);
    ShrLimb(a[i], Top(a[i], s), Bottom(a[i], s), Rem(a[i], Pow2(s)), Pow2(s), Pow2(32 - s), Weight(i), Weight(k),
            Weight(m), Weight(m - 1));
    MulAdd(now[m - 1], Bottom(a[i], s), Weight(m - 1));
    MulAdd(LVal(now[..m]), Bottom(a[i], s) * Weight(m - 1) + Top(a[i], s) * Weight(m), Pow2(s) * Weight(k));
  }

  lemma ShrEnd(now: seq<Limb>, a: seq<Limb>, k: nat, s: nat)
    requires k < |now| == |a| && s < 32 && ShrOk(now, a, |a|, k, s)
    ensures LVal(now) == LVal(a) / Pow2(32 * k + s)
  {
    var n := |a|;
    var f := Pow2(s) * Weight(k);
    assert a[..n] == a;
    LValBound(a[..k]);
    ShiftFactor(k, s);
    SplitBack(a[k], s);
    ShrTop(now, n - k);
    assert Lost(a, k, s) == LVal(a[..k]) + Rem(a[k], Pow2(s)) * Weight(k);
    assert LVal(a) == LVal(now) * f + Lost(a, k, s);
    hide *;
    var r := Rem(a[k], Pow2(s));
    MulLe(r + 1, Pow2(s), Weight(k));
    MulAdd(r, 1, Weight(k));
    MulLe(0, r, Weight(k));
    QuotientIs(LVal(a), f, LVal(now), Lost(a, k, s));
  }

  lemma {:induction false} ShrTop(now: seq<Limb>, m: nat)
    requires m <= |now| && forall j :: m <= j < |now| ==> now[j] == 0
    ensures LVal(now) == LVal(now[..m])
  {
    LValSplit(now, m);
    LValZeros(now[m..]);
  }

  /** Everything is shifted out. */
  lemma ShrAllOut(now: seq<Limb>, a: seq<Limb>, k: nat, s: nat)
    requires |now| == |a| <= k && forall j :: 0 <= j < |now| ==> now[j] == 0
    ensures LVal(now) == LVal(a) / Pow2(32 * k + s)
  {
    LValZeros(now);
    LValBound(a);
    Pow2Monotone(32 * |a|, 32 * k + s);
    hide LVal, Pow2;
    QuotientIs(LVal(a), Pow2(32 * k + s), 0, LVal(a));
  }

  /** a >>= shift. */
  method ShiftRight(pn: array<Limb>, shift: nat)
    modifies pn
    ensures LVal(pn[..]) == LVal(old(pn[..])) / Pow2(shift)
  {
    hide LVal, Weight, Pow2, ShrOk;
    var a := pn[..];
    var n := pn.Length;
    Clear(pn);
    var k, s := shift / 32, shift % 32;
    ShrStart(pn[..], a, k, s);
    for i := 0 to n
      invariant ShrOk(pn[..], a, i, k, s)
    {
      ShrPlace(pn, a, i, k, s);
    }
    ShrDone(pn[..], a, k, s);
    assert shift == 32 * k + s;
  }

  lemma ShrStart(now: seq<Limb>, a: seq<Limb>, k: nat, s: nat)
    requires |now| == |a| && s < 32 && forall j :: 0 <= j < |now| ==> now[j] == 0
    ensures ShrOk(now, a, 0, k, s)
  {
  }

  lemma ShrDone(now: seq<Limb>, a: seq<Limb>, k: nat, s: nat)
    requires |now| == |a| && s < 32 && ShrOk(now, a, |a|, k, s)
    ensures LVal(now) == LVal(a) / Pow2(32 * k + s)
  {
    if k < |a| {
      ShrEnd(now, a, k, s);
    } else {
      ShrAllOut(now, a, k, s);
    }
  }

  /** One round of the loop. */
  method ShrPlace(pn: array<Limb>, a: seq<Limb>, i: nat, k: nat, s: nat)
    requires i < pn.Length == |a| && s < 32 && ShrOk(pn[..], a, i, k, s)
    modifies pn
    ensures ShrOk(pn[..], a, i + 1, k, s)
  {
    hide LVal, Weight, Low, Pow2, Top, Lost;
    ghost var was := pn[..];
    SplitBack(a[i], s);
    if i - k - 1 >= 0 && s != 0 {
      SplitBack(a[i - 1], s);
      assert pn[i - k - 1] == was[i - k - 1] == Top(a[i - 1], s);
      OrDisjoint(pn[i - k - 1], Rem(a[i], Pow2(s)), 32 - s);
      ShrFits(a[i], s, pn[i - k - 1]);
      pn[i - k - 1] := Or(pn[i - k - 1], Low(a[i], 32 - s));
    }
    if i - k >= 0 {
      assert pn[i - k] == was[i - k] == 0;
      pn[i - k] := Or(pn[i - k], Top(a[i], s));
      if i == k {
        ShrFirst(was, a, k, s, pn[..]);
      } else {
        ShrStep(was, a, i, k, s, pn[..]);
      }
    } else {
      assert pn[..] == was;
    }
  }

  lemma ShrFits(x: Limb, s: nat, below: nat)
    requires 0 < s < 32 && below < Pow2(32 - s)
    ensures below + Bottom(x, s) < LIMB
  {
    hide *;
    SplitBack(x, s);
    RoomBelow(Rem(x, Pow2(s)), Pow2(s), Pow2(32 - s), below);
  }

  lemma RoomBelow(r: nat, p: nat, q: nat, below: nat)
    requires r < p && below < q
    ensures below + r * q < q * p
  {
    MulLe(r + 1, p, q);
    MulAdd(r, 1, q);
  }

  // ---------------------------------------------------------------- bit length

  /** r is the position just above the highest set bit. */
  ghost predicate IsBits(v: nat, r: nat) { v < Pow2(r) && (r > 0 ==> v >= Pow2(r - 1)) }

  predicate BitSet(x: Limb, nbits: nat) { Quot(x, Pow2(nbits)) % 2 == 1 }

  lemma HighestBit(x: Limb, nbits: nat)
    requires x < Pow2(nbits + 1)
    ensures BitSet(x, nbits) <==> x >= Pow2(nbits)
  {
    var p := Pow2(nbits);
    assert Pow2(nbits + 1) == 2 * p;
    hide Pow2;
    if x >= p {
      QuotientIs(x, p, 1, x - p);
    } else {
      QuotientIs(x, p, 0, x);
    }
  }

  /** The highest nonzero limb decides. */
  lemma BitsOfLimb(pn: seq<Limb>, pos: nat, nbits: nat)
    requires pos < |pn| && Pow2(nbits) <= pn[pos] < Pow2(nbits + 1)
    requires forall j :: pos < j < |pn| ==> pn[j] == 0
    ensures IsBits(LVal(pn), 32 * pos + nbits + 1)
  {
    hide LVal, Pow2;
    ShrTop(pn, pos + 1);
    LValTake(pn, pos);
    LValBound(pn[..pos]);
    Pow2Add(nbits, 32 * pos);
    Pow2Add(nbits + 1, 32 * pos);
    assert nbits + 32 * pos == 32 * pos + nbits && nbits + 1 + 32 * pos == 32 * pos + nbits + 1;
    Between(LVal(pn[..pos]), pn[pos], Weight(pos), Pow2(nbits), Pow2(nbits + 1));
  }

  lemma Between(low: nat, x: nat, w: nat, p: nat, q: nat)
    requires low < w && p <= x < q
    ensures p * w <= low + x * w < q * w
  {
    MulLe(p, x, w);
    MulLe(x + 1, q, w);
    MulAdd(x, 1, w);
  }

  method Bits(pn: seq<Limb>) returns (r: nat)
    ensures IsBits(LVal(pn), r) && r <= 32 * |pn|
  {
    hide LVal, IsBits, BitSet;
    Pow2At31();
    assert Pow2(0) == 1;
    hide Pow2;
    var pos := |pn| - 1;
    while pos >= 0
      invariant -1 <= pos < |pn| && forall j :: pos < j < |pn| ==> pn[j] == 0
      decreases pos + 1
    {
      if pn[pos] != 0 {
        var nbits := 31;
        while nbits > 0
          invariant 0 <= nbits <= 31 && pn[pos] < Pow2(nbits + 1)
        {
          HighestBit(pn[pos], nbits);
          if BitSet(pn[pos], nbits) {
            BitsOfLimb(pn, pos, nbits);
            return 32 * pos + nbits + 1;
          }
          nbits := nbits - 1;
        }
        BitsOfLimb(pn, pos, 0);
        return 32 * pos + 1;
      }
      pos := pos - 1;
    }
    LValZeros(pn);
    ZeroBits();
    r := 0;
  }

  lemma ZeroBits()
    ensures IsBits(0, 0)
  {
  }
}
