/** Schoolbook product and shift-subtract quotient of limb numbers (src/arith_uint256.cpp). */
module LimbDivide {
  import opened Powers
  import opened Limbs
  import opened LimbShift

  // ---------------------------------------------------------------- product

  /** i limbs of one row x * b, placed j limbs up, have been added. */
  ghost predicate RowOk(now: seq<Limb>, was: seq<Limb>, b: seq<Limb>, x: Limb, i: nat, j: nat, carry: nat)
    requires |now| == |was| == |b| && i + j <= |b|
  {
    && now[i + j..] == was[i + j..]
    && LVal(now[..i + j]) + carry * Weight(i + j) == LVal(was[..i + j]) + (x * LVal(b[..i])) * Weight(j)
  }

  lemma RowStart(was: seq<Limb>, b: seq<Limb>, x: Limb, j: nat)
    requires |was| == |b| && j <= |b|
    ensures RowOk(was, was, b, x, 0, j, 0)
  {
  }

  /** The arithmetic of one limb of a row. */
  lemma RowLimb(v: nat, was: nat, c: nat, y: nat, x: nat, z: nat, row: nat, q: nat, d: nat, w: nat, wi: nat, wj: nat)
    requires v + c * w == was + (x * row) * wj && c + y + x * z == q * LIMB + d && w == wi * wj
    ensures (v + d * w) + q * (LIMB * w) == (was + y * w) + (x * (row + z * wi)) * wj
  {
    MulAssoc(q, LIMB, w);
    MulAdd(q * LIMB, d, w);
    MulAdd(c + y, x * z, w);
    MulAdd(c, y, w);
    assert (x * z) * w == (x * (z * wi)) * wj by {
      MulAssoc(x * z, wi, wj);
      MulAssoc(x, z, wi);
    }
    assert x * (row + z * wi) == x * row + x * (z * wi);
    MulAdd(x * row, x * (z * wi), wj);
  }

  lemma RowStep(now: seq<Limb>, was: seq<Limb>, b: seq<Limb>, x: Limb, i: nat, j: nat, carry: nat, q: nat, d: Limb)
    requires |now| == |was| == |b| && i + j < |b| && RowOk(now, was, b, x, i, j, carry)
    requires carry + now[i + j] + x * b[i] == q * LIMB + d
    ensures RowOk(now[i + j := d], was, b, x, i + 1, j, q)
  {
    hide LVal, Weight;
    var m := i + j;
    var next := now[m := d];
    assert now[m] == now[m..][0] == was[m..][0] == was[m];
    assert next[m + 1..] == now[m..][1..] == was[m..][1..] == was[m + 1..];
    assert next[..m] == now[..m];
    LValTake(next, m);
    LValTake(was, m);
    LValTake(b, i);
    WeightStep(m);
    WeightAdd(i, j);
    RowLimb(LVal(now[..m]), LVal(was[..m]), carry, was[m], x, b[i], LVal(b[..i]), q, d, Weight(m), Weight(i),
            Weight(j));
  }

  /** A limb product with two carries still fits in 64 bits, and its carry in 32. */
  lemma ProductFits(carry: nat, y: nat, x: nat, z: nat)
    requires carry < LIMB && y < LIMB && x < LIMB && z < LIMB
    ensures carry + y + x * z < LIMB * LIMB && (carry + y + x * z) / LIMB < LIMB
  {
    MulLe(x, LIMB - 1, z);
    MulLe(z, LIMB - 1, LIMB - 1);
  }

  method AddRow(acc: array<Limb>, b: seq<Limb>, x: Limb, j: nat)
    requires |b| == acc.Length && j <= |b|
    modifies acc
    ensures exists carry: nat ::
              LVal(acc[..]) + carry * Weight(|b|) == LVal(old(acc[..])) + (x * LVal(b[..|b| - j])) * Weight(j)
  {
    hide LVal, Weight, RowOk;
    ghost var was := acc[..];
    var carry: nat := 0;
    RowStart(was, b, x, j);
    var i := 0;
    while i + j < |b|
      invariant 0 <= i <= |b| - j && carry < LIMB && RowOk(acc[..], was, b, x, i, j, carry)
    {
      ProductFits(carry, acc[i + j], x, b[i]);
      var n: nat := carry + acc[i + j] + x * b[i];
      DivMod(n, LIMB);
      var d: Limb, q: nat := n % LIMB, n / LIMB;
      RowStep(acc[..], was, b, x, i, j, carry, q, d);
      ghost var mid := acc[..];
      acc[i + j] := d;
      assert acc[..] == mid[i + j := d];
      carry := q;
      i := i + 1;
    }
    RowEnd(acc[..], was, b, x, j, carry);
  }

  lemma RowEnd(now: seq<Limb>, was: seq<Limb>, b: seq<Limb>, x: Limb, j: nat, carry: nat)
    requires |now| == |was| == |b| && j <= |b| && RowOk(now, was, b, x, |b| - j, j, carry)
    ensures LVal(now) + carry * Weight(|b|) == LVal(was) + (x * LVal(b[..|b| - j])) * Weight(j)
  {
    assert now[..|b|] == now && was[..|b|] == was;
  }

  /** One more row, modulo the width. */
  lemma RowTotal(now: nat, was: nat, c: nat, x: nat, lo: nat, hi: nat, part: nat, w: nat, wj: nat, wnj: nat)
    requires now + c * w == was + (x * lo) * wj && now < w && w == wnj * wj
    requires was == (part * (lo + hi * wnj)) % w
    ensures now == ((part + x * wj) * (lo + hi * wnj)) % w
  {
    var all := lo + hi * wnj;
    var m := part * all;
    MulLe(0, part, all);
    DivMod(m, w);
    var k := m / w;
    MulAdd(part, x * wj, all);
    assert (x * wj) * all == (x * lo) * wj + (x * hi) * w by {
      MulAdd(lo, hi * wnj, x * wj);
      assert lo * (x * wj) == (x * lo) * wj by {
        MulSwap(lo, x, wj);
        MulAssoc(x, lo, wj);
      }
      Regroup(hi, wnj, x, wj);
    }
    MulAdd(k, x * hi, w);
    MulAdd(k + x * hi, c, w);
    MulLe(0, x, hi);
    DropCarry(now, k + x * hi + c, w, (part + x * wj) * all);
  }

  /** Copy all limbs. */
  method Assign(pn: array<Limb>, s: seq<Limb>)
    requires |s| == pn.Length
    modifies pn
    ensures pn[..] == s
  {
    for i := 0 to pn.Length
      invariant pn[..i] == s[..i]
    {
      pn[i] := s[i];
    }
  }

  /** a *= b, modulo the width. */
  method MultiplyBy(pn: array<Limb>, b: seq<Limb>)
    requires |b| == pn.Length
    modifies pn
    ensures LVal(pn[..]) == (LVal(old(pn[..])) * LVal(b)) % Weight(pn.Length)
  {
    hide LVal, Weight;
    var n := pn.Length;
    var a := new Limb[n](_ => 0);
    LValZeros(a[..]);
    ghost var was := pn[..];
    ProductStart(was, b);
    for j := 0 to n
      invariant pn[..] == was
      invariant LVal(a[..]) == (LVal(was[..j]) * LVal(b)) % Weight(n)
    {
      ghost var before := LVal(a[..]);
      AddRow(a, b, pn[j], j);
      ProductRow(was, b, j, before, a[..]);
    }
    assert was[..n] == was;
    Assign(pn, a[..]);
  }

  lemma ProductStart(was: seq<Limb>, b: seq<Limb>)
    ensures 0 == (LVal(was[..0]) * LVal(b)) % Weight(|b|)
  {
    assert LVal(was[..0]) == 0;
    hide LVal, Weight;
    QuotientIs(0, Weight(|b|), 0, 0);
  }

  lemma ProductRow(was: seq<Limb>, b: seq<Limb>, j: nat, before: nat, now: seq<Limb>)
    requires |was| == |b| == |now| && j < |b| && before == (LVal(was[..j]) * LVal(b)) % Weight(|b|)
    requires exists carry: nat :: LVal(now) + carry * Weight(|b|) == before + (was[j] * LVal(b[..|b| - j])) * Weight(j)
    ensures LVal(now) == (LVal(was[..j + 1]) * LVal(b)) % Weight(|b|)
  {
    hide LVal, Weight;
    var n := |b|;
    var carry: nat :| LVal(now) + carry * Weight(n) == before + (was[j] * LVal(b[..n - j])) * Weight(j);
    LValTake(was, j);
    LValSplit(b, n - j);
    LValBound(now);
    WeightAdd(n - j, j);
    RowTotal(LVal(now), before, carry, was[j], LVal(b[..n - j]), LVal(b[n - j..]), LVal(was[..j]), Weight(n),
             Weight(j), Weight(n - j));
  }

  // ---------------------------------------------------------------- quotient

  lemma {:induction false} OrCommutes(a: nat, b: nat)
    ensures Or(a, b) == Or(b, a)
    decreases a
  {
    if a > 0 && b > 0 {
      OrCommutes(a / 2, b / 2);
    }
  }

  /** In a multiple of 2^(32 i + r + 1) limb i is a multiple of 2^(r + 1). */
  lemma LimbMultiple(pn: seq<Limb>, i: nat, r: nat, t: nat) returns (y: nat)
    requires i < |pn| && r < 32 && LVal(pn) == t * Pow2(32 * i + r + 1)
    ensures pn[i] == y * Pow2(r + 1) && pn[i] + Pow2(r + 1) <= LIMB
  {
    hide LVal, Pow2, Weight;
    var p, q, w := Pow2(r + 1), Pow2(31 - r), Weight(i);
    LimbFactors(r + 1);
    ShiftFactor(i, r + 1);
    assert 32 * i + r + 1 == 32 * i + (r + 1);
    LValSplit(pn, i);
    LValBound(pn[..i]);
    LValSplit(pn[i..], 1);
    LowLimb(pn, i);
    WeightStep(0);
    var low, high, tail := LVal(pn[..i]), LVal(pn[i..]), LVal(pn[i..][1..]);
    MulAssoc(t, p, w);
    LowVanishes(low, high, t * p, w);
    assert pn[i] + tail * LIMB == t * p;
    y := FactorOut(pn[i], tail, t, p, q);
  }

  lemma LowLimb(pn: seq<Limb>, i: nat)
    requires i < |pn|
    ensures LVal(pn[i..][..1]) == pn[i] && Weight(1) == LIMB
  {
    WeightStep(0);
    LValTake(pn[i..], 0);
    assert LVal(pn[i..][..0]) == 0;
  }

  lemma LowVanishes(low: nat, high: nat, m: nat, w: nat)
    requires low < w && low + high * w == m * w
    ensures low == 0 && high == m
  {
    QuotientIs(m * w, w, high, low);
    QuotientIs(m * w, w, m, 0);
  }

  lemma FactorOut(x: nat, tail: nat, t: nat, p: nat, q: nat) returns (y: nat)
    requires x + tail * LIMB == t * p && x < LIMB == q * p && p > 0
    ensures x == y * p && x + p <= LIMB
  {
    MulAssoc(tail, q, p);
    MulAdd(t, -(tail * q), p);
    var z := t - tail * q;
    assert x == z * p;
    if z < 0 {
      MulLe(z, -1, p);
      assert false;
    }
    if z >= q {
      MulLe(q, z, p);
      assert false;
    }
    MulLe(z + 1, q, p);
    MulAdd(z, 1, p);
    y := z;
  }

  /** Setting a bit below all set bits adds its weight. */
  method SetBit(pn: array<Limb>, shift: nat, ghost t: nat)
    requires shift < 32 * pn.Length && LVal(pn[..]) == t * Pow2(shift + 1)
    modifies pn
    ensures LVal(pn[..]) == LVal(old(pn[..])) + Pow2(shift)
  {
    hide LVal, Weight, Pow2;
    ghost var was := pn[..];
    var i, r := shift / 32, shift % 32;
    assert 32 * i + r + 1 == shift + 1;
    ghost var y := LimbMultiple(was, i, r, t);
    OrBit(y, r);
    pn[i] := Or(pn[i], Pow2(r));
    assert pn[..] == was[i := was[i] + Pow2(r)];
    BumpLimb(was, i, r);
  }

  lemma OrBit(y: nat, r: nat)
    ensures Or(y * Pow2(r + 1), Pow2(r)) == y * Pow2(r + 1) + Pow2(r) && Pow2(r) < Pow2(r + 1)
  {
    assert Pow2(r + 1) == 2 * Pow2(r);
    hide Pow2, Or;
    OrDisjoint(Pow2(r), y, r + 1);
    OrCommutes(Pow2(r), y * Pow2(r + 1));
  }

  lemma BumpLimb(was: seq<Limb>, i: nat, r: nat)
    requires i < |was| && was[i] + Pow2(r) < LIMB
    ensures LVal(was[i := was[i] + Pow2(r)]) == LVal(was) + Pow2(32 * i + r)
  {
    hide LVal, Weight, Pow2;
    var next: seq<Limb> := was[i := was[i] + Pow2(r)];
    assert next[..i] == was[..i] && next[i + 1..] == was[i + 1..];
    LValTake(next, i);
    LValTake(was, i);
    ShiftFactor(i, r);
    MulAdd(was[i], Pow2(r), Weight(i));
    TailCarries(next, was, i + 1, Pow2(32 * i + r));
  }

  /** Before the round for bit `shift`: what is left is below twice the shifted divisor. */
  ghost predicate DivOk(n: nat, d: nat, q: nat, r: nat, v: nat, shift: int, t: nat) {
    && shift >= -1
    && n == q * d + r && r < d * Pow2(shift + 1) && q == t * Pow2(shift + 1)
    && (shift >= 0 ==> v == d * Pow2(shift))
  }

  lemma DivStart(n: nat, d: nat, nb: nat, db: nat)
    requires IsBits(n, nb) && IsBits(d, db) && 0 < db <= nb
    ensures DivOk(n, d, 0, n, d * Pow2(nb - db), nb - db, 0) && d * Pow2(nb - db) < Pow2(nb)
  {
    var s := nb - db;
    Pow2Add(db, s);
    Pow2Add(db - 1, s + 1);
    hide Pow2;
    MulLe(Pow2(db - 1), d, Pow2(s + 1));
    MulLe(d + 1, Pow2(db), Pow2(s));
    MulAdd(d, 1, Pow2(s));
  }

  /** The divisor fits: the bit goes into the quotient. */
  lemma DivTake(n: nat, d: nat, q: nat, r: nat, v: nat, shift: nat, t: nat)
    requires DivOk(n, d, q, r, v, shift, t) && r >= v
    ensures DivOk(n, d, q + Pow2(shift), r - v, v / 2, shift - 1, 2 * t + 1)
  {
    var p := Pow2(shift);
    assert Pow2(shift + 1) == 2 * p;
    HalfDivisor(d, v, shift);
    hide Pow2;
    MulAdd(q, p, d);
    MulSwap(d, 2, p);
    MulSwap(t, 2, p);
    MulAdd(2 * t, 1, p);
    MulAssoc(2, t, p);
  }

  /** The divisor does not fit. */
  lemma DivSkip(n: nat, d: nat, q: nat, r: nat, v: nat, shift: nat, t: nat)
    requires DivOk(n, d, q, r, v, shift, t) && r < v
    ensures DivOk(n, d, q, r, v / 2, shift - 1, 2 * t)
  {
    var p := Pow2(shift);
    assert Pow2(shift + 1) == 2 * p;
    HalfDivisor(d, v, shift);
    hide Pow2;
    MulSwap(t, 2, p);
    MulAssoc(2, t, p);
  }

  lemma HalfDivisor(d: nat, v: nat, shift: nat)
    requires v == d * Pow2(shift)
    ensures shift > 0 ==> v / 2 == d * Pow2(shift - 1)
  {
    if shift > 0 {
      MulSwap(d, 2, Pow2(shift - 1));
    }
  }

  lemma DivEnd(n: nat, d: nat, q: nat, r: nat, v: nat, t: nat)
    requires DivOk(n, d, q, r, v, -1, t)
    ensures r < d && q == n / d && r == n % d
  {
    assert Pow2(0) == 1;
    QuotientIs(n, d, q, r);
  }

  lemma Small(v: int, w: nat)
    requires 0 <= v < w
    ensures v % w == v
  {
    QuotientIs(v, w, 0, v);
  }

  /** One round for one bit of the quotient. */
  method DivRound(pn: array<Limb>, num: array<Limb>, div: array<Limb>, shift: nat, ghost n: nat, ghost d: nat,
                  ghost t: nat)
    returns (ghost t': nat)
    requires pn != num && pn != div && num != div && pn.Length == num.Length == div.Length && shift < 32 * pn.Length
    requires DivOk(n, d, LVal(pn[..]), LVal(num[..]), LVal(div[..]), shift, t)
    modifies pn, num, div
    ensures DivOk(n, d, LVal(pn[..]), LVal(num[..]), LVal(div[..]), shift - 1, t')
  {
    hide LVal, Weight, Pow2, DivOk;
    var order := CompareTo(num[..], div[..]);
    ghost var q, r, v := LVal(pn[..]), LVal(num[..]), LVal(div[..]);
    if order >= 0 {
      DivTake(n, d, q, r, v, shift, t);
      LValBound(num[..]);
      Small(r - v, Weight(num.Length));
      SubFrom(num, div[..]);
      DivQuotient(n, d, q, r, v, shift, t);
      SetBit(pn, shift, t);
      t' := 2 * t + 1;
    } else {
      DivSkip(n, d, q, r, v, shift, t);
      t' := 2 * t;
    }
    OnePower();
    ShiftRight(div, 1);
  }

  lemma OnePower()
    ensures Pow2(1) == 2
  {
    assert Pow2(0) == 1;
  }

  lemma DivQuotient(n: nat, d: nat, q: nat, r: nat, v: nat, shift: nat, t: nat)
    requires DivOk(n, d, q, r, v, shift, t)
    ensures q == t * Pow2(shift + 1)
  {
  }

  /** a /= b. Division by zero is reported, after the dividend has been cleared. */
  method DivideBy(pn: array<Limb>, b: seq<Limb>) returns (ok: bool, num: array<Limb>)
    requires |b| == pn.Length
    modifies pn
    ensures fresh(num)
    ensures ok <==> LVal(b) != 0
    ensures ok ==> LVal(pn[..]) == LVal(old(pn[..])) / LVal(b) && LVal(num[..]) == LVal(old(pn[..])) % LVal(b)
    ensures !ok ==> LVal(pn[..]) == 0
  {
    hide LVal, Weight, Pow2, DivOk, IsBits;
    var width := pn.Length;
    var div := new Limb[width](i requires 0 <= i < width => b[i]);
    num := new Limb[width](i requires 0 <= i < width reads pn => pn[i]);
    assert div[..] == b && num[..] == pn[..];
    ghost var n, d := LVal(pn[..]), LVal(b);
    Clear(pn);
    LValZeros(pn[..]);
    var numBits := Bits(num[..]);
    var divBits := Bits(div[..]);
    ZeroIffNoBits(d, divBits);
    if divBits == 0 {
      return false, num;
    }
    if divBits > numBits {
      FewerBits(n, d, numBits, divBits);
      return true, num;
    }
    var shift: int := numBits - divBits;
    DivStart(n, d, numBits, divBits);
    FitsWidth(numBits, width);
    Small(d * Pow2(shift), Weight(width));
    ShiftLeft(div, shift);
    ghost var t: nat := 0;
    while shift >= 0
      invariant -1 <= shift < 32 * width
      invariant fresh(num) && fresh(div) && num != div
      invariant DivOk(n, d, LVal(pn[..]), LVal(num[..]), LVal(div[..]), shift, t)
      decreases shift + 1
    {
      t := DivRound(pn, num, div, shift, n, d, t);
      shift := shift - 1;
    }
    DivEnd(n, d, LVal(pn[..]), LVal(num[..]), LVal(div[..]), t);
    ok := true;
  }

  lemma ZeroIffNoBits(d: nat, db: nat)
    requires IsBits(d, db)
    ensures db == 0 <==> d == 0
  {
    assert Pow2(0) == 1;
  }

  lemma FewerBits(n: nat, d: nat, nb: nat, db: nat)
    requires IsBits(n, nb) && IsBits(d, db) && db > nb
    ensures d != 0 && n / d == 0 && n % d == n
  {
    Pow2Monotone(nb, db - 1);
    hide Pow2;
    QuotientIs(n, d, 0, n);
  }

  lemma FitsWidth(nb: nat, width: nat)
    requires nb <= 32 * width
    ensures Pow2(nb) <= Weight(width)
  {
    Pow2Monotone(nb, 32 * width);
  }
}
