/** Numbers as digit strings, most significant digit first, in any base. */
module Numerals {
  import opened Powers

  function Pow(b: nat, k: nat): (r: nat)
    ensures b >= 1 ==> r >= 1
  {
    if k == 0 then 1 else b * Pow(b, k - 1)
  }

  lemma {:induction false} PowAdd(b: nat, j: nat, k: nat)
    ensures Pow(b, j + k) == Pow(b, j) * Pow(b, k)
    decreases k
  {
    if k == 0 {
      assert j + k == j;
    } else {
      PowAdd(b, j, k - 1);
      assert j + k - 1 == j + (k - 1);
      assert Pow(b, j + k) == b * Pow(b, j + (k - 1)) && Pow(b, k) == b * Pow(b, k - 1);
      hide Pow;
      MulSwap(b, Pow(b, j), Pow(b, k - 1));
    }
  }

  lemma {:induction false} PowMonotone(b: nat, j: nat, k: nat)
    requires b >= 1 && j <= k
    ensures Pow(b, j) <= Pow(b, k)
    decreases k
  {
    if j < k {
      PowMonotone(b, j, k - 1);
      MulLe(1, b, Pow(b, k - 1));
    }
  }

  ghost predicate InBase(b: nat, ds: seq<nat>) { forall i :: 0 <= i < |ds| ==> ds[i] < b }

  /** The number a digit string stands for. */
  function Val(b: nat, ds: seq<nat>): nat {
    if ds == [] then 0 else Val(b, ds[..|ds| - 1]) * b + ds[|ds| - 1]
  }

  /** The shortest digit string of a number; zero has none. */
  function Digits(b: nat, v: nat): (ds: seq<nat>)
    requires b >= 2
    ensures InBase(b, ds)
  {
    if v == 0 then [] else Digits(b, v / b) + [v % b]
  }

  function Zeros(n: nat): (z: seq<nat>)
    ensures |z| == n && forall i :: 0 <= i < n ==> z[i] == 0
  {
    seq(n, _ => 0)
  }

  lemma ValSnoc(b: nat, ds: seq<nat>, d: nat)
    ensures Val(b, ds + [d]) == Val(b, ds) * b + d
  {
    assert (ds + [d])[..|ds|] == ds;
  }

  lemma {:induction false} ValConcat(b: nat, hi: seq<nat>, lo: seq<nat>)
    ensures Val(b, hi + lo) == Val(b, hi) * Pow(b, |lo|) + Val(b, lo)
    decreases |lo|
  {
    if lo == [] {
      assert hi + lo == hi;
    } else {
      var rest, d := lo[..|lo| - 1], lo[|lo| - 1];
      ValConcat(b, hi, rest);
      assert hi + lo == (hi + rest) + [d];
      ValSnoc(b, hi + rest, d);
      var h, p, v := Val(b, hi), Pow(b, |rest|), Val(b, rest);
      assert Pow(b, |lo|) == b * p;
      hide *;
      MulAdd(h * p, v, b);
      MulAssoc(h, p, b);
      assert p * b == b * p;
    }
  }

  lemma {:induction false} ValBound(b: nat, ds: seq<nat>)
    requires InBase(b, ds)
    ensures Val(b, ds) < Pow(b, |ds|) || (b == 0 && ds == [])
  {
    if ds != [] {
      var rest, d := ds[..|ds| - 1], ds[|ds| - 1];
      ValBound(b, rest);
      assert d < b;
      MulLe(Val(b, rest), Pow(b, |rest|) - 1, b);
      assert (Pow(b, |rest|) - 1) * b == b * Pow(b, |rest|) - b;
    }
  }

  lemma {:induction false} ValZeros(b: nat, ds: seq<nat>)
    requires forall i :: 0 <= i < |ds| ==> ds[i] == 0
    ensures Val(b, ds) == 0
  {
    if ds != [] {
      ValZeros(b, ds[..|ds| - 1]);
    }
  }

  lemma ValSkipZeros(b: nat, zs: seq<nat>, ds: seq<nat>)
    requires forall i :: 0 <= i < |zs| ==> zs[i] == 0
    ensures Val(b, zs + ds) == Val(b, ds)
  {
    ValZeros(b, zs);
    ValConcat(b, zs, ds);
  }

  /** Writing a number out and reading it back. */
  lemma {:induction false} ValDigits(b: nat, v: nat)
    requires b >= 2
    ensures Val(b, Digits(b, v)) == v && InBase(b, Digits(b, v))
    ensures if v == 0 then Digits(b, v) == [] else Digits(b, v) != [] && Digits(b, v)[0] != 0
  {
    if v > 0 {
      var q, d := DigitsStep(b, v);
      hide Digits;
      ValDigits(b, q);
      ValSnoc(b, Digits(b, q), d);
    }
  }

  lemma DigitsStep(b: nat, v: nat) returns (q: nat, d: nat)
    requires b >= 2 && v > 0
    ensures q < v && d < b && v == q * b + d && Digits(b, v) == Digits(b, q) + [d]
  {
    q, d := v / b, v % b;
    DivMod(v, b);
    MulLe(2, b, q);
  }

  /** A digit string without leading zero is the one its number has. */
  lemma {:induction false} DigitsVal(b: nat, ds: seq<nat>)
    requires b >= 2 && InBase(b, ds) && (ds != [] ==> ds[0] != 0)
    ensures Digits(b, Val(b, ds)) == ds
  {
    if ds != [] {
      var rest, d := ds[..|ds| - 1], ds[|ds| - 1];
      DigitsVal(b, rest);
      QuotientIs(Val(b, ds), b, Val(b, rest), d);
      assert ds == rest + [d];
      if rest != [] {
        LeadPositive(b, rest);
      }
    }
  }

  lemma {:induction false} LeadPositive(b: nat, ds: seq<nat>)
    requires b >= 2 && ds != [] && ds[0] != 0
    ensures Val(b, ds) > 0
  {
    if |ds| > 1 {
      LeadPositive(b, ds[..|ds| - 1]);
      MulLe(1, Val(b, ds[..|ds| - 1]), b);
    } else {
      assert Val(b, ds[..0]) == 0;
    }
  }

  // ---------------------------------------------------------------- multiplying in place

  /** mult * v + c, kept folded. */
  function Affine(mult: nat, v: nat, c: nat): nat { mult * v + c }

  /** One digit of a multiply-and-add pass. */
  lemma CarryStep(b: nat, mult: nat, x: nat, carry: nat, p: nat, v: nat, was: nat, c: nat, q: nat, d: nat)
    requires v + carry * p == mult * was + c
    requires carry + mult * x == q * b + d
    ensures (d * p + v) + q * (b * p) == mult * (x * p + was) + c
  {
    MulAdd(q * b, d, p);
    MulAssoc(q, b, p);
    MulAdd(carry, mult * x, p);
    MulAssoc(mult, x, p);
    MulAdd(x * p, was, mult);
  }

  lemma ValCons(b: nat, d: nat, ds: seq<nat>)
    ensures Val(b, [d] + ds) == d * Pow(b, |ds|) + Val(b, ds)
  {
    ValConcat(b, [d], ds);
    assert Val(b, [d]) == Val(b, [d][..0]) * b + d;
  }

  /** After i digits of a pass: the digits done and the carry hold what the same digits held before. */
  ghost predicate PassOk(b: nat, mult: nat, c: nat, now: seq<nat>, was: seq<nat>, i: nat, carry: nat)
    requires i <= |now| == |was|
  {
    && now[..|now| - i] == was[..|was| - i]
    && Val(b, now[|now| - i..]) + carry * Pow(b, i) == Affine(mult, Val(b, was[|was| - i..]), c)
  }

  lemma PassStart(b: nat, mult: nat, c: nat, was: seq<nat>)
    ensures PassOk(b, mult, c, was, was, 0, c)
  {
    assert was[|was|..] == [];
    assert Val(b, []) == 0;
  }

  lemma PassStep(b: nat, mult: nat, c: nat, now: seq<nat>, was: seq<nat>, i: nat, carry: nat, q: nat, d: nat)
    requires b >= 2 && i < |now| == |was| && PassOk(b, mult, c, now, was, i, carry)
    requires Affine(mult, now[|now| - 1 - i], carry) == Affine(b, q, d)
    ensures PassOk(b, mult, c, now[|now| - 1 - i := d], was, i + 1, q)
  {
    var n := |now|;
    var at := n - 1 - i;
    var next := now[at := d];
    assert now[at] == now[..n - i][at] == was[..n - i][at] == was[at];
    assert next[..at] == now[..n - i][..at] == was[..n - i][..at] == was[..at];
    assert next[at..] == [d] + now[n - i..];
    assert was[at..] == [was[at]] + was[n - i..];
    ValCons(b, d, now[n - i..]);
    ValCons(b, was[at], was[n - i..]);
    assert Pow(b, i + 1) == b * Pow(b, i);
    hide Val, Pow;
    CarryStep(b, mult, was[at], carry, Pow(b, i), Val(b, now[n - i..]), Val(b, was[n - i..]), c, q, d);
  }

  lemma PassEnd(b: nat, mult: nat, c: nat, now: seq<nat>, was: seq<nat>, i: nat, carry: nat, length: nat)
    requires b >= 2 && i <= |now| == |was| && PassOk(b, mult, c, now, was, i, carry) && length <= |now|
    requires forall k :: 0 <= k < |was| - length ==> was[k] == 0
    requires Affine(mult, Val(b, was), c) < Pow(b, |was|)
    requires i == |now| || (carry == 0 && i >= length)
    ensures carry == 0 && Val(b, now) == Affine(mult, Val(b, was), c)
    ensures forall k :: 0 <= k < |now| - i ==> now[k] == 0
  {
    hide Val, Pow, Affine;
    var n := |now|;
    forall k | 0 <= k < n - i ensures now[k] == 0 && was[k] == 0 {
      assert now[k] == now[..n - i][k] == was[..n - i][k];
    }
    assert now == now[..n - i] + now[n - i..];
    assert was == was[..n - i] + was[n - i..];
    ValSkipZeros(b, now[..n - i], now[n - i..]);
    ValSkipZeros(b, was[..n - i], was[n - i..]);
    if i == n {
      NoCarry(Val(b, now), carry, Pow(b, n));
    } else {
      assert carry * Pow(b, i) == 0;
    }
  }

  lemma NoCarry(v: nat, carry: nat, p: nat)
    requires v + carry * p < p
    ensures carry == 0
  {
    if carry > 0 {
      MulLe(1, carry, p);
    }
  }

  /** Quotient and remainder of one digit step. */
  method SplitDigit(b: nat, mult: nat, x: nat, carry: nat) returns (q: nat, d: nat)
    requires b >= 2
    ensures d < b && Affine(mult, x, carry) == Affine(b, q, d)
  {
    var t := carry + mult * x;
    DivMod(t, b);
    q, d := t / b, t % b;
  }

  /** The number in the buffer becomes mult times itself plus c, if the buffer has room for that; only
      the last `length` digits can be other than zero before, and the last `i` after. */
  method MultiplyAdd(a: array<nat>, b: nat, mult: nat, c: nat, length: nat) returns (i: nat)
    requires b >= 2 && length <= a.Length && InBase(b, a[..])
    requires forall k :: 0 <= k < a.Length - length ==> a[k] == 0
    requires Affine(mult, Val(b, a[..]), c) < Pow(b, a.Length)
    modifies a
    ensures i <= a.Length && InBase(b, a[..])
    ensures forall k :: 0 <= k < a.Length - i ==> a[k] == 0
    ensures Val(b, a[..]) == Affine(mult, Val(b, old(a[..])), c)
  {
    hide Val, Pow, Affine, PassOk;
    var carry := c;
    var n := a.Length;
    ghost var was := a[..];
    i := 0;
    PassStart(b, mult, c, was);
    while (carry != 0 || i < length) && i < n
      invariant i <= n && InBase(b, a[..])
      invariant PassOk(b, mult, c, a[..], was, i, carry)
      decreases n - i
    {
      var at := n - 1 - i;
      var q, d := SplitDigit(b, mult, a[at], carry);
      PassStep(b, mult, c, a[..], was, i, carry, q, d);
      ghost var mid := a[..];
      a[at] := d;
      assert a[..] == mid[at := d];
      carry := q;
      i := i + 1;
    }
    PassEnd(b, mult, c, a[..], was, i, carry, length);
    assert carry == 0;
  }
}
