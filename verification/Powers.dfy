/** Products, quotients and powers of two, shared by the tree shape, the codecs and the limb arithmetic. */
module Powers {
  lemma MulLe(a: int, b: int, c: int)
    requires a <= b && 0 <= c
    ensures a * c <= b * c
  {
  }

  lemma MulAdd(a: int, b: int, c: int)
    ensures (a + b) * c == a * c + b * c
  {
  }

  lemma MulEq(a: int, b: int, c: int)
    requires b == c
    ensures a * b == a * c
  {
  }

  lemma MulSwap(a: int, b: int, c: int)
    ensures a * (b * c) == b * (a * c)
  {
  }

  lemma MulAssoc(a: int, b: int, c: int)
    ensures (a * b) * c == a * (b * c)
  {
  }

  lemma DivMod(a: nat, d: nat)
    requires d > 0
    ensures a == (a / d) * d + a % d && 0 <= a % d < d && 0 <= a / d
  {
  }

  /** Quotient and remainder, kept folded. */
  function Quot(a: nat, d: nat): nat
    requires d > 0
  {
    a / d
  }

  function Rem(a: nat, d: nat): nat
    requires d > 0
  {
    a % d
  }

  lemma QuotRem(a: nat, d: nat)
    requires d > 0
    ensures a == Quot(a, d) * d + Rem(a, d) && Rem(a, d) < d
  {
    DivMod(a, d);
  }

  /** A quotient is the only multiplier that leaves a remainder in range. */
  lemma QuotientIs(a: int, d: int, q: int, r: int)
    requires a == q * d + r && 0 <= r < d
    ensures a / d == q && a % d == r
  {
    var q', r' := a / d, a % d;
    assert a == q' * d + r';
    if q < q' {
      MulLe(q + 1, q', d);
      MulAdd(q, 1, d);
    } else if q' < q {
      MulLe(q' + 1, q, d);
      MulAdd(q', 1, d);
    }
  }

  /** The least multiplier that reaches a. */
  lemma Ceiling(a: nat, d: nat) returns (c: nat)
    requires d > 0
    ensures a <= c * d < a + d
  {
    c := (a + d - 1) / d;
    DivMod(a + d - 1, d);
  }

  /** Dividing by p and then by q is dividing by their product. */
  lemma DivDiv(a: nat, p: nat, q: nat)
    requires p > 0 && q > 0
    ensures p * q > 0 && a / (p * q) == (a / p) / q
  {
    var u, r := a / p, a % p;
    var s, t := u / q, u % q;
    assert a == u * p + r && u == s * q + t;
    MulAdd(s * q, t, p);
    assert (s * q) * p == s * (p * q);
    MulLe(t, q - 1, p);
    MulAdd(q, -1, p);
    assert q * p == p * q;
    MulLe(0, t, p);
    MulLe(1, q, p);
    QuotientIs(a, p * q, s, t * p + r);
  }

  function Pow2(k: nat): (r: nat)
    ensures r >= 1
  {
    if k == 0 then 1 else 2 * Pow2(k - 1)
  }

  lemma {:induction false} Pow2Add(a: nat, b: nat)
    ensures Pow2(a + b) == Pow2(a) * Pow2(b)
    decreases b
  {
    if b == 0 {
      assert a + b == a;
    } else {
      Pow2Add(a, b - 1);
      assert a + b - 1 == a + (b - 1);
      calc {
        Pow2(a + b);
        2 * Pow2(a + (b - 1));
        2 * (Pow2(a) * Pow2(b - 1));
        Pow2(a) * (2 * Pow2(b - 1));
      }
    }
  }

  lemma {:induction false} Pow2Monotone(a: nat, b: nat)
    requires a <= b
    ensures Pow2(a) <= Pow2(b)
    decreases b
  {
    if a < b {
      Pow2Monotone(a, b - 1);
    }
  }

  lemma Pow2At31()
    ensures Pow2(8) == 0x100 && Pow2(16) == 0x1_0000
    ensures Pow2(31) == 0x8000_0000 && Pow2(32) == 0x1_0000_0000
  {
    assert Pow2(8) == 256;
    Pow2Add(8, 8);
    Pow2Add(16, 15);
    assert Pow2(16) == 2 * Pow2(15);
  }
}
