/** Golomb-Rice codes and range reduction of src/blockfilter.cpp, over bit sequences. */
module GolombCode {
  import opened Common
  import opened Powers

  // ---------------------------------------------------------------- bits

  function Ones(q: nat): (r: seq<bool>)
    ensures |r| == q && forall i :: 0 <= i < q ==> r[i]
  {
    seq(q, _ => true)
  }

  /** The n low bits of x, highest first. */
  function BitsOf(x: nat, n: nat): (r: seq<bool>)
    ensures |r| == n
  {
    if n == 0 then [] else BitsOf(x / 2, n - 1) + [x % 2 == 1]
  }

  function Num(bits: seq<bool>): nat {
    if bits == [] then 0 else 2 * Num(bits[..|bits| - 1]) + if bits[|bits| - 1] then 1 else 0
  }

  lemma {:induction false} NumBits(x: nat, n: nat)
    ensures Num(BitsOf(x, n)) == x % Pow2(n)
  {
    if n > 0 {
      NumBits(x / 2, n - 1);
      var p := Pow2(n - 1);
      var high := BitsOf(x / 2, n - 1);
      assert (high + [x % 2 == 1])[..n - 1] == high;
      assert Num(BitsOf(x, n)) == 2 * ((x / 2) % p) + x % 2;
      assert Pow2(n) == 2 * p;
      hide *;
      HalfRemainder(x, p);
    }
  }

  lemma HalfRemainder(x: nat, p: nat)
    requires p > 0
    ensures x % (2 * p) == 2 * ((x / 2) % p) + x % 2
  {
    var h, b := x / 2, x % 2;
    DivMod(h, p);
    var q, r := h / p, h % p;
    assert x == 2 * h + b;
    MulSwap(2, q, p);
    assert 2 * (q * p) == q * (2 * p);
    QuotientIs(x, 2 * p, q, 2 * r + b);
  }

  /** The quotient in unary, a zero, and the low P bits. */
  function Code(p: nat, x: nat): seq<bool> { Ones(Quot(x, Pow2(p))) + [false] + BitsOf(x, p) }

  /** How many ones come first. */
  function Run(bits: seq<bool>): (q: nat)
    ensures q <= |bits| && (forall i :: 0 <= i < q ==> bits[i]) && (q < |bits| ==> !bits[q])
  {
    if bits != [] && bits[0] then 1 + Run(bits[1..]) else 0
  }

  /** The value at the front of a bit sequence and how many bits it takes, or None at the end of the data. */
  function Decoded(p: nat, bits: seq<bool>): (r: Option<(nat, nat)>)
    ensures r.Some? ==> r.value.1 <= |bits|
  {
    var q := Run(bits);
    if q + 1 + p > |bits| then None
    else Some((Joined(q, p, bits[q + 1..q + 1 + p]), q + 1 + p))
  }

  /** (q << P) + r in 64 bits. */
  function Joined(q: nat, p: nat, bits: seq<bool>): nat { (q * Pow2(p) + Num(bits)) % TWO64 }

  lemma {:induction false} RunIs(bits: seq<bool>, q: nat)
    requires q < |bits| && !bits[q] && forall i :: 0 <= i < q ==> bits[i]
    ensures Run(bits) == q
  {
    if q > 0 {
      RunIs(bits[1..], q - 1);
    }
  }

  /** Decoding a code, whatever follows it, gives the number and the code's length. */
  lemma DecodeCode(p: nat, x: nat, rest: seq<bool>)
    requires x < TWO64
    ensures Decoded(p, Code(p, x) + rest) == Some((x, |Code(p, x)|))
  {
    var q := Quot(x, Pow2(p));
    var all := Code(p, x) + rest;
    RunIs(all, q);
    assert all[q + 1..q + 1 + p] == BitsOf(x, p);
    NumBits(x, p);
    QuotRem(x, Pow2(p));
    assert Rem(x, Pow2(p)) == x % Pow2(p);
    hide *;
    assert q * Pow2(p) + x % Pow2(p) == x;
    QuotientIs(x, TWO64, 0, x);
  }

  /** Append the code of x; ones are written at most 64 at a time. */
  method GolombRiceEncode(stream: seq<bool>, p: nat, x: nat) returns (r: seq<bool>)
    requires x < TWO64
    ensures r == stream + Code(p, x)
  {
    hide BitsOf, Pow2, Quot;
    var q := Quot(x, Pow2(p));
    ghost var all := q;
    r := stream;
    while q > 0
      invariant q <= all && r == stream + Ones(all - q)
    {
      var nbits := if q <= 64 then q else 64;
      assert Ones(all - q) + Ones(nbits) == Ones(all - (q - nbits));
      r := r + Ones(nbits);
      q := q - nbits;
    }
    r := r + [false];
    r := r + BitsOf(x, p);
    assert r == stream + Code(p, x);
  }

  /** Read one code at a position; `ok` is false where the source runs out of data. */
  method GolombRiceDecode(bits: seq<bool>, p: nat, pos: nat) returns (ok: bool, x: nat, next: nat)
    requires pos <= |bits|
    ensures next <= |bits|
    ensures ok <==> Decoded(p, bits[pos..]).Some?
    ensures ok ==> Decoded(p, bits[pos..]) == Some((x, next - pos)) && next >= pos
  {
    hide Joined;
    var q := 0;
    next := pos;
    ghost var rest := bits[pos..];
    while next < |bits| && bits[next]
      invariant pos <= next <= |bits| && q == next - pos
      invariant forall i :: 0 <= i < q ==> rest[i]
    {
      q, next := q + 1, next + 1;
    }
    if next == |bits| {
      AllOnes(rest);
      return false, 0, next;
    }
    RunIs(rest, q);
    next := next + 1;
    if next + p > |bits| {
      return false, 0, next;
    }
    assert bits[next..next + p] == rest[q + 1..q + 1 + p];
    x := Joined(q, p, bits[next..next + p]);
    next := next + p;
    ok := true;
  }

  lemma {:induction false} AllOnes(bits: seq<bool>)
    requires forall i :: 0 <= i < |bits| ==> bits[i]
    ensures Run(bits) == |bits|
  {
    if bits != [] {
      AllOnes(bits[1..]);
    }
  }

  // ---------------------------------------------------------------- range reduction

  /** The four products of the halves add up to the whole product. */
  lemma FourProducts(xh: nat, xl: nat, nh: nat, nl: nat)
    ensures (xh * TWO32 + xl) * (nh * TWO32 + nl) ==
              Times(xh, nh) * TWO64 + (Times(xh, nl) + Times(xl, nh)) * TWO32 + Times(xl, nl)
  {
    var n := nh * TWO32 + nl;
    MulAdd(xh * TWO32, xl, n);
    MulAssoc(xh, TWO32, n);
    assert xh * (TWO32 * n) == xh * (nh * TWO64) + xh * (nl * TWO32);
    assert xl * n == xl * (nh * TWO32) + xl * nl;
    MulAssoc(xh, nh, TWO64);
    MulAssoc(xh, nl, TWO32);
    MulAssoc(xl, nh, TWO32);
  }

  lemma HalfProduct(a: nat, b: nat)
    requires a < TWO32 && b < TWO32
    ensures Times(a, b) <= (TWO32 - 1) * (TWO32 - 1)
  {
    MulLe(a, TWO32 - 1, b);
    MulLe(b, TWO32 - 1, TWO32 - 1);
  }

  /** Four 64-bit products give the upper half of the 128-bit one, and nothing overflows. */
  method MapIntoRange(x: nat, n: nat) returns (upper64: nat)
    requires x < TWO64 && n < TWO64
    ensures upper64 == x * n / TWO64
    ensures n > 0 ==> upper64 < n
  {
    var xHi, xLo := x / TWO32, x % TWO32;
    var nHi, nLo := n / TWO32, n % TWO32;
    var ac, ad, bc, bd := Times(xHi, nHi), Times(xHi, nLo), Times(xLo, nHi), Times(xLo, nLo);
    Pieces(x, n, xHi, xLo, nHi, nLo);
    hide Times;
    assert ac < TWO64 && ad < TWO64 && bc < TWO64 && bd < TWO64;
    var mid34 := bd / TWO32 + bc % TWO32 + ad % TWO32;
    assert mid34 < TWO64;
    upper64 := ac + bc / TWO32 + ad / TWO32 + mid34 / TWO32;
    assert upper64 < TWO64;
  }

  /** A product, kept folded. */
  function Times(a: nat, b: nat): nat { a * b }

  lemma Pieces(x: nat, n: nat, xh: nat, xl: nat, nh: nat, nl: nat)
    requires x == xh * TWO32 + xl && n == nh * TWO32 + nl && x < TWO64
    requires xh < TWO32 && xl < TWO32 && nh < TWO32 && nl < TWO32
    ensures var ac, ad, bc, bd := Times(xh, nh), Times(xh, nl), Times(xl, nh), Times(xl, nl);
            && ac < TWO64 && ad < TWO64 && bc < TWO64 && bd < TWO64
            && ac + bc / TWO32 + ad / TWO32 + (bd / TWO32 + bc % TWO32 + ad % TWO32) / TWO32 == x * n / TWO64 < TWO64
            && (n > 0 ==> x * n / TWO64 < n)
  {
    HalfProduct(xh, nh);
    HalfProduct(xh, nl);
    HalfProduct(xl, nh);
    HalfProduct(xl, nl);
    FourProducts(xh, xl, nh, nl);
    UpperHalf(x * n, Times(xh, nh), Times(xh, nl), Times(xl, nh), Times(xl, nl));
    BelowRange(x, n);
  }

  lemma UpperHalf(product: nat, ac: nat, ad: nat, bc: nat, bd: nat)
    requires product == ac * TWO64 + (ad + bc) * TWO32 + bd
    ensures var mid34 := bd / TWO32 + bc % TWO32 + ad % TWO32;
            ac + bc / TWO32 + ad / TWO32 + mid34 / TWO32 == product / TWO64
  {
    var mid34 := bd / TWO32 + bc % TWO32 + ad % TWO32;
    var upper := ac + bc / TWO32 + ad / TWO32 + mid34 / TWO32;
    assert product == upper * TWO64 + (mid34 % TWO32) * TWO32 + bd % TWO32;
  }

  lemma BelowRange(x: nat, n: nat)
    requires x < TWO64
    ensures n > 0 ==> x * n / TWO64 < n
    ensures n < TWO64 ==> x * n / TWO64 < TWO64
  {
    MulLe(x, TWO64 - 1, n);
    assert (TWO64 - 1) * n == TWO64 * n - n;
  }
}
