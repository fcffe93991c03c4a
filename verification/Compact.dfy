/** The compact difficulty format of src/arith_uint256.cpp, on numbers. */
module Compact {
  import opened Powers
  import opened Limbs
  import opened LimbShift

  const WIDTH: nat := 8

  /** 2^256, the first number that does not fit. */
  function Limit(): nat { Weight(WIDTH) }

  /** 256^k. */
  function Bytes(k: nat): (r: nat)
    ensures r >= 1
  {
    Pow2(8 * k)
  }

  lemma BytesAdd(j: nat, k: nat)
    ensures Bytes(j + k) == Bytes(j) * Bytes(k)
  {
    Pow2Add(8 * j, 8 * k);
    assert 8 * (j + k) == 8 * j + 8 * k;
  }

  lemma BytesSmall()
    ensures Bytes(0) == 1 && Bytes(1) == 0x100 && Bytes(2) == 0x1_0000 && Bytes(3) == 0x100_0000 && Limit() == Bytes(32)
  {
    Pow2At31();
    Pow2Add(8, 16);
  }

  lemma BytesMonotone(j: nat, k: nat)
    requires j <= k
    ensures Bytes(j) <= Bytes(k)
  {
    Pow2Monotone(8 * j, 8 * k);
  }

  // ---------------------------------------------------------------- reading a compact word

  function SizeOf(c: nat): nat { c / 0x100_0000 }

  function MantissaOf(c: nat): nat { c % 0x80_0000 }

  predicate SignOf(c: nat) { c / 0x80_0000 % 2 == 1 }

  /** The number the parts of a word stand for, whatever its size. */
  function Scaled(size: nat, mantissa: nat): nat {
    if size <= 3 then Quot(mantissa, Bytes(3 - size)) else mantissa * Bytes(size - 3)
  }

  function ValueOf(c: nat): nat { Scaled(SizeOf(c), MantissaOf(c)) }

  /** The mantissa as SetCompact tests it, cut to the size. */
  function WordOf(c: nat): nat {
    if SizeOf(c) <= 3 then Quot(MantissaOf(c), Bytes(3 - SizeOf(c))) else MantissaOf(c)
  }

  predicate Negative(c: nat) { WordOf(c) != 0 && SignOf(c) }

  predicate Overflow(c: nat) {
    WordOf(c) != 0 && (SizeOf(c) > 34 || (WordOf(c) > 0xff && SizeOf(c) > 33) || (WordOf(c) > 0xffff && SizeOf(c) > 32))
  }

  /** The overflow flag is raised exactly when the number does not fit in 256 bits. */
  lemma OverflowExact(c: nat)
    ensures Overflow(c) <==> ValueOf(c) >= Limit()
  {
    var size, m := SizeOf(c), MantissaOf(c);
    BytesSmall();
    if size <= 3 {
      QuotRem(m, Bytes(3 - size));
      hide *;
      MulLe(1, Bytes(3 - size), Quot(m, Bytes(3 - size)));
      BytesMonotone(3, 32);
    } else {
      LargeOverflow(size, m);
    }
  }

  lemma LargeOverflow(size: nat, m: nat)
    requires size > 3 && m < 0x80_0000
    ensures m * Bytes(size - 3) >= Bytes(32) <==>
              m != 0 && (size > 34 || (m > 0xff && size > 33) || (m > 0xffff && size > 32))
  {
    BytesSmall();
    hide Bytes;
    if size >= 35 {
      BytesMonotone(32, size - 3);
      if m > 0 {
        MulLe(1, m, Bytes(size - 3));
      }
    } else if size >= 32 {
      BytesAdd(35 - size, size - 3);
      assert 35 - size + (size - 3) == 32;
      assert 35 - size == 1 || 35 - size == 2 || 35 - size == 3;
      Scale(m, Bytes(35 - size), Bytes(size - 3));
    } else {
      BytesAdd(3, size - 3);
      BytesMonotone(size, 32);
      assert 3 + (size - 3) == size;
      Scale(m, Bytes(3), Bytes(size - 3));
    }
  }

  lemma Scale(m: nat, bound: nat, unit: nat)
    requires unit > 0
    ensures m * unit >= bound * unit <==> m >= bound
  {
    if m >= bound {
      MulLe(bound, m, unit);
    } else {
      MulLe(m + 1, bound, unit);
      MulAdd(m, 1, unit);
    }
  }

  // ---------------------------------------------------------------- writing a compact word

  function BitLength(x: nat): nat { if x == 0 then 0 else 1 + BitLength(x / 2) }

  lemma {:induction false} BitLengthIs(x: nat)
    ensures IsBits(x, BitLength(x))
  {
    if x > 0 {
      BitLengthIs(x / 2);
      var r := BitLength(x / 2);
      assert Pow2(r + 1) == 2 * Pow2(r);
      if r > 0 {
        assert Pow2(r) == 2 * Pow2(r - 1);
      }
    }
  }

  lemma BitsUnique(x: nat, r: nat, r': nat)
    requires IsBits(x, r) && IsBits(x, r')
    ensures r == r'
  {
    if r < r' {
      Pow2Monotone(r, r' - 1);
    } else if r' < r {
      Pow2Monotone(r', r - 1);
    }
  }

  function ByteLength(x: nat): nat { (BitLength(x) + 7) / 8 }

  lemma ByteLengthIs(x: nat)
    ensures x < Bytes(ByteLength(x)) && (ByteLength(x) > 0 ==> x >= Bytes(ByteLength(x) - 1))
    ensures ByteLength(x) == 0 <==> x == 0
  {
    BitLengthIs(x);
    var r, s := BitLength(x), ByteLength(x);
    assert 8 * s >= r && (s > 0 ==> r - 1 >= 8 * (s - 1));
    Pow2Monotone(r, 8 * s);
    if s > 0 {
      Pow2Monotone(8 * (s - 1), r - 1);
    }
  }

  lemma ByteLengthUnique(x: nat, s: nat)
    requires x < Bytes(s) && s > 0 && x >= Bytes(s - 1)
    ensures ByteLength(x) == s
  {
    ByteLengthIs(x);
    var t := ByteLength(x);
    hide Bytes, ByteLength;
    if t < s {
      BytesMonotone(t, s - 1);
    } else if s < t {
      BytesMonotone(s, t - 1);
    }
  }

  datatype Parts = Parts(size: nat, mantissa: nat)

  /** The top three bytes of x. */
  function TopBytes(x: nat): nat {
    var s := ByteLength(x);
    if s <= 3 then x * Bytes(3 - s) else Quot(x, Bytes(s - 3))
  }

  /** Size and mantissa of x; a mantissa that would look negative gives up its last byte. */
  function PartsOf(x: nat): Parts {
    var s, m := ByteLength(x), TopBytes(x);
    if m >= 0x80_0000 then Parts(s + 1, Quot(m, 0x100)) else Parts(s, m)
  }

  function CompactOf(x: nat): nat { PartsOf(x).size * 0x100_0000 + PartsOf(x).mantissa }

  lemma TopBytesBound(x: nat)
    ensures TopBytes(x) < 0x100_0000 && (x > 0 ==> TopBytes(x) >= 0x1_0000)
  {
    var s := ByteLength(x);
    ByteLengthIs(x);
    BytesSmall();
    hide Bytes, ByteLength;
    if s <= 3 {
      BytesAdd(s, 3 - s);
      assert s + (3 - s) == 3;
      Scale(x, Bytes(s), Bytes(3 - s));
      if s > 0 {
        BytesAdd(s - 1, 3 - s);
        assert s - 1 + (3 - s) == 2;
        Scale(x, Bytes(s - 1), Bytes(3 - s));
      }
    } else {
      BytesAdd(3, s - 3);
      BytesAdd(2, s - 3);
      assert 3 + (s - 3) == s && 2 + (s - 3) == s - 1;
      QuotBound(x, Bytes(s - 3), Bytes(3), Bytes(2));
    }
  }

  lemma QuotBound(x: nat, d: nat, above: nat, below: nat)
    requires d > 0 && below * d <= x < above * d
    ensures below <= Quot(x, d) < above
  {
    QuotRem(x, d);
    var q := Quot(x, d);
    hide Quot, Rem;
    if q >= above {
      MulLe(above, q, d);
      assert false;
    }
    if q < below {
      MulLe(q + 1, below, d);
      MulAdd(q, 1, d);
      assert false;
    }
  }

  /** The parts of a written word read back as they are. */
  lemma PartsReadBack(x: nat)
    ensures var c := CompactOf(x); var p := PartsOf(x);
            SizeOf(c) == p.size && MantissaOf(c) == p.mantissa && !SignOf(c) && p.mantissa < 0x80_0000
  {
    TopBytesBound(x);
    var p := PartsOf(x);
    assert p.mantissa < 0x80_0000 by {
      QuotRem(TopBytes(x), 0x100);
    }
    hide PartsOf;
    WordParts(p.size, p.mantissa);
  }

  lemma WordParts(size: nat, m: nat)
    requires m < 0x80_0000
    ensures var c := size * 0x100_0000 + m; SizeOf(c) == size && MantissaOf(c) == m && !SignOf(c)
  {
    var c := size * 0x100_0000 + m;
    assert c == (2 * size) * 0x80_0000 + m;
  }

  // ---------------------------------------------------------------- what a round trip keeps

  /** The bytes that do not fit in the mantissa. */
  function Dropped(x: nat): nat { if PartsOf(x).size <= 3 then 0 else PartsOf(x).size - 3 }

  /** What is left of x when it is written as a compact word and read again. */
  function Rounded(x: nat): nat { Scaled(PartsOf(x).size, PartsOf(x).mantissa) }

  /** Numbers of at most two bytes are kept whole. */
  lemma KeptShort(x: nat)
    requires ByteLength(x) < 3
    ensures Rounded(x) == x && Dropped(x) == 0
  {
    var s := ByteLength(x);
    BytesSmall();
    BytesAdd(2 - s, 1);
    assert 2 - s + 1 == 3 - s;
    hide Bytes, ByteLength;
    var b := Bytes(2 - s);
    MulAssoc(x, b, 0x100);
    QuotientIs((x * b) * 0x100, 0x100, x * b, 0);
    QuotientIs(x * b, b, x, 0);
    QuotientIs(x * (b * 0x100), b * 0x100, x, 0);
    MulLe(0, x, b);
  }

  /** Of longer numbers the last Dropped(x) bytes are cleared. */
  lemma KeptLong(x: nat)
    requires ByteLength(x) >= 3
    ensures var s, m := ByteLength(x), TopBytes(x);
            && m == Quot(x, Bytes(s - 3))
            && PartsOf(x) == (if m >= 0x80_0000 then Parts(s + 1, Quot(x, Bytes(s - 2))) else Parts(s, m))
            && Rounded(x) == Quot(x, Bytes(Dropped(x))) * Bytes(Dropped(x))
  {
    var s, m := ByteLength(x), TopBytes(x);
    BytesSmall();
    BytesAdd(s - 3, 1);
    assert s - 3 + 1 == s - 2;
    hide Bytes, ByteLength;
    assert m == Quot(x, Bytes(s - 3)) by {
      if s == 3 {
        QuotientIs(x, 1, x, 0);
      }
    }
    DivDiv(x, Bytes(s - 3), 0x100);
    assert Quot(m, 0x100) == Quot(x, Bytes(s - 2));
    hide Quot;
    if m < 0x80_0000 && s == 3 {
      QuotOne(m);
    }
  }

  lemma QuotOne(m: nat)
    ensures Quot(m, 1) == m
  {
  }

  lemma RoundedBound(x: nat)
    ensures Rounded(x) <= x < Rounded(x) + Bytes(Dropped(x))
    ensures x > 0 ==> Rounded(x) >= Bytes(ByteLength(x) - 1)
  {
    hide Bytes, ByteLength, Quot, Scaled, TopBytes;
    ByteLengthIs(x);
    var s := ByteLength(x);
    if s < 3 {
      KeptShort(x);
    } else {
      KeptLong(x);
      var e := Dropped(x);
      assert e == s - 3 || e == s - 2;
      BytesAdd(s - 1 - e, e);
      assert s - 1 - e + e == s - 1;
      hide *;
      QuotRem(x, Bytes(e));
      AtLeast(x, Bytes(e), Bytes(s - 1 - e));
    }
  }

  lemma AtLeast(x: nat, d: nat, below: nat)
    requires d > 0 && x >= below * d
    ensures Quot(x, d) * d >= below * d
  {
    QuotRem(x, d);
    var q := Quot(x, d);
    hide Quot, Rem;
    if q < below {
      MulLe(q + 1, below, d);
      MulAdd(q, 1, d);
      assert false;
    }
    MulLe(below, q, d);
  }

  lemma QuotExact(q: nat, d: nat)
    requires d > 0
    ensures Quot(q * d, d) == q
  {
    MulLe(0, q, d);
    QuotientIs(q * d, d, q, 0);
  }

  /** A rounded number has the parts it came from. */
  lemma RoundedAgain(x: nat)
    ensures PartsOf(Rounded(x)) == PartsOf(x)
  {
    hide Bytes, ByteLength, Quot, Scaled, TopBytes, PartsOf, Rounded;
    var s := ByteLength(x);
    if s < 3 {
      KeptShort(x);
    } else {
      ByteLengthIs(x);
      RoundedBound(x);
      KeptLong(x);
      var y := Rounded(x);
      ByteLengthUnique(y, s);
      KeptLong(y);
      BytesSmall();
      BytesAdd(s - 3, 1);
      assert s - 3 + 1 == s - 2;
      var m := TopBytes(x);
      QuotQuot(x, Bytes(s - 3), 0x100);
      SameTop(m, Bytes(s - 3), Bytes(s - 2), Quot(x, Bytes(s - 2)));
    }
  }

  lemma QuotQuot(x: nat, p: nat, q: nat)
    requires p > 0 && q > 0
    ensures p * q > 0 && Quot(x, p * q) == Quot(Quot(x, p), q)
  {
    DivDiv(x, p, q);
  }

  /** Reading the kept mantissa again gives the same mantissa, cut or not. */
  lemma SameTop(m: nat, b: nat, c: nat, q: nat)
    requires b > 0 && c == b * 0x100 && q == Quot(m, 0x100)
    ensures Quot(m * b, b) == m
    ensures Quot(q * c, c) == q && Quot(q * c, b) == q * 0x100
    ensures m >= 0x80_0000 ==> q * 0x100 >= 0x80_0000
  {
    QuotExact(m, b);
    QuotExact(q, c);
    Swap256(q, b);
    QuotExact(q * 0x100, b);
    if m >= 0x80_0000 {
      TopHalf(m);
    }
  }

  lemma Swap256(q: nat, b: nat)
    ensures q * (b * 0x100) == (q * 0x100) * b
  {
    assert b * 0x100 == 0x100 * b;
    MulAssoc(q, 0x100, b);
  }

  lemma TopHalf(m: nat)
    requires m >= 0x80_0000
    ensures Quot(m, 0x100) * 0x100 >= 0x80_0000
  {
  }

  /** Rounding keeps the order. */
  lemma RoundedMonotone(x: nat, x': nat)
    requires x <= x'
    ensures Rounded(x) <= Rounded(x')
  {
    hide *;
    RoundedBound(x);
    RoundedBound(x');
    ByteLengthIs(x);
    ByteLengthIs(x');
    var s, s' := ByteLength(x), ByteLength(x');
    if s < s' {
      BytesMonotone(s, s' - 1);
    } else if s > s' {
      BytesMonotone(s', s - 1);
    } else if s < 3 {
      KeptShort(x);
      KeptShort(x');
    } else {
      SameLength(x, x', s);
    }
  }

  lemma SameLength(x: nat, x': nat, s: nat)
    requires x <= x' && ByteLength(x) == ByteLength(x') == s >= 3
    ensures Rounded(x) <= Rounded(x')
  {
    KeptLong(x);
    KeptLong(x');
    RoundedBound(x);
    BytesSmall();
    BytesAdd(s - 3, 1);
    assert s - 3 + 1 == s - 2;
    var m, m' := TopBytes(x), TopBytes(x');
    var b, q' := Bytes(s - 3), Quot(x', Bytes(s - 2));
    DivDiv(x', b, 0x100);
    assert q' == Quot(m', 0x100);
    assert Dropped(x) == if m >= 0x80_0000 then s - 2 else s - 3;
    assert Dropped(x') == if m' >= 0x80_0000 then s - 2 else s - 3;
    hide *;
    QuotMonotone(x, x', b);
    if m < 0x80_0000 <= m' {
      QuotRem(x, b);
      MulLe(m + 1, 0x80_0000, b);
      MulAdd(m, 1, b);
      TopHalf(m');
      MulLe(0x80_0000, q' * 0x100, b);
      Swap256(q', b);
    } else {
      QuotMonotone(x, x', Bytes(Dropped(x)));
      MulLe(Quot(x, Bytes(Dropped(x))), Quot(x', Bytes(Dropped(x))), Bytes(Dropped(x)));
    }
  }

  lemma QuotMonotone(x: nat, x': nat, d: nat)
    requires x <= x' && d > 0
    ensures Quot(x, d) <= Quot(x', d)
  {
    QuotRem(x, d);
    QuotRem(x', d);
    var q, q' := Quot(x, d), Quot(x', d);
    hide Quot, Rem;
    if q > q' {
      MulLe(q' + 1, q, d);
      MulAdd(q', 1, d);
    }
  }

  /** Writing and reading a number rounds it down to its mantissa, raises no flag, and writing the
      result again gives the same word. */
  lemma CompactRoundTrip(x: nat)
    requires x < Limit()
    ensures var c := CompactOf(x);
            && c < 0x1_0000_0000 && !Negative(c) && !Overflow(c)
            && ValueOf(c) == Rounded(x) <= x < ValueOf(c) + Bytes(Dropped(x))
            && CompactOf(ValueOf(c)) == c
  {
    hide Bytes, Scaled, PartsOf, SizeOf, MantissaOf, SignOf, WordOf, Overflow, Limit, Dropped;
    PartsReadBack(x);
    RoundedBound(x);
    RoundedAgain(x);
    OverflowExact(CompactOf(x));
    CompactFits(x);
  }

  lemma CompactFits(x: nat)
    requires x < Limit()
    ensures ByteLength(x) <= 32 && PartsOf(x).size <= 33 && CompactOf(x) < 0x1_0000_0000
  {
    ByteLengthIs(x);
    BytesSmall();
    PartsReadBack(x);
    hide Bytes, ByteLength, Limit, SizeOf, MantissaOf, TopBytes, Quot, SignOf;
    if ByteLength(x) > 32 {
      BytesMonotone(32, ByteLength(x) - 1);
      assert false;
    }
  }
}
