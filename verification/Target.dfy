/** Difficulty targets over limbs: SetCompact and GetCompact of src/arith_uint256.cpp and GetBlockProof of
    src/chain.cpp. */
module Target {
  import opened Powers
  import opened Limbs
  import opened LimbShift
  import opened LimbDivide
  import opened Compact

  /** Assignment from a 64-bit number. */
  method AssignLow(pn: array<Limb>, b: nat)
    requires pn.Length == WIDTH && b < LIMB * LIMB
    modifies pn
    ensures LVal(pn[..]) == b
  {
    Clear(pn);
    DivMod(b, LIMB);
    assert b / LIMB < LIMB;
    pn[0] := b % LIMB;
    pn[1] := b / LIMB;
    TwoLimbs(pn[..]);
  }

  lemma LowLimbs(s: seq<Limb>)
    requires |s| >= 2
    ensures LVal(s[..2]) == s[0] + s[1] * LIMB
  {
    assert s[..0] == [] && LVal(s[..0]) == 0;
    hide LVal, Weight;
    LValTake(s, 0);
    LValTake(s, 1);
    WeightStep(0);
  }

  lemma TwoLimbs(s: seq<Limb>)
    requires |s| >= 2
    ensures LVal(s) == s[0] + s[1] * LIMB + LVal(s[2..]) * Weight(2)
    ensures (forall j :: 2 <= j < |s| ==> s[j] == 0) ==> LVal(s) == s[0] + s[1] * LIMB
  {
    hide LVal, Weight;
    LowLimbs(s);
    LValSplit(s, 2);
    if forall j :: 2 <= j < |s| ==> s[j] == 0 {
      LValZeros(s[2..]);
    }
  }

  /** The lowest 64 bits. */
  method GetLow64(s: seq<Limb>) returns (r: nat)
    requires |s| >= 2
    ensures r == LVal(s) % (LIMB * LIMB)
  {
    hide LVal;
    TwoLimbs(s);
    LowTwo(s[0], s[1], LVal(s[2..]));
    r := Or(s[0], s[1] * LIMB);
  }

  lemma LowTwo(a: Limb, b: Limb, rest: nat)
    ensures Or(a, b * LIMB) == (a + b * LIMB + rest * Weight(2)) % (LIMB * LIMB)
  {
    Pow2At31();
    hide Pow2, Weight, Or;
    WeightStep(0);
    WeightStep(1);
    OrDisjoint(a, b, 32);
    LowPart(a + b * LIMB, rest, LIMB * LIMB);
  }

  lemma LowPart(v: nat, rest: nat, w: nat)
    requires v < w
    ensures (v + rest * w) % w == v
  {
    QuotientIs(v + rest * w, w, rest, v);
  }

  /** Read a compact word: the number modulo 2^256, and whether it is negative or does not fit. */
  method SetCompact(pn: array<Limb>, nCompact: nat) returns (fNegative: bool, fOverflow: bool)
    requires pn.Length == WIDTH && nCompact < 0x1_0000_0000
    modifies pn
    ensures LVal(pn[..]) == ValueOf(nCompact) % Limit()
    ensures fNegative == Negative(nCompact) && fOverflow == Overflow(nCompact)
    ensures fOverflow <==> ValueOf(nCompact) >= Limit()
  {
    hide LVal, Weight, Pow2, Quot;
    var nSize := SizeOf(nCompact);
    var nWord := MantissaOf(nCompact);
    if nSize <= 3 {
      CutWord(nWord, nSize);
      nWord := Quot(nWord, Pow2(8 * (3 - nSize)));
      AssignLow(pn, nWord);
    } else {
      AssignLow(pn, nWord);
      ShiftLeft(pn, 8 * (nSize - 3));
    }
    fNegative := nWord != 0 && SignOf(nCompact);
    fOverflow := nWord != 0 && (nSize > 34 || (nWord > 0xff && nSize > 33) || (nWord > 0xffff && nSize > 32));
    OverflowExact(nCompact);
  }

  lemma CutWord(word: nat, size: nat)
    requires size <= 3 && word < 0x80_0000
    ensures Quot(word, Pow2(8 * (3 - size))) <= word
    ensures Quot(word, Pow2(8 * (3 - size))) % Limit() == Quot(word, Pow2(8 * (3 - size)))
  {
    var d := Pow2(8 * (3 - size));
    QuotRem(word, d);
    BytesSmall();
    BytesMonotone(3, 32);
    hide *;
    MulLe(1, d, Quot(word, d));
    Small(Quot(word, d), Limit());
  }

  /** Byte length and top three bytes, as GetCompact extracts them. */
  method Extract(s: seq<Limb>) returns (nSize: nat, nCompact: nat)
    requires |s| == WIDTH
    ensures nSize == ByteLength(LVal(s)) && nCompact == TopBytes(LVal(s))
  {
    hide LVal, Weight, Pow2, TopBytes, ByteLength, BitLength, IsBits;
    ghost var x := LVal(s);
    var bits := Bits(s);
    BitLengthIs(x);
    BitsUnique(x, bits, BitLength(x));
    nSize := (bits + 7) / 8;
    ByteLengthDef(x, bits);
    if nSize <= 3 {
      var low := GetLow64(s);
      TopOfShort(x, nSize);
      nCompact := (low * Pow2(8 * (3 - nSize))) % LIMB;
    } else {
      var bn := new Limb[WIDTH](i requires 0 <= i < |s| => s[i]);
      assert bn[..] == s;
      ShiftRight(bn, 8 * (nSize - 3));
      TopOfLong(x, nSize);
      nCompact := GetLow64(bn[..]);
      nCompact := nCompact % LIMB;
    }
  }

  /** Write a number as a compact word. */
  method GetCompact(s: seq<Limb>, fNegative: bool) returns (nCompact: nat)
    requires |s| == WIDTH
    ensures var p := PartsOf(LVal(s));
            nCompact == CompactOf(LVal(s)) + if fNegative && p.mantissa != 0 then 0x80_0000 else 0
  {
    hide LVal, Weight, Pow2, Quot, PartsOf, TopBytes, ByteLength, Or, SizeOf, MantissaOf, SignOf, Limit;
    ghost var x := LVal(s);
    BelowLimit(s);
    CompactFits(x);
    PartsStep(x);
    PartsReadBack(x);
    var nSize;
    nSize, nCompact := Extract(s);
    if nCompact >= 0x80_0000 {
      nCompact := Quot(nCompact, 0x100);
      nSize := nSize + 1;
    }
    assert nCompact < 0x80_0000;
    assert nSize < 256;
    OrParts(nSize, nCompact);
    nCompact := Or(nCompact, nSize * 0x100_0000);
    if fNegative && nCompact % 0x80_0000 != 0 {
      nCompact := Or(nCompact, 0x80_0000);
    }
  }

  lemma BelowLimit(s: seq<Limb>)
    requires |s| == WIDTH
    ensures LVal(s) < Limit()
  {
    LValBound(s);
  }

  lemma ByteLengthDef(x: nat, bits: nat)
    requires bits == BitLength(x)
    ensures ByteLength(x) == (bits + 7) / 8
  {
  }

  lemma PartsStep(x: nat)
    ensures var m := TopBytes(x);
            PartsOf(x) == if m >= 0x80_0000 then Parts(ByteLength(x) + 1, Quot(m, 0x100)) else Parts(ByteLength(x), m)
  {
  }

  lemma TopOfShort(x: nat, s: nat)
    requires s == ByteLength(x) <= 3
    ensures x % (LIMB * LIMB) == x && (x * Pow2(8 * (3 - s))) % LIMB == TopBytes(x)
  {
    ByteLengthIs(x);
    BytesSmall();
    BytesMonotone(s, 3);
    TopBytesBound(x);
    assert TopBytes(x) == x * Pow2(8 * (3 - s));
    hide *;
    Small(x, LIMB * LIMB);
    Small(TopBytes(x), LIMB);
  }

  lemma TopOfLong(x: nat, s: nat)
    requires s == ByteLength(x) > 3
    ensures x / Pow2(8 * (s - 3)) == TopBytes(x) && TopBytes(x) % (LIMB * LIMB) == TopBytes(x)
    ensures TopBytes(x) % LIMB == TopBytes(x)
  {
    TopBytesBound(x);
    assert TopBytes(x) == Quot(x, Pow2(8 * (s - 3))) == x / Pow2(8 * (s - 3));
    hide *;
    Small(TopBytes(x), LIMB);
    Small(TopBytes(x), LIMB * LIMB);
  }

  /** Bits above s are untouched by an or below s. */
  lemma {:induction false} OrBelow(x: nat, z: nat, y: nat, s: nat)
    requires x < Pow2(s) && z < Pow2(s)
    ensures Or(x + y * Pow2(s), z) == Or(x, z) + y * Pow2(s)
    decreases s
  {
    if s > 0 && z > 0 {
      var w := y * Pow2(s - 1);
      assert y * Pow2(s) == 2 * w by {
        MulSwap(y, 2, Pow2(s - 1));
      }
      OrBelow(x / 2, z / 2, y, s - 1);
      assert (x + 2 * w) / 2 == x / 2 + w && (x + 2 * w) % 2 == x % 2;
      MulLe(0, y, Pow2(s - 1));
      OrHalves(x + 2 * w, z);
      OrHalves(x, z);
    }
  }

  lemma OrHalves(a: nat, b: nat)
    ensures Or(a, b) == (if a % 2 == 1 || b % 2 == 1 then 1 else 0) + 2 * Or(a / 2, b / 2)
  {
  }

  lemma OrParts(size: nat, m: nat)
    requires m < 0x80_0000
    ensures var c := size * 0x100_0000 + m;
            Or(m, size * 0x100_0000) == c && Or(c, 0x80_0000) == c + 0x80_0000 && c % 0x80_0000 == m
  {
    hide *;
    MantissaPowers();
    WordRemainder(size, m);
    MulEq(size, Pow2(24), 0x100_0000);
    OrDisjoint(m, size, 24);
    OrDisjoint(m, 1, 23);
    OrBelow(m, 0x80_0000, size, 24);
  }

  lemma MantissaPowers()
    ensures Pow2(23) == 0x80_0000 && Pow2(24) == 0x100_0000
  {
    BytesSmall();
    assert Pow2(24) == 2 * Pow2(23);
  }

  lemma WordRemainder(size: nat, m: nat)
    requires m < 0x80_0000
    ensures (size * 0x100_0000 + m) % 0x80_0000 == m
  {
    QuotientIs(size * 0x100_0000 + m, 0x80_0000, 2 * size, m);
  }

  // ---------------------------------------------------------------- the work behind a target

  /** A number read from a compact word is never 2^256 - 1, so adding one does not wrap. */
  lemma TargetBelowTop(c: nat)
    requires ValueOf(c) < Limit()
    ensures ValueOf(c) + 1 < Limit()
  {
    var size, m := SizeOf(c), MantissaOf(c);
    BytesSmall();
    BytesAdd(1, 31);
    BytesMonotone(4, 32);
    BytesAdd(1, 3);
    if size <= 3 {
      QuotRem(m, Bytes(3 - size));
      hide *;
      MulLe(1, Bytes(3 - size), Quot(m, Bytes(3 - size)));
    } else {
      BytesAdd(1, size - 4);
      assert 1 + (size - 4) == size - 3;
      hide *;
      MulSwap(m, 0x100, Bytes(size - 4));
      Apart(m * Bytes(size - 4), Bytes(31));
    }
  }

  lemma Apart(a: int, b: int)
    requires 0x100 * a < 0x100 * b
    ensures 0x100 * a + 1 < 0x100 * b
  {
  }

  /** ~t / (t + 1) + 1 is the quotient of 2^256 that cannot be formed directly. */
  lemma ProofQuotient(t: nat, w: nat)
    requires 0 < t < t + 1 < w
    ensures (w - 1 - t) / (t + 1) + 1 == w / (t + 1) < w
  {
    var d := t + 1;
    DivMod(w - d, d);
    var q, r := (w - d) / d, (w - d) % d;
    MulAdd(q, 1, d);
    QuotientIs(w, d, q + 1, r);
    MulLe(2, d, q + 1);
  }

  /** The expected work of a block: 2^256 / (target + 1), or none for a word that is no target. */
  method GetBlockProof(nBits: nat) returns (r: array<Limb>)
    requires nBits < 0x1_0000_0000
    ensures r.Length == WIDTH
    ensures LVal(r[..]) ==
              if Negative(nBits) || Overflow(nBits) || ValueOf(nBits) == 0 then 0
              else Limit() / (ValueOf(nBits) + 1)
  {
    hide LVal, Weight, Limit, ValueOf, Negative, Overflow;
    LimitIs();
    var bnTarget := new Limb[WIDTH](_ => 0);
    var fNegative, fOverflow := SetCompact(bnTarget, nBits);
    var zero := new Limb[WIDTH](_ => 0);
    LValZeros(zero[..]);
    var order := CompareTo(bnTarget[..], zero[..]);
    ghost var t := ValueOf(nBits);
    if !fOverflow {
      Small(t, Limit());
    }
    if fNegative || fOverflow || order == 0 {
      return zero;
    }
    TargetBelowTop(nBits);
    ProofQuotient(t, Limit());
    var one := new Limb[WIDTH](_ => 0);
    AssignLow(one, 1);
    r := new Limb[WIDTH](_ => 0);
    Assign(r, Flip(bnTarget[..]));
    FlipValue(bnTarget[..]);
    Small(t + 1, Limit());
    AddTo(bnTarget, one[..]);
    var ok, rem := DivideBy(r, bnTarget[..]);
    assert ok;
    Small(Limit() / (t + 1), Limit());
    AddTo(r, one[..]);
  }

  lemma LimitIs()
    ensures Limit() == Weight(WIDTH)
  {
  }
}
