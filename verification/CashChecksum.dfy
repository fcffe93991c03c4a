/** The 40-bit checksum of src/cashaddr.cpp: eight coefficients in GF(32), packed. */
module CashChecksum {
  /** A 5-bit value. */
  type Value = x: bv40 | x < 32

  function Xor(a: bv40, b: bv40): bv40 { a ^ b }

  /** c ^= k under a condition. */
  function AddIf(c: bv40, on: bool, k: bv40): bv40 { if on then Xor(c, k) else c }

  function Shift(c: bv40): bv40 { (c & 0x07_ffff_ffff) << 5 }

  predicate Bit(c0: bv40, mask: bv40) { c0 & mask != 0 }

  /** One more value: multiply by x, add it, reduce by the generator. */
  function Step(c: bv40, d: bv40): bv40 {
    var c0 := c >> 35;
    var s0 := Xor(Shift(c), d);
    var s1 := AddIf(s0, Bit(c0, 0x01), 0x98_f2bc_8e61);
    var s2 := AddIf(s1, Bit(c0, 0x02), 0x79_b76d_99e2);
    var s3 := AddIf(s2, Bit(c0, 0x04), 0xf3_3e5f_b3c4);
    var s4 := AddIf(s3, Bit(c0, 0x08), 0xae_2eab_e2a8);
    AddIf(s4, Bit(c0, 0x10), 0x1e_4f43_e470)
  }

  function Fold(c: bv40, v: seq<Value>): bv40 {
    if v == [] then c else Step(Fold(c, v[..|v| - 1]), v[|v| - 1])
  }

  method PolyMod(v: seq<Value>) returns (r: bv40)
    ensures r == Xor(Fold(1, v), 1)
  {
    hide Step;
    var c: bv40 := 1;
    for i := 0 to |v|
      invariant c == Fold(1, v[..i])
    {
      assert v[..i + 1][..i] == v[..i];
      c := Step(c, v[i]);
    }
    assert v[..|v|] == v;
    r := Xor(c, 1);
  }

  // ---------------------------------------------------------------- the step is linear and loses nothing

  lemma XorMedial(a: bv40, b: bv40, c: bv40, d: bv40)
    ensures Xor(Xor(a, b), Xor(c, d)) == Xor(Xor(a, c), Xor(b, d))
  {
    hide Xor;
    XorAssoc(a, b, Xor(c, d));
    XorAssoc(b, c, d);
    XorComm(b, c);
    XorAssoc(c, b, d);
    XorAssoc(a, c, Xor(b, d));
  }

  lemma XorAssoc(a: bv40, b: bv40, c: bv40)
    ensures Xor(Xor(a, b), c) == Xor(a, Xor(b, c))
  {
  }

  lemma XorComm(a: bv40, b: bv40)
    ensures Xor(a, b) == Xor(b, a)
  {
  }

  lemma XorUnit(a: bv40)
    ensures Xor(a, 0) == a && Xor(0, a) == a && Xor(a, a) == 0
  {
  }

  lemma XorBack(a: bv40, b: bv40)
    ensures Xor(Xor(a, b), b) == a
  {
    assert (a ^ b) ^ b == a;
  }

  lemma XorSame(a: bv40, b: bv40)
    ensures Xor(a, b) == 0 <==> a == b
  {
    hide Xor;
    XorUnit(b);
    XorBack(a, b);
  }

  lemma AddIfLinear(c: bv40, c': bv40, on: bool, on': bool, k: bv40)
    ensures AddIf(Xor(c, c'), on != on', k) == Xor(AddIf(c, on, k), AddIf(c', on', k))
  {
    hide Xor;
    XorUnit(k);
    XorUnit(c);
    XorUnit(c');
    XorUnit(Xor(c, c'));
    XorMedial(c, c', k, 0);
    XorMedial(c, c', 0, k);
    XorMedial(c, c', k, k);
  }

  lemma BitLinear(a: bv40, b: bv40)
    ensures Bit(Xor(a, b), 0x01) == (Bit(a, 0x01) != Bit(b, 0x01))
    ensures Bit(Xor(a, b), 0x02) == (Bit(a, 0x02) != Bit(b, 0x02))
    ensures Bit(Xor(a, b), 0x04) == (Bit(a, 0x04) != Bit(b, 0x04))
    ensures Bit(Xor(a, b), 0x08) == (Bit(a, 0x08) != Bit(b, 0x08))
    ensures Bit(Xor(a, b), 0x10) == (Bit(a, 0x10) != Bit(b, 0x10))
  {
    hide Bit, Xor;
    Mask1(a, b);
    Mask2(a, b);
    Mask4(a, b);
    Mask8(a, b);
    Mask16(a, b);
  }

  lemma Mask1(a: bv40, b: bv40)
    ensures Bit(Xor(a, b), 0x01) == (Bit(a, 0x01) != Bit(b, 0x01))
  {
  }

  lemma Mask2(a: bv40, b: bv40)
    ensures Bit(Xor(a, b), 0x02) == (Bit(a, 0x02) != Bit(b, 0x02))
  {
  }

  lemma Mask4(a: bv40, b: bv40)
    ensures Bit(Xor(a, b), 0x04) == (Bit(a, 0x04) != Bit(b, 0x04))
  {
  }

  lemma Mask8(a: bv40, b: bv40)
    ensures Bit(Xor(a, b), 0x08) == (Bit(a, 0x08) != Bit(b, 0x08))
  {
  }

  lemma Mask16(a: bv40, b: bv40)
    ensures Bit(Xor(a, b), 0x10) == (Bit(a, 0x10) != Bit(b, 0x10))
  {
  }

  lemma ShiftLinear(c: bv40, c': bv40)
    ensures Shift(Xor(c, c')) == Xor(Shift(c), Shift(c')) && Xor(c, c') >> 35 == Xor(c >> 35, c' >> 35)
  {
  }

  /** Adding two runs adds their checksums. */
  lemma StepLinear(c: bv40, c': bv40, d: bv40, d': bv40)
    ensures Step(Xor(c, c'), Xor(d, d')) == Xor(Step(c, d), Step(c', d'))
  {
    hide Xor, AddIf, Shift, Bit;
    ShiftLinear(c, c');
    XorMedial(Shift(c), Shift(c'), d, d');
    var c0, e0 := c >> 35, c' >> 35;
    BitLinear(c0, e0);
    var s0, t0 := Xor(Shift(c), d), Xor(Shift(c'), d');
    AddIfLinear(s0, t0, Bit(c0, 0x01), Bit(e0, 0x01), 0x98_f2bc_8e61);
    var s1, t1 := AddIf(s0, Bit(c0, 0x01), 0x98_f2bc_8e61), AddIf(t0, Bit(e0, 0x01), 0x98_f2bc_8e61);
    AddIfLinear(s1, t1, Bit(c0, 0x02), Bit(e0, 0x02), 0x79_b76d_99e2);
    var s2, t2 := AddIf(s1, Bit(c0, 0x02), 0x79_b76d_99e2), AddIf(t1, Bit(e0, 0x02), 0x79_b76d_99e2);
    AddIfLinear(s2, t2, Bit(c0, 0x04), Bit(e0, 0x04), 0xf3_3e5f_b3c4);
    var s3, t3 := AddIf(s2, Bit(c0, 0x04), 0xf3_3e5f_b3c4), AddIf(t2, Bit(e0, 0x04), 0xf3_3e5f_b3c4);
    AddIfLinear(s3, t3, Bit(c0, 0x08), Bit(e0, 0x08), 0xae_2eab_e2a8);
    var s4, t4 := AddIf(s3, Bit(c0, 0x08), 0xae_2eab_e2a8), AddIf(t3, Bit(e0, 0x08), 0xae_2eab_e2a8);
    AddIfLinear(s4, t4, Bit(c0, 0x10), Bit(e0, 0x10), 0x1e_4f43_e470);
  }

  /** Multiplying by x keeps nonzero residues nonzero. */
  lemma StepZero(c: bv40)
    ensures Step(c, 0) == 0 <==> c == 0
  {
  }

  // ---------------------------------------------------------------- whole lists

  lemma ValueXor(a: Value, b: Value)
    ensures Xor(a, b) < 32
  {
  }

  function XorAll(v: seq<Value>, w: seq<Value>): (r: seq<Value>)
    requires |v| == |w|
    ensures |r| == |v| && forall i :: 0 <= i < |v| ==> r[i] == Xor(v[i], w[i])
  {
    seq(|v|, i requires 0 <= i < |v| => ValueXor(v[i], w[i]); Xor(v[i], w[i]))
  }

  lemma {:induction false} FoldLinear(c: bv40, c': bv40, v: seq<Value>, w: seq<Value>)
    requires |v| == |w|
    ensures Fold(Xor(c, c'), XorAll(v, w)) == Xor(Fold(c, v), Fold(c', w))
    decreases |v|
  {
    hide Xor, Step;
    if v != [] {
      var n := |v| - 1;
      FoldLinear(c, c', v[..n], w[..n]);
      assert XorAll(v, w)[..n] == XorAll(v[..n], w[..n]);
      StepLinear(Fold(c, v[..n]), Fold(c', w[..n]), v[n], w[n]);
    }
  }

  lemma {:induction false} FoldConcat(c: bv40, v: seq<Value>, w: seq<Value>)
    ensures Fold(c, v + w) == Fold(Fold(c, v), w)
    decreases |w|
  {
    hide Step;
    if w == [] {
      assert v + w == v;
    } else {
      var n := |w| - 1;
      assert (v + w)[..|v| + n] == v + w[..n];
      FoldConcat(c, v, w[..n]);
    }
  }

  /** The same fold, from the front. */
  function FoldFront(c: bv40, v: seq<Value>): bv40
    decreases |v|
  {
    if v == [] then c else FoldFront(Step(c, v[0]), v[1..])
  }

  lemma {:induction false} FoldFromFront(c: bv40, v: seq<Value>)
    ensures FoldFront(c, v) == Fold(c, v)
    decreases |v|
  {
    hide Step;
    if v != [] {
      FoldFromFront(Step(c, v[0]), v[1..]);
      assert v == [v[0]] + v[1..];
      FoldConcat(c, [v[0]], v[1..]);
      assert Fold(c, [v[0]]) == Step(c, v[0]);
    }
  }

  lemma {:induction false} FoldZeros(c: bv40, zeros: seq<Value>)
    requires forall i :: 0 <= i < |zeros| ==> zeros[i] == 0
    ensures Fold(c, zeros) == 0 <==> c == 0
  {
    hide Step;
    if zeros != [] {
      FoldZeros(c, zeros[..|zeros| - 1]);
      StepZero(Fold(c, zeros[..|zeros| - 1]));
    }
  }

  /** After j values from zero only j coefficients can be set. */
  predicate Fits(c: bv40, j: nat) {
    if j == 0 then c == 0
    else if j == 1 then c < 0x20
    else if j == 2 then c < 0x400
    else if j == 3 then c < 0x8000
    else if j == 4 then c < 0x10_0000
    else if j == 5 then c < 0x200_0000
    else if j == 6 then c < 0x4000_0000
    else if j == 7 then c < 0x8_0000_0000
    else true
  }

  lemma ShortStep(c: bv40, d: Value, j: nat)
    requires j < 8 && Fits(c, j)
    ensures Step(c, d) == (c << 5) | d && Fits(Step(c, d), j + 1)
    ensures Step(c, d) == 0 <==> c == 0 && d == 0
  {
    NoReduction(c, d);
    assert c < 0x8_0000_0000;
    hide Step;
  }

  lemma NoReduction(c: bv40, d: bv40)
    requires c < 0x8_0000_0000 && d < 32
    ensures Step(c, d) == (c << 5) | d
  {
    assert c >> 35 == 0;
  }

  /** Up to eight values from zero are kept apart. */
  lemma {:induction false} FoldShort(v: seq<Value>)
    requires |v| <= 8
    ensures Fits(Fold(0, v), |v|)
    ensures Fold(0, v) == 0 <==> forall i :: 0 <= i < |v| ==> v[i] == 0
  {
    hide Step, Fits;
    if v == [] {
      FitsStart();
    } else {
      var n := |v| - 1;
      FoldShort(v[..n]);
      ShortStep(Fold(0, v[..n]), v[n], n);
      assert v == v[..n] + [v[n]];
    }
  }

  lemma FitsStart()
    ensures Fits(0, 0)
  {
  }

  predicate Verifies(v: seq<Value>) { Xor(Fold(1, v), 1) == 0 }

  /** Two lists that differ only inside a window of at most eight positions never both verify. */
  lemma BurstDetected(v: seq<Value>, w: seq<Value>, i: nat, k: nat)
    requires |v| == |w| && k <= 8 && i + k <= |v|
    requires forall j :: 0 <= j < |v| && !(i <= j < i + k) ==> v[j] == w[j]
    requires Verifies(v) && Verifies(w)
    ensures v == w
  {
    hide Step, Fold, Xor;
    var e := XorAll(v, w);
    forall j | 0 <= j < |v| ensures e[j] == 0 <==> v[j] == w[j] {
      XorSame(v[j], w[j]);
    }
    FoldLinear(1, 1, v, w);
    XorUnit(1);
    XorSame(Fold(1, v), 1);
    XorSame(Fold(1, w), 1);
    assert Fold(0, e) == 0;
    var head, mid, tail := e[..i], e[i..i + k], e[i + k..];
    assert e == (head + mid) + tail;
    FoldConcat(0, head + mid, tail);
    FoldConcat(0, head, mid);
    FoldZeros(0, head);
    FoldZeros(Fold(0, head + mid), tail);
    FoldShort(mid);
    forall j | 0 <= j < |v| ensures v[j] == w[j] {
      if i <= j < i + k {
        assert mid[j - i] == e[j];
      }
    }
  }

  // ---------------------------------------------------------------- creating a checksum

  function Shr5(x: bv40): bv40 { x >> 5 }

  /** mod >> 5 * (7 - i), five bits at a time. */
  function Shifted(mod: bv40, i: nat): bv40
    decreases 7 - i
  {
    if i >= 7 then mod else Shr5(Shifted(mod, i + 1))
  }

  /** The i-th of the eight 5-bit groups, highest first. */
  function Group(mod: bv40, i: nat): Value { Shifted(mod, i) & 0x1f }

  function Groups(mod: bv40): (r: seq<Value>)
    ensures |r| == 8 && forall i :: 0 <= i < 8 ==> r[i] == Group(mod, i)
  {
    seq(8, i requires 0 <= i < 8 => Group(mod, i))
  }

  /** The groups before the i-th, as a number. */
  function Leading(mod: bv40, i: nat): bv40 { if i == 0 then 0 else Shifted(mod, i - 1) }

  lemma LeadingStep(mod: bv40, i: nat)
    requires i < 8
    ensures Fits(Leading(mod, i), i) && (Leading(mod, i) << 5) | Group(mod, i) == Leading(mod, i + 1)
  {
    LeadingShift(mod, i);
    hide Shifted, Fits, Shr5;
    JoinLow(Shifted(mod, i));
  }

  lemma LeadingShift(mod: bv40, i: nat)
    requires i < 8
    ensures Leading(mod, i) == Shr5(Shifted(mod, i)) && Fits(Leading(mod, i), i)
  {
    hide Fits, Shr5;
    ShiftedFits(mod, i);
    FitsShift(Shifted(mod, i), i);
    NoneLeft(Shr5(Shifted(mod, i)), i);
  }

  lemma {:induction false} ShiftedFits(mod: bv40, i: nat)
    requires i < 8
    ensures Fits(Shifted(mod, i), i + 1)
    decreases 8 - i
  {
    if i < 7 {
      hide Fits, Shr5;
      ShiftedFits(mod, i + 1);
      FitsShift(Shifted(mod, i + 1), i + 1);
    }
  }

  lemma FitsShift(x: bv40, j: nat)
    requires Fits(x, j + 1) && j < 8
    ensures Fits(Shr5(x), j)
  {
  }

  lemma NoneLeft(y: bv40, j: nat)
    ensures j == 0 && Fits(y, j) ==> y == 0
  {
  }

  lemma JoinLow(x: bv40)
    ensures (Shr5(x) << 5) | (x & 0x1f) == x
  {
  }

  /** Reading eight groups from zero packs them again. */
  lemma {:induction false} FoldGroups(mod: bv40, i: nat)
    requires i <= 8
    ensures Fold(0, Groups(mod)[..i]) == Leading(mod, i)
  {
    hide Step, Group, Fits, Shifted;
    if i > 0 {
      FoldGroups(mod, i - 1);
      assert Groups(mod)[..i][..i - 1] == Groups(mod)[..i - 1];
      hide Leading;
      LeadingStep(mod, i - 1);
      ShortStep(Leading(mod, i - 1), Group(mod, i - 1), i - 1);
    }
  }

  function ZeroList(n: nat): (z: seq<Value>)
    ensures |z| == n && forall i :: 0 <= i < n ==> z[i] == 0
  {
    seq(n, i => 0)
  }

  /** What PolyMod gives for a list with k zeros after it. */
  function Residue(v: seq<Value>, k: nat): bv40 { Xor(Fold(1, v + ZeroList(k)), 1) }

  /** A list verifies when its last values, read from zero, cancel the residue of the rest. */
  lemma VerifiesIff(v: seq<Value>, values: seq<Value>)
    ensures Verifies(v + values) <==> Fold(0, values) == Residue(v, |values|)
  {
    var zeros := ZeroList(|values|);
    hide Step, Fold, Xor;
    FoldConcat(1, v, zeros);
    FoldConcat(1, v, values);
    var c := Fold(1, v);
    XorUnit(c);
    forall i | 0 <= i < |values| ensures XorAll(zeros, values)[i] == values[i] {
      XorUnit(values[i]);
    }
    assert XorAll(zeros, values) == values;
    FoldLinear(c, 0, zeros, values);
    var z, m := Fold(c, zeros), Fold(0, values);
    XorAssoc(z, m, 1);
    XorComm(m, 1);
    XorAssoc(z, 1, m);
    XorSame(Xor(z, 1), m);
  }

  /** Lists of eight values are told apart by what they fold to. */
  lemma FoldInjective(v: seq<Value>, w: seq<Value>)
    requires |v| == |w| <= 8 && Fold(0, v) == Fold(0, w)
    ensures v == w
  {
    hide Step, Fold, Xor;
    var e := XorAll(v, w);
    XorUnit(0);
    FoldLinear(0, 0, v, w);
    XorUnit(Fold(0, v));
    FoldShort(e);
    forall i | 0 <= i < |v| ensures v[i] == w[i] {
      XorSame(v[i], w[i]);
    }
  }

  /** Up to eight values after a list verify exactly when they are the low groups of its residue and
      the groups above them are zero. */
  lemma TailVerifiesIff(v: seq<Value>, values: seq<Value>)
    requires |values| <= 8
    ensures Verifies(v + values) <==> Groups(Residue(v, |values|)) == ZeroList(8 - |values|) + values
  {
    var mod := Residue(v, |values|);
    var zeros, g := ZeroList(8 - |values|), Groups(mod);
    FoldGroups(mod, 8);
    assert g[..8] == g && Leading(mod, 8) == mod;
    hide Step, Fold, Groups, Leading, Residue, Verifies;
    VerifiesIff(v, values);
    FoldConcat(0, zeros, values);
    FoldZeros(0, zeros);
    if Fold(0, values) == mod {
      FoldInjective(zeros + values, g);
    }
  }

  /** So at most one list of that length does, and one does exactly when the groups above are zero. */
  lemma TailExistsIff(v: seq<Value>, k: nat)
    requires k <= 8
    ensures (exists values :: |values| == k && Verifies(v + values)) <==>
              forall i :: 0 <= i < 8 - k ==> Groups(Residue(v, k))[i] == 0
    ensures forall values, values' :: |values| == |values'| == k && Verifies(v + values) && Verifies(v + values') ==>
            values == values'
  {
    hide Groups, Residue, Verifies;
    var g := Groups(Residue(v, k));
    forall values: seq<Value> | |values| == k && Verifies(v + values)
        ensures values == g[8 - k..] && g[..8 - k] == ZeroList(8 - k) {
      TailVerifiesIff(v, values);
    }
    if forall i :: 0 <= i < 8 - k ==> g[i] == 0 {
      var values := g[8 - k..];
      assert g[..8 - k] == ZeroList(8 - k);
      assert g == ZeroList(8 - k) + values;
      TailVerifiesIff(v, values);
      assert |values| == k && Verifies(v + values);
    }
    if values: seq<Value> :| |values| == k && Verifies(v + values) {
      forall i | 0 <= i < 8 - k ensures g[i] == 0 {
        assert g[i] == g[..8 - k][i];
      }
    }
  }

  /** Appending the groups of what eight zeros would give makes any list verify. */
  lemma ChecksumVerifies(v: seq<Value>)
    ensures Verifies(v + Groups(Residue(v, 8)))
  {
    TailVerifiesIff(v, Groups(Residue(v, 8)));
  }
}
