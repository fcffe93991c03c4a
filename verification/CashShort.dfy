/** Which prefixes of CashAddr strings have a list that verifies with fewer values than a checksum. */
module CashShort {
  import opened Common
  import opened CashChecksum
  import opened CashCodec

  /** A prefix has such a string of k values exactly when the high groups of its residue are zero, and
      never more than one. */
  lemma ShortListIff(prefix: string, k: nat)
    requires k < 8
    ensures (exists values :: |values| == k && Checked(prefix, values).TooShort?) <==>
              forall i :: 0 <= i < 8 - k ==> Groups(Residue(Expand(prefix), k))[i] == 0
    ensures forall values, values' ::
              |values| == |values'| == k && Checked(prefix, values).TooShort? && Checked(prefix, values').TooShort? ==>
                values == values'
  {
    hide Expand, Groups, Residue, Verifies;
    var v := Expand(prefix);
    TailExistsIff(v, k);
    if values: seq<Value> :| |values| == k && Verifies(v + values) {
      assert Checked(prefix, values).TooShort?;
    }
  }

  lemma ShortScan()
    ensures ScanTo("c:qvdy2z3", 9) == Some(Scan(true, false, true, 1))
  {
    var s := "c:qvdy2z3";
    assert ScanTo(s, 1) == Some(Scan(true, false, false, 0));
    assert ScanTo(s, 2) == Some(Scan(true, false, false, 1));
    assert ScanTo(s, 6) == Some(Scan(true, false, false, 1));
    assert ScanTo(s, 7) == Some(Scan(true, false, true, 1));
  }

  lemma ShortRead()
    ensures AllValues("qvdy2z3") && Values("qvdy2z3") == [0, 12, 13, 4, 10, 2, 17]
  {
  }

  /** A list folded in two parts. */
  lemma FoldInTwo(a: seq<Value>, b: seq<Value>, v: seq<Value>, mid: bv40, end: bv40)
    requires v == a + b && FoldFront(1, a) == mid && FoldFront(mid, b) == end
    ensures Fold(1, v) == end
  {
    hide Step, Fold, FoldFront;
    FoldFromFront(1, a);
    FoldFromFront(mid, b);
    FoldConcat(1, a, b);
  }

  lemma ShortFolds()
    ensures FoldFront(1, [3, 0, 0, 12, 13]) == 0x00_0230_018d
    ensures FoldFront(0x00_0230_018d, [4, 10, 2, 17]) == 0x00_0000_0001
  {
  }

  lemma ShortVerified()
    ensures Verifies(Expand("c") + [0, 12, 13, 4, 10, 2, 17])
  {
    var v: seq<Value> := [3, 0, 0, 12, 13, 4, 10, 2, 17];
    assert Low5('c') == 3;
    assert Expand("c") + [0, 12, 13, 4, 10, 2, 17] == v == [3, 0, 0, 12, 13] + [4, 10, 2, 17];
    hide Expand, Fold, FoldFront;
    ShortFolds();
    FoldInTwo([3, 0, 0, 12, 13], [4, 10, 2, 17], v, 0x00_0230_018d, 1);
  }

  /** There are such strings. */
  lemma ShortAddressExists()
    ensures Decoded("c:qvdy2z3", "").TooShort?
  {
    var s, st := "c:qvdy2z3", Scan(true, false, true, 1);
    assert RestOf(s, st) == "qvdy2z3" && LowerAll("c") == "c";
    hide ScanTo, AllValues, Values, Verifies, Expand, LowerAll, LowerCase, ScanOk;
    ShortScan();
    ShortRead();
    ShortVerified();
    assert s[..1] == "c";
  }

  // ---------------------------------------------------------------- the prefixes of the networks

  /** No list too short for a checksum verifies under this prefix. */
  ghost predicate NoShortList(prefix: string) {
    forall values :: |values| < 8 ==> !Verifies(Expand(prefix) + values)
  }

  /** The residue, after k zeros. */
  function AfterZeros(c: bv40, k: nat): bv40 { if k == 0 then c else Step(AfterZeros(c, k - 1), 0) }

  lemma {:induction false} FoldZeroList(c: bv40, k: nat)
    ensures Fold(c, ZeroList(k)) == AfterZeros(c, k)
  {
    hide Step;
    if k > 0 {
      FoldZeroList(c, k - 1);
      assert ZeroList(k)[..k - 1] == ZeroList(k - 1);
    }
  }

  /** Too large for k values to cancel it. */
  predicate TooLarge(c: bv40, k: nat) { !Fits(Xor(AfterZeros(c, k), 1), k) }

  lemma ResiduesTooLarge(prefix: string, a: seq<Value>, b: seq<Value>, mid: bv40, end: bv40)
    requires Expand(prefix) == a + b && FoldFront(1, a) == mid && FoldFront(mid, b) == end
    requires forall k :: 0 <= k < 8 ==> TooLarge(end, k)
    ensures NoShortList(prefix)
  {
    hide Step, Fold, FoldFront, Xor, Fits, Expand, Verifies, AfterZeros;
    var v := Expand(prefix);
    FoldInTwo(a, b, v, mid, end);
    forall values: seq<Value> | |values| < 8 ensures !Verifies(v + values) {
      var k := |values|;
      assert TooLarge(end, k);
      VerifiesIff(v, values);
      FoldShort(values);
      FoldConcat(1, v, ZeroList(k));
      FoldZeroList(end, k);
    }
  }

  lemma ErgonFolds()
    ensures FoldFront(1, [5, 18, 7, 15, 14]) == 0x00_0259_1dee && FoldFront(0x00_0259_1dee, [0]) == 0x00_4b23_bdc0
  {
  }

  lemma ErgonResidues()
    ensures forall k :: 0 <= k < 8 ==> TooLarge(0x00_4b23_bdc0, k)
  {
    assert AfterZeros(0x00_4b23_bdc0, 1) == 0x09_6477_b800;
    assert AfterZeros(0x00_4b23_bdc0, 2) == 0xb4_7c4b_8e61;
    assert AfterZeros(0x00_4b23_bdc0, 3) == 0x1b_4f00_0276;
    assert AfterZeros(0x00_4b23_bdc0, 4) == 0x88_a5d1_5943;
    assert AfterZeros(0x00_4b23_bdc0, 5) == 0x92_07d4_4271;
    assert AfterZeros(0x00_4b23_bdc0, 6) == 0x27_02a6_33b2;
    assert AfterZeros(0x00_4b23_bdc0, 7) == 0x13_6a99_c584;
    hide Step, AfterZeros;
  }

  lemma ErgonExpands()
    ensures Expand("ergon") == [5, 18, 7, 15, 14] + [0]
  {
  }

  lemma ErgonHasNoShortList()
    ensures NoShortList("ergon")
  {
    hide *;
    ErgonExpands();
    ErgonFolds();
    ErgonResidues();
    ResiduesTooLarge("ergon", [5, 18, 7, 15, 14], [0], 0x00_0259_1dee, 0x00_4b23_bdc0);
  }

  lemma ErgontestFolds()
    ensures FoldFront(1, [5, 18, 7, 15, 14]) == 0x00_0259_1dee
    ensures FoldFront(0x00_0259_1dee, [20, 5, 19, 20, 0]) == 0x88_a493_97c3
  {
  }

  lemma ErgontestResidues()
    ensures forall k :: 0 <= k < 8 ==> TooLarge(0x88_a493_97c3, k)
  {
    assert AfterZeros(0x88_a493_97c3, 1) == 0x92_2f8d_9271;
    assert AfterZeros(0x88_a493_97c3, 2) == 0x22_099c_33b2;
    assert AfterZeros(0x88_a493_97c3, 3) == 0xb2_0dd9_c584;
    assert AfterZeros(0x88_a493_97c3, 4) == 0xd5_7d49_7ed6;
    assert AfterZeros(0x88_a493_97c3, 5) == 0x66_7faa_45fa;
    assert AfterZeros(0x88_a493_97c3, 6) == 0x92_e5bc_ee2c;
    assert AfterZeros(0x88_a493_97c3, 7) == 0x3b_4fb3_b812;
    hide Step, AfterZeros;
  }

  lemma ErgontestExpands()
    ensures Expand("ergontest") == [5, 18, 7, 15, 14] + [20, 5, 19, 20, 0]
  {
  }

  lemma ErgontestHasNoShortList()
    ensures NoShortList("ergontest")
  {
    hide *;
    ErgontestExpands();
    ErgontestFolds();
    ErgontestResidues();
    ResiduesTooLarge("ergontest", [5, 18, 7, 15, 14], [20, 5, 19, 20, 0], 0x00_0259_1dee, 0x88_a493_97c3);
  }

  lemma BchtestFolds()
    ensures FoldFront(1, [2, 3, 8, 20, 5]) == 0x00_0221_a285 && FoldFront(0x00_0221_a285, [19, 20, 0]) == 0x88_23fe_40e1
  {
  }

  lemma BchtestResidues()
    ensures forall k :: 0 <= k < 8 ==> TooLarge(0x88_23fe_40e1, k)
  {
    assert AfterZeros(0x88_23fe_40e1, 1) == 0x82_c237_7631;
    assert AfterZeros(0x88_23fe_40e1, 2) == 0x46_09ad_2250;
    assert AfterZeros(0x88_23fe_40e1, 3) == 0x6f_1b0f_a8a8;
    assert AfterZeros(0x88_23fe_40e1, 4) == 0x26_83bd_ca0d;
    assert AfterZeros(0x88_23fe_40e1, 5) == 0x23_49e6_f264;
    assert AfterZeros(0x88_23fe_40e1, 6) == 0x9a_0281_ff44;
    assert AfterZeros(0x88_23fe_40e1, 7) == 0xbf_5aad_1b73;
    hide Step, AfterZeros;
  }

  lemma BchtestExpands()
    ensures Expand("bchtest") == [2, 3, 8, 20, 5] + [19, 20, 0]
  {
  }

  lemma BchtestHasNoShortList()
    ensures NoShortList("bchtest")
  {
    hide *;
    BchtestExpands();
    BchtestFolds();
    BchtestResidues();
    ResiduesTooLarge("bchtest", [2, 3, 8, 20, 5], [19, 20, 0], 0x00_0221_a285, 0x88_23fe_40e1);
  }

  lemma BchregFolds()
    ensures FoldFront(1, [2, 3, 8, 18, 5]) == 0x00_0221_a245 && FoldFront(0x00_0221_a245, [7, 0]) == 0x08_8689_14e0
  {
  }

  lemma BchregResidues()
    ensures forall k :: 0 <= k < 8 ==> TooLarge(0x08_8689_14e0, k)
  {
    assert AfterZeros(0x08_8689_14e0, 1) == 0x88_239e_1261;
    assert AfterZeros(0x08_8689_14e0, 2) == 0x82_ce3d_2631;
    assert AfterZeros(0x08_8689_14e0, 3) == 0x47_88e7_2250;
    assert AfterZeros(0x08_8689_14e0, 4) == 0x5f_324f_a8a8;
    assert AfterZeros(0x08_8689_14e0, 5) == 0xa9_228f_e02b;
    assert AfterZeros(0x08_8689_14e0, 6) == 0x51_d25c_dcb5;
    assert AfterZeros(0x08_8689_14e0, 7) == 0xed_d25d_edea;
    hide Step, AfterZeros;
  }

  lemma BchregExpands()
    ensures Expand("bchreg") == [2, 3, 8, 18, 5] + [7, 0]
  {
  }

  lemma BchregHasNoShortList()
    ensures NoShortList("bchreg")
  {
    hide *;
    BchregExpands();
    BchregFolds();
    BchregResidues();
    ResiduesTooLarge("bchreg", [2, 3, 8, 18, 5], [7, 0], 0x00_0221_a245, 0x08_8689_14e0);
  }

  predicate NetworkPrefix(prefix: string) { prefix in ["ergon", "ergontest", "bchtest", "bchreg"] }

  /** An address of one of the networks, its prefix written or left out, always decodes in the defined
      range. */
  lemma NetworkPrefixSuffices(s: string, defaultPrefix: string)
    requires NetworkPrefix(defaultPrefix)
    requires ScanTo(s, |s|).Some? ==>
               var n := ScanTo(s, |s|).value.prefixSize;
               n == 0 || (n <= |s| && NetworkPrefix(LowerAll(s[..n])))
    ensures !Decoded(s, defaultPrefix).TooShort?
  {
    ErgonHasNoShortList();
    ErgontestHasNoShortList();
    BchtestHasNoShortList();
    BchregHasNoShortList();
    hide ScanTo, ScanOk, AllValues, Values, Verifies, Expand, LowerAll;
  }
}
