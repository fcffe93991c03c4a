/** The partial Merkle tree of src/merkleblock.cpp: a depth-first proof that some transactions are
    in a block. `Build` and `Extract` say what the writer emits and what the reader computes; the
    class at the end does both by appending to vectors and advancing counters. */
module MerkleProof {
  import opened Powers
  import opened MerkleTree

  // ---------------------------------------------------------------- writer

  /** The flag bits and the hashes stored for a node, in depth-first order. */
  datatype Partial<H> = Partial(bits: seq<bool>, hashes: seq<H>)

  function Build<H>(hash: (H, H) -> H, txids: seq<H>, mask: seq<bool>, height: nat, pos: nat): (r: Partial<H>)
    requires |mask| == |txids| && pos < Width(|txids|, height)
    decreases height
  {
    var flag := ParentOfMatch(|txids|, mask, height, pos);
    if height == 0 || !flag then Partial([flag], [CalcHash(hash, txids, height, pos)])
    else
      var l := Build(hash, txids, mask, height - 1, 2 * pos);
      var r := if 2 * pos + 1 < Width(|txids|, height - 1)
               then Build(hash, txids, mask, height - 1, 2 * pos + 1) else Partial([], []);
      Partial([true] + l.bits + r.bits, l.hashes + r.hashes)
  }

  /** One unfolding of the definition. */
  lemma BuildCases<H>(hash: (H, H) -> H, txids: seq<H>, mask: seq<bool>, height: nat, pos: nat)
    requires |mask| == |txids| && pos < Width(|txids|, height)
    ensures height == 0 || !ParentOfMatch(|txids|, mask, height, pos) ==>
              Build(hash, txids, mask, height, pos) ==
              Partial([ParentOfMatch(|txids|, mask, height, pos)], [CalcHash(hash, txids, height, pos)])
    ensures height > 0 && ParentOfMatch(|txids|, mask, height, pos) ==>
              var l := Build(hash, txids, mask, height - 1, 2 * pos);
              var r := if 2 * pos + 1 < Width(|txids|, height - 1)
                       then Build(hash, txids, mask, height - 1, 2 * pos + 1) else Partial([], []);
              Build(hash, txids, mask, height, pos) == Partial([true] + l.bits + r.bits, l.hashes + r.hashes)
  {
  }

  /** Whether some matched transaction lies under the node. */
  function ParentOfMatch(n: nat, mask: seq<bool>, height: nat, pos: nat): bool
    requires |mask| == n && pos < Width(n, height)
  {
    Span(n, height, pos);
    MatchedIn(mask, Lo(height, pos), Hi(n, height, pos)) != []
  }

  lemma Span(n: nat, height: nat, pos: nat)
    requires pos < Width(n, height)
    ensures Lo(height, pos) < Hi(n, height, pos) <= n
  {
    PositionHasLeaf(n, height, pos);
    MulAdd(pos, 1, Pow2(height));
  }

  /** The indices of the matched transactions under the node. */
  function Matched(n: nat, mask: seq<bool>, height: nat, pos: nat): seq<nat>
    requires |mask| == n && pos < Width(n, height)
  {
    Span(n, height, pos);
    MatchedIn(mask, Lo(height, pos), Hi(n, height, pos))
  }

  lemma MatchedOfChildren(n: nat, mask: seq<bool>, height: nat, pos: nat)
    requires |mask| == n && height > 0 && pos < Width(n, height)
    ensures 2 * pos < Width(n, height - 1)
    ensures Matched(n, mask, height, pos) ==
            Matched(n, mask, height - 1, 2 * pos) +
            if 2 * pos + 1 < Width(n, height - 1) then Matched(n, mask, height - 1, 2 * pos + 1) else []
  {
    ChildLeaves(n, height, pos);
    Span(n, height, pos);
    MatchedInSplit(mask, Lo(height, pos), Hi(n, height - 1, 2 * pos), Hi(n, height, pos));
  }

  /** A subtree's proof holds no more hashes than the subtree has leaves, and a bit per hash. */
  lemma {:induction false} BuildSize<H>(hash: (H, H) -> H, txids: seq<H>, mask: seq<bool>, height: nat, pos: nat)
    requires |mask| == |txids| && pos < Width(|txids|, height)
    ensures var b := Build(hash, txids, mask, height, pos);
            && 1 <= |b.hashes| <= |b.bits|
            && |b.hashes| <= Hi(|txids|, height, pos) - Lo(height, pos)
    decreases height
  {
    var n := |txids|;
    Span(n, height, pos);
    if height > 0 && ParentOfMatch(n, mask, height, pos) {
      ChildLeaves(n, height, pos);
      BuildSize(hash, txids, mask, height - 1, 2 * pos);
      if 2 * pos + 1 < Width(n, height - 1) {
        BuildSize(hash, txids, mask, height - 1, 2 * pos + 1);
      }
    }
  }

  lemma OneHashPerLevel(ml: nat, mr: nat, height: nat)
    requires height > 0 && ml + mr >= 1
    ensures (1 + ml * (height - 1)) + (1 + mr * (height - 1)) <= 1 + (ml + mr) * height
    ensures mr == 0 ==> 1 + ml * (height - 1) <= 1 + (ml + mr) * height
  {
    MulAdd(ml, mr, height - 1);
    assert (ml + mr) * height == (ml + mr) * (height - 1) + (ml + mr);
  }

  /** A subtree's proof holds at most 1 + matches * height hashes. */
  lemma {:induction false} BuildHashBound<H>(hash: (H, H) -> H, txids: seq<H>, mask: seq<bool>, height: nat, pos: nat)
    requires |mask| == |txids| && pos < Width(|txids|, height)
    ensures |Build(hash, txids, mask, height, pos).hashes| <= 1 + |Matched(|txids|, mask, height, pos)| * height
    decreases height
  {
    var n := |txids|;
    var m := |Matched(n, mask, height, pos)|;
    if height > 0 && ParentOfMatch(n, mask, height, pos) {
      MatchedOfChildren(n, mask, height, pos);
      var ml := |Matched(n, mask, height - 1, 2 * pos)|;
      BuildHashBound(hash, txids, mask, height - 1, 2 * pos);
      OneHashPerLevel(ml, m - ml, height);
      if 2 * pos + 1 < Width(n, height - 1) {
        BuildHashBound(hash, txids, mask, height - 1, 2 * pos + 1);
      }
    } else {
      MulLe(0, m, height);
    }
  }

  // ---------------------------------------------------------------- reader

  /** What a traversal of a node yields: its hash, the counters after it, the matched ids and their
      indices, and whether an inconsistency was seen. */
  datatype Walk<H> = Walk(hash: H, bits: nat, hashes: nat, ids: seq<H>, indices: seq<nat>, bad: bool)

  function Extract<H(==)>(hash: (H, H) -> H, nul: H, n: nat, bits: seq<bool>, hashes: seq<H>,
                          height: nat, pos: nat, nb: nat, nh: nat): (w: Walk<H>)
    decreases height
  {
    if nb >= |bits| then Walk(nul, nb, nh, [], [], true)
    else if height == 0 || !bits[nb] then
      if nh >= |hashes| then Walk(nul, nb + 1, nh, [], [], true)
      else if height == 0 && bits[nb] then Walk(hashes[nh], nb + 1, nh + 1, [hashes[nh]], [pos], false)
      else Walk(hashes[nh], nb + 1, nh + 1, [], [], false)
    else
      var l := Extract(hash, nul, n, bits, hashes, height - 1, 2 * pos, nb + 1, nh);
      if 2 * pos + 1 < Width(n, height - 1) then
        var r := Extract(hash, nul, n, bits, hashes, height - 1, 2 * pos + 1, l.bits, l.hashes);
        Walk(hash(l.hash, r.hash), r.bits, r.hashes, l.ids + r.ids, l.indices + r.indices,
             l.bad || r.bad || r.hash == l.hash)
      else
        Walk(hash(l.hash, l.hash), l.bits, l.hashes, l.ids, l.indices, l.bad)
  }

  /** One unfolding of the definition at a node that is descended into. */
  lemma ExtractCases<H>(hash: (H, H) -> H, nul: H, n: nat, bits: seq<bool>, hashes: seq<H>,
                        height: nat, pos: nat, nb: nat, nh: nat)
    ensures nb >= |bits| ==> Extract(hash, nul, n, bits, hashes, height, pos, nb, nh) == Walk(nul, nb, nh, [], [], true)
    ensures nb < |bits| && (height == 0 || !bits[nb]) ==>
              Extract(hash, nul, n, bits, hashes, height, pos, nb, nh) ==
              if nh >= |hashes| then Walk(nul, nb + 1, nh, [], [], true)
              else if height == 0 && bits[nb] then Walk(hashes[nh], nb + 1, nh + 1, [hashes[nh]], [pos], false)
              else Walk(hashes[nh], nb + 1, nh + 1, [], [], false)
    ensures nb < |bits| && height > 0 && bits[nb] ==>
              var l := Extract(hash, nul, n, bits, hashes, height - 1, 2 * pos, nb + 1, nh);
              var r := Extract(hash, nul, n, bits, hashes, height - 1, 2 * pos + 1, l.bits, l.hashes);
              Extract(hash, nul, n, bits, hashes, height, pos, nb, nh) ==
              if 2 * pos + 1 < Width(n, height - 1) then
                Walk(hash(l.hash, r.hash), r.bits, r.hashes, l.ids + r.ids, l.indices + r.indices,
                     l.bad || r.bad || r.hash == l.hash)
              else Walk(hash(l.hash, l.hash), l.bits, l.hashes, l.ids, l.indices, l.bad)
  {
  }

  /** The traversal from the root with both counters at zero. */
  function Reading<H(==)>(hash: (H, H) -> H, nul: H, n: nat, bits: seq<bool>, hashes: seq<H>): Walk<H>
    requires 0 < n < UINT32_LIMIT
  {
    Extract(hash, nul, n, bits, hashes, HeightOf(n), 0, 0, 0)
  }

  /** The sanity checks before the traversal. */
  predicate Plausible<H>(n: nat, bits: seq<bool>, hashes: seq<H>) {
    n != 0 && |hashes| <= n && |bits| >= |hashes|
  }

  /** All checks, before and after the traversal, pass. */
  predicate Accepts<H(==)>(hash: (H, H) -> H, nul: H, n: nat, bits: seq<bool>, hashes: seq<H>)
    requires n < UINT32_LIMIT
  {
    && Plausible(n, bits, hashes)
    && var w := Reading(hash, nul, n, bits, hashes);
    && !w.bad
    && (w.bits + 7) / 8 == (|bits| + 7) / 8
    && w.hashes == |hashes|
  }

  ghost predicate Genuine<H>(txids: seq<H>, ids: seq<H>, indices: seq<nat>) {
    && |ids| == |indices|
    && (forall i :: 0 <= i < |ids| ==> indices[i] < |txids| && ids[i] == txids[indices[i]])
    && (forall i, j :: 0 <= i < j < |indices| ==> indices[i] < indices[j])
  }

  /** A traversal without inconsistency that arrives at the true hash of a node extracts only
      genuine entries, all of them under that node. */
  lemma {:induction false} ExtractSound<H(!new)>(hash: (H, H) -> H, nul: H, txids: seq<H>, bits: seq<bool>,
                                                 hashes: seq<H>,
                                                 height: nat, pos: nat, nb: nat, nh: nat)
    requires Injective(hash) && pos < Width(|txids|, height)
    requires var w := Extract(hash, nul, |txids|, bits, hashes, height, pos, nb, nh);
             !w.bad && w.hash == CalcHash(hash, txids, height, pos)
    ensures var w := Extract(hash, nul, |txids|, bits, hashes, height, pos, nb, nh);
            && Genuine(txids, w.ids, w.indices)
            && forall i :: 0 <= i < |w.indices| ==> Lo(height, pos) <= w.indices[i] < Hi(|txids|, height, pos)
    decreases height
  {
    var n := |txids|;
    Span(n, height, pos);
    if height > 0 && bits[nb] {
      hide Width, Lo, Hi;
      ChildLeaves(n, height, pos);
      ExtractSound(hash, nul, txids, bits, hashes, height - 1, 2 * pos, nb + 1, nh);
      var l := Extract(hash, nul, n, bits, hashes, height - 1, 2 * pos, nb + 1, nh);
      if 2 * pos + 1 < Width(n, height - 1) {
        ExtractSound(hash, nul, txids, bits, hashes, height - 1, 2 * pos + 1, l.bits, l.hashes);
      }
    } else {
      assert Lo(0, pos) == pos;
    }
  }

  /** Soundness: whatever bits and hashes a proof carries, if it is accepted and leads to the root
      of a list of the claimed length, every extracted pair is that list's entry at that index. */
  lemma Soundness<H(!new)>(hash: (H, H) -> H, nul: H, txids: seq<H>, bits: seq<bool>, hashes: seq<H>)
    requires Injective(hash)
    requires 0 < |txids| < UINT32_LIMIT
    requires Accepts(hash, nul, |txids|, bits, hashes)
    requires Reading(hash, nul, |txids|, bits, hashes).hash == Root(hash, txids)
    ensures var w := Reading(hash, nul, |txids|, bits, hashes); Genuine(txids, w.ids, w.indices)
  {
    ExtractSound(hash, nul, txids, bits, hashes, HeightOf(|txids|), 0, 0, 0);
  }

  /** `part` stands in `whole` from position `at` on. */
  ghost predicate StandsAt<T>(whole: seq<T>, at: nat, part: seq<T>) {
    at + |part| <= |whole| && whole[at..at + |part|] == part
  }

  lemma StandsAtSplit<T>(whole: seq<T>, at: nat, a: seq<T>, b: seq<T>)
    requires StandsAt(whole, at, a + b)
    ensures StandsAt(whole, at, a) && StandsAt(whole, at + |a|, b)
  {
    assert whole[at..at + |a|] == whole[at..at + |a + b|][..|a|] == a;
    assert whole[at + |a|..at + |a| + |b|] == whole[at..at + |a + b|][|a|..] == b;
  }

  function Select<H>(txids: seq<H>, indices: seq<nat>): (r: seq<H>)
    requires forall i :: i in indices ==> i < |txids|
  {
    seq(|indices|, i requires 0 <= i < |indices| => assert indices[i] in indices; txids[indices[i]])
  }

  lemma MatchedInRange(n: nat, mask: seq<bool>, height: nat, pos: nat)
    requires |mask| == n && pos < Width(n, height)
    ensures forall i :: i in Matched(n, mask, height, pos) ==> i < n
  {
    Span(n, height, pos);
    MatchedInIsExact(mask, Lo(height, pos), Hi(n, height, pos));
  }

  lemma SelectConcat<H>(txids: seq<H>, a: seq<nat>, b: seq<nat>)
    requires forall i :: i in a + b ==> i < |txids|
    ensures (forall i :: i in a ==> i < |txids|) && (forall i :: i in b ==> i < |txids|)
    ensures Select(txids, a + b) == Select(txids, a) + Select(txids, b)
  {
    assert forall i :: i in a ==> i in a + b;
    assert forall i :: i in b ==> i in a + b;
  }

  /** What reading a genuine node's bits and hashes must give. */
  ghost predicate ReadsBack<H>(w: Walk<H>, hash: (H, H) -> H, txids: seq<H>, mask: seq<bool>, height: nat, pos: nat,
                               nb: nat, nh: nat)
    requires |mask| == |txids| && pos < Width(|txids|, height)
  {
    MatchedInRange(|txids|, mask, height, pos);
    var b := Build(hash, txids, mask, height, pos);
    w == Walk(CalcHash(hash, txids, height, pos), nb + |b.bits|, nh + |b.hashes|,
              Select(txids, Matched(|txids|, mask, height, pos)), Matched(|txids|, mask, height, pos), false)
  }

  lemma {:induction false} ExtractComplete<H(!new)>(hash: (H, H) -> H, nul: H, txids: seq<H>, mask: seq<bool>,
                                                    bits: seq<bool>, hashes: seq<H>, height: nat, pos: nat, nb: nat,
                                                        nh: nat)
    requires Injective(hash) && Distinct(txids)
    requires |mask| == |txids| && pos < Width(|txids|, height)
    requires StandsAt(bits, nb, Build(hash, txids, mask, height, pos).bits)
    requires StandsAt(hashes, nh, Build(hash, txids, mask, height, pos).hashes)
    ensures ReadsBack(Extract(hash, nul, |txids|, bits, hashes, height, pos, nb, nh), hash, txids, mask, height, pos,
                      nb, nh)
    decreases height
  {
    var n := |txids|;
    var b := Build(hash, txids, mask, height, pos);
    MatchedInRange(n, mask, height, pos);
    BuildSize(hash, txids, mask, height, pos);
    assert bits[nb] == bits[nb..nb + |b.bits|][0] == b.bits[0];
    if height == 0 || !bits[nb] {
      assert hashes[nh] == hashes[nh..nh + |b.hashes|][0] == b.hashes[0];
      LeafMatched(txids, mask, height, pos);
    } else if 2 * pos + 1 < Width(n, height - 1) {
      ExtractCompleteBoth(hash, nul, txids, mask, bits, hashes, height, pos, nb, nh);
    } else {
      ExtractCompleteSingle(hash, nul, txids, mask, bits, hashes, height, pos, nb, nh);
    }
  }

  /** A leaf's own match list, and the empty one of a node without matches. */
  lemma LeafMatched<H>(txids: seq<H>, mask: seq<bool>, height: nat, pos: nat)
    requires |mask| == |txids| && pos < Width(|txids|, height)
    requires height == 0 || !ParentOfMatch(|txids|, mask, height, pos)
    ensures Matched(|txids|, mask, height, pos) == if height == 0 && mask[pos] then [pos] else []
    ensures height == 0 ==> ParentOfMatch(|txids|, mask, height, pos) == mask[pos]
  {
    Span(|txids|, height, pos);
    if height == 0 {
      assert Lo(0, pos) == pos && Hi(|txids|, 0, pos) == pos + 1;
      assert MatchedIn(mask, pos + 1, pos + 1) == [];
    }
  }

  lemma {:induction false} ExtractCompleteBoth<H(!new)>(hash: (H, H) -> H, nul: H, txids: seq<H>, mask: seq<bool>,
                                                        bits: seq<bool>, hashes: seq<H>, height: nat, pos: nat,
                                                            nb: nat, nh: nat)
    requires Injective(hash) && Distinct(txids)
    requires height > 0
    requires |mask| == |txids| && pos < Width(|txids|, height)
    requires ParentOfMatch(|txids|, mask, height, pos)
    requires nb < |bits| && bits[nb]
    requires StandsAt(bits, nb, Build(hash, txids, mask, height, pos).bits)
    requires StandsAt(hashes, nh, Build(hash, txids, mask, height, pos).hashes)
    requires 2 * pos + 1 < Width(|txids|, height - 1)
    ensures ReadsBack(Extract(hash, nul, |txids|, bits, hashes, height, pos, nb, nh), hash, txids, mask, height, pos,
                      nb, nh)
    decreases height, 0
  {
    hide *;
    ChildLeaves(|txids|, height, pos);
    ProofSplits(hash, txids, mask, bits, hashes, height, pos, nb, nh);
    var lb := Build(hash, txids, mask, height - 1, 2 * pos);
    var rb := Build(hash, txids, mask, height - 1, 2 * pos + 1);
    ExtractComplete(hash, nul, txids, mask, bits, hashes, height - 1, 2 * pos, nb + 1, nh);
    ExtractComplete(hash, nul, txids, mask, bits, hashes, height - 1, 2 * pos + 1, nb + 1 + |lb.bits|,
                    nh + |lb.hashes|);
    SiblingsDiffer(hash, txids, height - 1, 2 * pos, 2 * pos + 1);
    ReadsBackBoth(hash, nul, txids, mask, bits, hashes, height, pos, nb, nh);
  }

  /** Two children read back give a parent read back, if the children's hashes differ. */
  lemma ReadsBackBoth<H(!new)>(hash: (H, H) -> H, nul: H, txids: seq<H>, mask: seq<bool>,
                               bits: seq<bool>, hashes: seq<H>, height: nat, pos: nat, nb: nat, nh: nat)
    requires height > 0
    requires |mask| == |txids| && pos < Width(|txids|, height)
    requires 2 * pos + 1 < Width(|txids|, height - 1)
    requires ParentOfMatch(|txids|, mask, height, pos)
    requires nb < |bits| && bits[nb]
    requires CalcHash(hash, txids, height - 1, 2 * pos) != CalcHash(hash, txids, height - 1, 2 * pos + 1)
    requires var lb := Build(hash, txids, mask, height - 1, 2 * pos);
             var w := Extract(hash, nul, |txids|, bits, hashes, height - 1, 2 * pos, nb + 1, nh);
             ReadsBack(w, hash, txids, mask, height - 1, 2 * pos, nb + 1, nh)
    requires var lb := Build(hash, txids, mask, height - 1, 2 * pos);
             var w := Extract(hash, nul, |txids|, bits, hashes, height - 1, 2 * pos + 1, nb + 1 + |lb.bits|,
                              nh + |lb.hashes|);
             ReadsBack(w, hash, txids, mask, height - 1, 2 * pos + 1, nb + 1 + |lb.bits|, nh + |lb.hashes|)
    ensures ReadsBack(Extract(hash, nul, |txids|, bits, hashes, height, pos, nb, nh), hash, txids, mask, height, pos,
                      nb, nh)
  {
    hide Build, Extract, CalcHash, Matched, MatchedIn, Select, Width, ParentOfMatch;
    CalcHashOfChildren(hash, txids, height, pos);
    MatchedOfChildren(|txids|, mask, height, pos);
    SelectMatchedOfChildren(txids, mask, height, pos);
    BuildCases(hash, txids, mask, height, pos);
    ExtractCases(hash, nul, |txids|, bits, hashes, height, pos, nb, nh);
  }

  lemma ProofSplits<H>(hash: (H, H) -> H, txids: seq<H>, mask: seq<bool>, bits: seq<bool>, hashes: seq<H>,
                       height: nat, pos: nat, nb: nat, nh: nat)
    requires height > 0
    requires |mask| == |txids| && pos < Width(|txids|, height)
    requires 2 * pos + 1 < Width(|txids|, height - 1)
    requires ParentOfMatch(|txids|, mask, height, pos)
    requires StandsAt(bits, nb, Build(hash, txids, mask, height, pos).bits)
    requires StandsAt(hashes, nh, Build(hash, txids, mask, height, pos).hashes)
    ensures var lb := Build(hash, txids, mask, height - 1, 2 * pos);
            var rb := Build(hash, txids, mask, height - 1, 2 * pos + 1);
            && StandsAt(bits, nb + 1, lb.bits) && StandsAt(bits, nb + 1 + |lb.bits|, rb.bits)
            && StandsAt(hashes, nh, lb.hashes) && StandsAt(hashes, nh + |lb.hashes|, rb.hashes)
  {
    hide *;
    ChildLeaves(|txids|, height, pos);
    BuildCases(hash, txids, mask, height, pos);
    var lb := Build(hash, txids, mask, height - 1, 2 * pos);
    var rb := Build(hash, txids, mask, height - 1, 2 * pos + 1);
    StandsAtSplit(bits, nb, [true] + lb.bits, rb.bits);
    StandsAtSplit(bits, nb, [true], lb.bits);
    StandsAtSplit(hashes, nh, lb.hashes, rb.hashes);
  }

  lemma SelectMatchedOfChildren<H>(txids: seq<H>, mask: seq<bool>, height: nat, pos: nat)
    requires height > 0
    requires |mask| == |txids| && pos < Width(|txids|, height)
    requires 2 * pos + 1 < Width(|txids|, height - 1)
    ensures var n := |txids|;
            var l, r := Matched(n, mask, height - 1, 2 * pos), Matched(n, mask, height - 1, 2 * pos + 1);
            var m := Matched(n, mask, height, pos);
            && (forall i :: i in l ==> i < n) && (forall i :: i in r ==> i < n) && (forall i :: i in m ==> i < n)
            && Select(txids, m) == Select(txids, l) + Select(txids, r)
  {
    MatchedOfChildren(|txids|, mask, height, pos);
    MatchedInRange(|txids|, mask, height, pos);
    SelectConcat(txids, Matched(|txids|, mask, height - 1, 2 * pos), Matched(|txids|, mask, height - 1, 2 * pos + 1));
  }

  lemma {:induction false} ExtractCompleteSingle<H(!new)>(hash: (H, H) -> H, nul: H, txids: seq<H>, mask: seq<bool>,
                                                          bits: seq<bool>, hashes: seq<H>, height: nat, pos: nat,
                                                              nb: nat, nh: nat)
    requires Injective(hash) && Distinct(txids)
    requires height > 0
    requires |mask| == |txids| && pos < Width(|txids|, height)
    requires ParentOfMatch(|txids|, mask, height, pos)
    requires nb < |bits| && bits[nb]
    requires StandsAt(bits, nb, Build(hash, txids, mask, height, pos).bits)
    requires StandsAt(hashes, nh, Build(hash, txids, mask, height, pos).hashes)
    requires 2 * pos + 1 >= Width(|txids|, height - 1)
    ensures ReadsBack(Extract(hash, nul, |txids|, bits, hashes, height, pos, nb, nh), hash, txids, mask, height, pos,
                      nb, nh)
    decreases height, 0
  {
    MatchedOfChildren(|txids|, mask, height, pos);
    var lb := Build(hash, txids, mask, height - 1, 2 * pos);
    var b := Build(hash, txids, mask, height, pos);
    assert b.bits == [true] + lb.bits && b.hashes == lb.hashes;
    StandsAtSplit(bits, nb, [true], lb.bits);
    ExtractComplete(hash, nul, txids, mask, bits, hashes, height - 1, 2 * pos, nb + 1, nh);
  }

  /** The matched indices under the root. */
  function MatchedUnderRoot(mask: seq<bool>): seq<nat>
    requires 0 < |mask| < UINT32_LIMIT
  {
    Matched(|mask|, mask, HeightOf(|mask|), 0)
  }

  function BuildRoot<H>(hash: (H, H) -> H, txids: seq<H>, mask: seq<bool>): Partial<H>
    requires 0 < |txids| < UINT32_LIMIT && |mask| == |txids|
  {
    Build(hash, txids, mask, HeightOf(|txids|), 0)
  }

  /** Completeness: over distinct ids, the proof built for any mask, its bits padded to whole bytes,
      is accepted, leads to the root, and yields exactly the matched ids under the root, in order.
      It stores at most one hash per transaction and at most 1 + matches * height of them. */
  lemma Completeness<H(!new)>(hash: (H, H) -> H, nul: H, txids: seq<H>, mask: seq<bool>, bits: seq<bool>)
    requires Injective(hash) && Distinct(txids)
    requires 0 < |txids| < UINT32_LIMIT && |mask| == |txids|
    requires var b := BuildRoot(hash, txids, mask);
             |bits| == (|b.bits| + 7) / 8 * 8 && b.bits <= bits
    ensures var b := BuildRoot(hash, txids, mask);
            var w := Reading(hash, nul, |txids|, bits, b.hashes);
            && Plausible(|txids|, bits, b.hashes) && Accepts(hash, nul, |txids|, bits, b.hashes)
            && w.hash == Root(hash, txids)
            && w.indices == MatchedUnderRoot(mask)
            && (forall i :: i in w.indices ==> i < |txids|)
            && w.ids == Select(txids, w.indices)
            && |b.hashes| <= |txids|
            && |b.hashes| <= 1 + |w.indices| * HeightOf(|txids|)
  {
    hide Build, Extract, Matched, CalcHash, Select, Width, Injective, Distinct;
    var height := HeightOf(|txids|);
    var b := BuildRoot(hash, txids, mask);
    BuildSize(hash, txids, mask, height, 0);
    BuildHashBound(hash, txids, mask, height, 0);
    MatchedInRange(|txids|, mask, height, 0);
    assert b.hashes[0..0 + |b.hashes|] == b.hashes;
    assert bits[0..0 + |b.bits|] == b.bits;
    PaddedBytes(|b.bits|);
    ExtractComplete(hash, nul, txids, mask, bits, b.hashes, height, 0, 0, 0);
  }

  /** A built proof, with anything after it, is accepted exactly when nothing is left over: no hash, and no flag
      beyond the last byte. */
  lemma AcceptsIffNothingLeft<H(!new)>(hash: (H, H) -> H, nul: H, txids: seq<H>, mask: seq<bool>, bits: seq<bool>,
                                       hashes: seq<H>)
    requires Injective(hash) && Distinct(txids)
    requires 0 < |txids| < UINT32_LIMIT && |mask| == |txids|
    requires BuildRoot(hash, txids, mask).bits <= bits && BuildRoot(hash, txids, mask).hashes <= hashes
    ensures var b := BuildRoot(hash, txids, mask);
            Accepts(hash, nul, |txids|, bits, hashes) <==>
              |hashes| == |b.hashes| && (|bits| + 7) / 8 == (|b.bits| + 7) / 8
  {
    hide Build, Extract, Matched, CalcHash, Select, Width, Injective, Distinct;
    var height := HeightOf(|txids|);
    var b := BuildRoot(hash, txids, mask);
    BuildSize(hash, txids, mask, height, 0);
    assert hashes[0..0 + |b.hashes|] == b.hashes;
    assert bits[0..0 + |b.bits|] == b.bits;
    ExtractComplete(hash, nul, txids, mask, bits, hashes, height, 0, 0, 0);
  }

  /** Padding to whole bytes adds none. */
  lemma PaddedBytes(n: nat)
    ensures ((n + 7) / 8 * 8 + 7) / 8 == (n + 7) / 8 && n <= (n + 7) / 8 * 8
  {
  }

  /** Up to 2^31 transactions the matches under the root are all the matches of the mask. */
  lemma RootMatchesAll(mask: seq<bool>)
    requires 0 < |mask| <= 0x8000_0000
    ensures forall i: nat :: i in MatchedUnderRoot(mask) <==> i < |mask| && mask[i]
    ensures forall a, b :: 0 <= a < b < |MatchedUnderRoot(mask)| ==>
            MatchedUnderRoot(mask)[a] < MatchedUnderRoot(mask)[b]
  {
    HeightCoversListIff(|mask|);
    Span(|mask|, HeightOf(|mask|), 0);
    MatchedInIsExact(mask, 0, |mask|);
  }
}
