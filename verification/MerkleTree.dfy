/** The full Merkle tree over a list of transaction ids: its shape and its node hashes.

    The pair hash is a parameter. The shape follows src/merkleblock.h: the transaction count is a
    32-bit word, so the width expression wraps, and the tree height is where that width first
    drops to one or below. */
module MerkleTree {
  import opened Powers

  const UINT32_LIMIT: nat := 0x1_0000_0000

  ghost predicate Injective<H(!new)>(hash: (H, H) -> H) {
    forall a, b, c, d :: hash(a, b) == hash(c, d) ==> a == c && b == d
  }

  ghost predicate Distinct<T>(s: seq<T>) {
    forall i, j :: 0 <= i < j < |s| ==> s[i] != s[j]
  }

  /** Number of nodes at a height, as the source computes it in 32-bit arithmetic. */
  function CalcTreeWidth(n: nat, height: nat): int {
    ((n + Pow2(height) - 1) % UINT32_LIMIT) / Pow2(height)
  }

  /** Number of nodes at a height: each level pairs up the one below, an odd node standing alone. */
  function Width(n: nat, height: nat): nat {
    if height == 0 then n else (Width(n, height - 1) + 1) / 2
  }

  /** The level-by-level width is the rounded-up quotient. */
  lemma {:induction false} WidthIsCeiling(n: nat, height: nat)
    ensures Width(n, height) == (n + Pow2(height) - 1) / Pow2(height)
  {
    if height != 0 {
      WidthIsCeiling(n, height - 1);
      var p := Pow2(height - 1);
      var w, r := (n + p - 1) / p, (n + p - 1) % p;
      MulAdd(w, 1, p);
      QuotientIs(n + 2 * p - 1, p, w + 1, r);
      DivDiv(n + 2 * p - 1, p, 2);
    }
  }

  /** Where the 32-bit sum does not wrap the source computes the true width; where it wraps, zero. */
  lemma CalcTreeWidthCases(n: nat, height: nat)
    requires n < UINT32_LIMIT && height <= 31
    ensures CalcTreeWidth(n, height) ==
            if n + Pow2(height) - 1 < UINT32_LIMIT then Width(n, height) else 0
  {
    WidthIsCeiling(n, height);
    Pow2Monotone(height, 31);
    Pow2At31();
    var p := Pow2(height);
    var sum := n + p - 1;
    if sum >= UINT32_LIMIT {
      QuotientIs(sum, UINT32_LIMIT, 1, sum - UINT32_LIMIT);
      QuotientIs(sum - UINT32_LIMIT, p, 0, sum - UINT32_LIMIT);
    } else {
      QuotientIs(sum, UINT32_LIMIT, 0, sum);
    }
  }

  /** The tree height: the first height at which the computed width is at most one. */
  ghost predicate IsHeight(n: nat, height: nat) {
    && CalcTreeWidth(n, height) <= 1
    && forall h: nat :: h < height ==> CalcTreeWidth(n, h) > 1
  }

  lemma {:induction false} WidthPositive(n: nat, height: nat)
    requires n > 0
    ensures Width(n, height) >= 1
  {
    if height != 0 { WidthPositive(n, height - 1); }
  }

  /** The true width is one exactly when 2^height leaves are enough for the list. */
  lemma WidthOneCovers(n: nat, height: nat)
    requires n > 0
    ensures Width(n, height) == 1 <==> n <= Pow2(height)
  {
    PositionHasLeaf(n, height, 1);
    WidthPositive(n, height);
  }

  /** Below this height the computed widths are the true ones. */
  ghost predicate TrueWidthsBelow(n: nat, height: nat) {
    forall h: nat :: h < height ==> CalcTreeWidth(n, h) == Width(n, h)
  }

  /** For every 32-bit count the height is at most 31, and below it no width is distorted. */
  lemma HeightFacts(n: nat, height: nat)
    requires 0 < n < UINT32_LIMIT && IsHeight(n, height)
    ensures height <= 31 && TrueWidthsBelow(n, height) && Width(n, height) >= 1
  {
    CalcTreeWidthAt31(n);
    forall h: nat | h < height ensures CalcTreeWidth(n, h) == Width(n, h) {
      CalcTreeWidthCases(n, h);
    }
    WidthPositive(n, height);
  }

  lemma CalcTreeWidthAt31(n: nat)
    requires 0 < n < UINT32_LIMIT
    ensures CalcTreeWidth(n, 31) <= 1
  {
    CalcTreeWidthCases(n, 31);
    Pow2At31();
    WidthOneCovers(n, 31);
  }

  /** The height the source's counting loop arrives at. */
  function HeightOf(n: nat): (height: nat)
    requires 0 < n < UINT32_LIMIT
    ensures IsHeight(n, height)
    ensures height <= 31 && TrueWidthsBelow(n, height) && Width(n, height) >= 1
  {
    CalcTreeWidthAt31(n);
    HeightFacts(n, HeightFrom(n, 0));
    HeightFrom(n, 0)
  }

  function HeightFrom(n: nat, from: nat): (height: nat)
    requires from <= 31 && CalcTreeWidth(n, 31) <= 1
    ensures from <= height <= 31 && CalcTreeWidth(n, height) <= 1
    ensures forall h: nat :: from <= h < height ==> CalcTreeWidth(n, h) > 1
    decreases 31 - from
  {
    if CalcTreeWidth(n, from) <= 1 then from else HeightFrom(n, from + 1)
  }

  /** The source's height covers the whole list exactly up to 2^31 transactions. Above that the
      32-bit sum wraps, the loop stops early and the root covers only the first 2^height ids. */
  lemma HeightCoversListIff(n: nat)
    requires 0 < n < UINT32_LIMIT
    ensures n <= Pow2(HeightOf(n)) <==> n <= 0x8000_0000
  {
    var height := HeightOf(n);
    CalcTreeWidthCases(n, height);
    WidthOneCovers(n, height);
    WidthPositive(n, height);
    Pow2Monotone(height, 31);
    Pow2At31();
  }

  /** The first leaf under a node, and the first leaf after it. */
  function Lo(height: nat, pos: nat): nat { pos * Pow2(height) }

  function Hi(n: nat, height: nat, pos: nat): nat {
    if (pos + 1) * Pow2(height) < n then (pos + 1) * Pow2(height) else n
  }

  /** A node's leaves are its left child's followed by its right child's, if it has one. */
  lemma ChildLeaves(n: nat, height: nat, pos: nat)
    requires height > 0 && pos < Width(n, height)
    ensures 2 * pos < Width(n, height - 1)
    ensures Lo(height, pos) == Lo(height - 1, 2 * pos) < Hi(n, height - 1, 2 * pos)
    ensures 2 * pos + 1 < Width(n, height - 1) ==>
              && Hi(n, height - 1, 2 * pos) == Lo(height - 1, 2 * pos + 1)
              && Hi(n, height - 1, 2 * pos + 1) == Hi(n, height, pos)
              && Lo(height - 1, 2 * pos + 1) < Hi(n, height - 1, 2 * pos + 1)
    ensures 2 * pos + 1 >= Width(n, height - 1) ==> Hi(n, height - 1, 2 * pos) == Hi(n, height, pos)
  {
    var p := Pow2(height - 1);
    assert pos * (2 * p) == (2 * pos) * p;
    assert (pos + 1) * (2 * p) == (2 * pos + 2) * p;
    PositionHasLeaf(n, height - 1, 2 * pos);
    PositionHasLeaf(n, height - 1, 2 * pos + 1);
    assert (2 * pos + 1) * p == (2 * pos) * p + p;
    assert (2 * pos + 2) * p == (2 * pos + 1) * p + p;
    assert Pow2(height) == 2 * p;
  }

  /** A position lies within the tree exactly when its first leaf does. */
  lemma {:induction false} PositionHasLeaf(n: nat, height: nat, pos: nat)
    ensures pos < Width(n, height) <==> pos * Pow2(height) < n
    decreases height
  {
    if height != 0 {
      PositionHasLeaf(n, height - 1, 2 * pos);
      assert (2 * pos) * Pow2(height - 1) == pos * (2 * Pow2(height - 1));
    }
  }

  /** The hash of a node; a missing right child is replaced by the left one. */
  function CalcHash<H>(hash: (H, H) -> H, txids: seq<H>, height: nat, pos: nat): H
    requires pos < Width(|txids|, height)
    decreases height
  {
    if height == 0 then txids[pos]
    else
      var left := CalcHash(hash, txids, height - 1, 2 * pos);
      var right := if 2 * pos + 1 < Width(|txids|, height - 1)
                   then CalcHash(hash, txids, height - 1, 2 * pos + 1) else left;
      hash(left, right)
  }

  lemma CalcHashOfChildren<H>(hash: (H, H) -> H, txids: seq<H>, height: nat, pos: nat)
    requires height > 0 && pos < Width(|txids|, height)
    ensures 2 * pos < Width(|txids|, height - 1)
    ensures 2 * pos + 1 < Width(|txids|, height - 1) ==>
              CalcHash(hash, txids, height, pos) ==
              hash(CalcHash(hash, txids, height - 1, 2 * pos), CalcHash(hash, txids, height - 1, 2 * pos + 1))
  {
  }

  /** The hash at the top of the tree. */
  function Root<H>(hash: (H, H) -> H, txids: seq<H>): H
    requires 0 < |txids| < UINT32_LIMIT
  {
    CalcHash(hash, txids, HeightOf(|txids|), 0)
  }

  lemma FirstLeafOfChild(height: nat, pos: nat)
    requires height > 0
    ensures (2 * pos) * Pow2(height - 1) == pos * Pow2(height)
  {
    assert (2 * pos) * Pow2(height - 1) == pos * (2 * Pow2(height - 1));
  }

  /** With an injective hash, equal nodes at one height have the same first leaf. */
  lemma {:induction false} EqualNodesShareFirstLeaf<H(!new)>(hash: (H, H) -> H, txids: seq<H>, height: nat, a: nat,
                                                             b: nat)
    requires Injective(hash)
    requires a < Width(|txids|, height) && b < Width(|txids|, height)
    requires CalcHash(hash, txids, height, a) == CalcHash(hash, txids, height, b)
    ensures a * Pow2(height) < |txids| && b * Pow2(height) < |txids|
    ensures txids[a * Pow2(height)] == txids[b * Pow2(height)]
    decreases height
  {
    if height != 0 {
      EqualNodesShareFirstLeaf(hash, txids, height - 1, 2 * a, 2 * b);
      FirstLeafOfChild(height, a);
      FirstLeafOfChild(height, b);
    }
  }

  /** Over distinct ids no two nodes of one height have the same hash. */
  lemma SiblingsDiffer<H(!new)>(hash: (H, H) -> H, txids: seq<H>, height: nat, a: nat, b: nat)
    requires Injective(hash) && Distinct(txids)
    requires a < b < Width(|txids|, height)
    ensures CalcHash(hash, txids, height, a) != CalcHash(hash, txids, height, b)
  {
    if CalcHash(hash, txids, height, a) == CalcHash(hash, txids, height, b) {
      EqualNodesShareFirstLeaf(hash, txids, height, a, b);
      MulLe(a + 1, b, Pow2(height));
      MulAdd(a, 1, Pow2(height));
    }
  }

  /** The matched indices in [lo, hi), ascending. */
  function MatchedIn(mask: seq<bool>, lo: nat, hi: nat): (r: seq<nat>)
    requires lo <= hi <= |mask|
    decreases hi - lo
  {
    if lo == hi then [] else (if mask[lo] then [lo] else []) + MatchedIn(mask, lo + 1, hi)
  }

  lemma {:induction false} MatchedInSplit(mask: seq<bool>, lo: nat, mid: nat, hi: nat)
    requires lo <= mid <= hi <= |mask|
    ensures MatchedIn(mask, lo, hi) == MatchedIn(mask, lo, mid) + MatchedIn(mask, mid, hi)
    decreases mid - lo
  {
    if lo != mid {
      MatchedInSplit(mask, lo + 1, mid, hi);
    }
  }

  /** The list holds exactly the set positions of the mask in the range, in increasing order. */
  lemma {:induction false} MatchedInIsExact(mask: seq<bool>, lo: nat, hi: nat)
    requires lo <= hi <= |mask|
    ensures forall i :: i in MatchedIn(mask, lo, hi) <==> lo <= i < hi && mask[i]
    ensures forall a, b :: 0 <= a < b < |MatchedIn(mask, lo, hi)| ==>
              MatchedIn(mask, lo, hi)[a] < MatchedIn(mask, lo, hi)[b]
    decreases hi - lo
  {
    if lo != hi {
      MatchedInIsExact(mask, lo + 1, hi);
      var rest := MatchedIn(mask, lo + 1, hi);
      assert forall k :: 0 <= k < |rest| ==> rest[k] in rest;
    }
  }
}
