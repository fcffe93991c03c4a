/** The block tree of src/chain.cpp: parent links, skip links and the searches that follow them. */
module BlockIndex {
  import opened Powers

  // ---------------------------------------------------------------- which height a skip link leads to

  /** Bitwise and of two non-negative numbers. */
  function And(a: nat, b: nat): (r: nat)
    ensures r <= a && r <= b
    decreases a
  {
    if a == 0 || b == 0 then 0 else (a % 2) * (b % 2) + 2 * And(a / 2, b / 2)
  }

  /** n & (n - 1), where 0 & -1 is 0. */
  function InvertLowestOne(n: nat): nat { if n == 0 then 0 else And(n, n - 1) }

  /** The bit that is cleared is the largest power of two that divides the number. */
  lemma {:induction false} LowestOneCleared(n: nat) returns (k: nat)
    requires n > 0
    ensures n == InvertLowestOne(n) + Pow2(k) && InvertLowestOne(n) % (2 * Pow2(k)) == 0
  {
    if n % 2 == 1 {
      k := 0;
      AndSame(n / 2);
      assert (n - 1) / 2 == n / 2 && (n - 1) % 2 == 0;
    } else {
      var j := LowestOneCleared(n / 2);
      k := j + 1;
      assert (n - 1) / 2 == n / 2 - 1;
      var m := InvertLowestOne(n / 2);
      assert InvertLowestOne(n) == 2 * m;
      DoubleMultiple(m, 2 * Pow2(j));
    }
  }

  lemma {:induction false} AndSame(a: nat)
    ensures And(a, a) == a
  {
    if a > 0 {
      AndSame(a / 2);
    }
  }

  lemma DoubleMultiple(m: nat, d: nat)
    requires d > 0 && m % d == 0
    ensures (2 * m) % (2 * d) == 0
  {
    var q := m / d;
    assert m == q * d;
    QuotientIs(2 * m, 2 * d, q, 0);
  }

  function GetSkipHeight(height: nat): nat {
    if height < 2 then 0
    else if height % 2 == 1 then InvertLowestOne(InvertLowestOne(height - 1)) + 1
    else InvertLowestOne(height)
  }

  lemma SkipGoesDown(height: nat)
    requires height > 0
    ensures GetSkipHeight(height) < height
  {
    if height >= 2 && height % 2 == 1 {
      var k := LowestOneCleared(height - 1);
      assert k != 0;
      assert InvertLowestOne(InvertLowestOne(height - 1)) <= InvertLowestOne(height - 1);
    }
  }

  /** The skip height exactly: an even height loses its lowest one; an odd height keeps its last one and loses
      the two ones above it, as far as there are any. */
  lemma SkipExact(height: nat) returns (k: nat, j: nat)
    requires height >= 2
    ensures height % 2 == 0 ==>
              height == GetSkipHeight(height) + Pow2(k) && GetSkipHeight(height) % (2 * Pow2(k)) == 0
    ensures height % 2 == 1 ==>
              && GetSkipHeight(height) >= 1
              && var s := GetSkipHeight(height) - 1;
              || (s == 0 && height - 1 == Pow2(k))
              || (&& height - 1 == s + Pow2(j) + Pow2(k)
                  && (s + Pow2(j)) % (2 * Pow2(k)) == 0 && s % (2 * Pow2(j)) == 0)
  {
    hide And, Pow2;
    j := 0;
    if height % 2 == 0 {
      k := LowestOneCleared(height);
    } else {
      k := LowestOneCleared(height - 1);
      var m := InvertLowestOne(height - 1);
      if m > 0 {
        j := LowestOneCleared(m);
      }
    }
  }

  // ---------------------------------------------------------------- the tree

  /** Heights count the parent links down to a block that has none. */
  ghost predicate Rooted(b: Block)
    decreases b.nHeight
  {
    if b.pprev == null then b.nHeight == 0
    else b.nHeight > 0 && b.pprev.nHeight == b.nHeight - 1 && Rooted(b.pprev)
  }

  /** The block at a height, found by walking parent links. */
  ghost function Ancestor(b: Block, height: int): (r: Block?)
    requires Rooted(b)
    ensures r != null <==> 0 <= height <= b.nHeight
    ensures r != null ==> r.nHeight == height && Rooted(r)
    decreases b.nHeight
  {
    if height < 0 || height > b.nHeight then null
    else if height == b.nHeight then b
    else Ancestor(b.pprev, height)
  }

  lemma {:induction false} AncestorTrans(b: Block, middle: int, height: int)
    requires Rooted(b) && 0 <= height <= middle <= b.nHeight
    ensures Ancestor(Ancestor(b, middle), height) == Ancestor(b, height)
    decreases b.nHeight
  {
    if middle < b.nHeight {
      AncestorTrans(b.pprev, middle, height);
    }
  }

  /** A skip link, once built, leads to the ancestor at the skip height. */
  ghost predicate SkipOk(b: Block)
    requires Rooted(b)
    reads b
  {
    b.pskip != null ==> b.nHeight > 0 && b.pskip == Ancestor(b, GetSkipHeight(b.nHeight))
  }

  /** A set of blocks closed under parents with right skip links. */
  ghost predicate TreeOk(tree: set<Block>)
    reads tree
  {
    forall b :: b in tree ==> Rooted(b) && (b.pprev != null ==> b.pprev in tree) && SkipOk(b)
  }

  lemma {:induction false} AncestorInTree(tree: set<Block>, b: Block, height: int)
    requires TreeOk(tree) && b in tree && 0 <= height <= b.nHeight
    ensures Ancestor(b, height) in tree
    decreases b.nHeight
  {
    if height < b.nHeight {
      AncestorInTree(tree, b.pprev, height);
    }
  }

  class Block {
    const pprev: Block?
    const nHeight: nat
    var pskip: Block?

    constructor (pprev: Block?)
      ensures this.pprev == pprev && pskip == null
      ensures nHeight == if pprev == null then 0 else pprev.nHeight + 1
      ensures pprev == null || Rooted(pprev) ==> Rooted(this)
    {
      this.pprev := pprev;
      this.nHeight := if pprev == null then 0 else pprev.nHeight + 1;
      pskip := null;
    }

    /** Jumping along skip links finds the block that walking parent links finds. */
    method GetAncestor(height: int, ghost tree: set<Block>) returns (r: Block?)
      requires TreeOk(tree) && this in tree
      ensures r == Ancestor(this, height)
      ensures r != null ==> r in tree
    {
      hide GetSkipHeight;
      if height > nHeight || height < 0 {
        return null;
      }
      var pindexWalk: Block := this;
      var heightWalk := nHeight;
      while heightWalk > height
        invariant height <= heightWalk <= nHeight
        invariant pindexWalk in tree && pindexWalk == Ancestor(this, heightWalk)
      {
        var heightSkip := GetSkipHeight(heightWalk);
        var heightSkipPrev := GetSkipHeight(heightWalk - 1);
        SkipGoesDown(heightWalk);
        if pindexWalk.pskip != null
           && (heightSkip == height
               || (heightSkip > height && !(heightSkipPrev < heightSkip - 2 && heightSkipPrev >= height))) {
          AncestorTrans(this, heightWalk, heightSkip);
          AncestorInTree(tree, pindexWalk, heightSkip);
          pindexWalk := pindexWalk.pskip;
          heightWalk := heightSkip;
        } else {
          AncestorTrans(this, heightWalk, heightWalk - 1);
          assert pindexWalk.pprev != null;
          pindexWalk := pindexWalk.pprev;
          heightWalk := heightWalk - 1;
        }
      }
      r := pindexWalk;
    }

    /** Building one skip link keeps every link of the tree right. */
    method BuildSkip(ghost tree: set<Block>)
      requires TreeOk(tree) && this in tree
      modifies this`pskip
      ensures TreeOk(tree)
      ensures pprev != null ==>
                pskip == Ancestor(this, GetSkipHeight(nHeight)) && pskip != null && pskip.nHeight < nHeight
    {
      hide GetSkipHeight;
      if pprev != null {
        SkipGoesDown(nHeight);
        pskip := pprev.GetAncestor(GetSkipHeight(nHeight), tree);
      }
    }
  }

  /** The last block two blocks have in common: the highest one that is an ancestor of both. */
  ghost predicate IsLastCommon(a: Block, b: Block, r: Block?)
    requires Rooted(a) && Rooted(b)
  {
    && (r != null ==> Ancestor(a, r.nHeight) == r == Ancestor(b, r.nHeight))
    && forall h :: (if r == null then 0 else r.nHeight + 1) <= h <= a.nHeight && h <= b.nHeight ==>
       Ancestor(a, h) != Ancestor(b, h)
  }

  method LastCommonAncestor(a: Block, b: Block, ghost tree: set<Block>) returns (r: Block?)
    requires TreeOk(tree) && a in tree && b in tree
    ensures IsLastCommon(a, b, r)
    ensures Ancestor(a, 0) == Ancestor(b, 0) ==> r != null
  {
    hide GetSkipHeight;
    var pa: Block?, pb: Block? := a, b;
    if pa.nHeight > pb.nHeight {
      pa := pa.GetAncestor(pb.nHeight, tree);
    } else if pb.nHeight > pa.nHeight {
      pb := pb.GetAncestor(pa.nHeight, tree);
    }
    ghost var top := pa.nHeight;
    while pa != pb && pa != null && pb != null
      invariant pa == null <==> pb == null
      invariant pa != null ==> pa in tree && pb in tree && pa.nHeight == pb.nHeight
      invariant pa != null ==> pa == Ancestor(a, pa.nHeight) && pb == Ancestor(b, pa.nHeight)
      invariant forall h :: (if pa == null then 0 else pa.nHeight + 1) <= h <= a.nHeight && h <= b.nHeight ==>
                Ancestor(a, h) != Ancestor(b, h)
      decreases if pa == null then 0 else pa.nHeight + 1
    {
      var h := pa.nHeight;
      if pa.pskip != null && pb.pskip != null && pa.pskip != pb.pskip {
        SkipGoesDown(h);
        var k := GetSkipHeight(h);
        AncestorTrans(a, h, k);
        AncestorTrans(b, h, k);
        StaysApart(a, b, k);
        AncestorInTree(tree, pa, k);
        AncestorInTree(tree, pb, k);
        pa, pb := pa.pskip, pb.pskip;
        assert pa.nHeight == pb.nHeight;
      } else {
        StaysApart(a, b, h);
        if h > 0 {
          AncestorTrans(a, h, h - 1);
          AncestorTrans(b, h, h - 1);
        }
        pa, pb := pa.pprev, pb.pprev;
      }
    }
    assert pa == pb;
    r := pa;
  }

  /** Two blocks that differ at some height differ above it. */
  lemma StaysApart(a: Block, b: Block, height: int)
    requires Rooted(a) && Rooted(b) && 0 <= height <= a.nHeight && height <= b.nHeight
    requires Ancestor(a, height) != Ancestor(b, height)
    ensures forall h :: height <= h <= a.nHeight && h <= b.nHeight ==> Ancestor(a, h) != Ancestor(b, h)
  {
    forall h | height <= h <= a.nHeight && h <= b.nHeight ensures Ancestor(a, h) != Ancestor(b, h) {
      AncestorTrans(a, h, height);
      AncestorTrans(b, h, height);
    }
  }

  /** A block added to a tree, as the node does for each header it accepts. */
  method AddBlock(pprev: Block?, ghost tree: set<Block>) returns (b: Block)
    requires TreeOk(tree) && (pprev != null ==> pprev in tree)
    ensures fresh(b) && TreeOk(tree + {b}) && b.pprev == pprev
    ensures pprev != null ==> b.pskip != null
  {
    b := new Block(pprev);
    b.BuildSkip(tree + {b});
  }
}
