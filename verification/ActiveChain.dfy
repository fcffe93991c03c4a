/** The active chain of src/chain.cpp and src/chain.h: one block per height, rewritten when the tip moves. */
module ActiveChain {
  import opened Common
  import opened Powers
  import opened BlockIndex

  /** A change counter that sticks at zero instead of wrapping. */
  function Advance(value: nat): nat { if value == 0 || value >= UINT64_MAX then 0 else value + 1 }

  /** The counter after a run of SetTip calls that each did or did not move the tip. */
  function Generations(value: nat, moved: seq<bool>): nat
    decreases moved
  {
    if moved == [] then value else Generations(if moved[0] then Advance(value) else value, moved[1..])
  }

  lemma {:induction false} ZeroSticks(moved: seq<bool>)
    ensures Generations(0, moved) == 0
  {
    if moved != [] {
      ZeroSticks(moved[1..]);
    }
  }

  /** A 64-bit counter stays one, and counts the moves exactly until it runs out and sticks. */
  lemma {:induction false} CountsUntilFull(value: nat, moved: seq<bool>)
    requires 0 < value <= UINT64_MAX
    ensures Generations(value, moved) ==
              if value + Count(moved) <= UINT64_MAX then value + Count(moved) else 0
    decreases moved
  {
    if moved != [] {
      if moved[0] && value == UINT64_MAX {
        ZeroSticks(moved[1..]);
      } else {
        CountsUntilFull(if moved[0] then value + 1 else value, moved[1..]);
      }
    }
  }

  function Count(moved: seq<bool>): nat
    decreases moved
  {
    if moved == [] then 0 else (if moved[0] then 1 else 0) + Count(moved[1..])
  }

  /** Equal nonzero readings mean that the tip never moved in between, not even there and back. */
  lemma {:induction false} SameGenerationSameTip(value: nat, moved: seq<bool>)
    requires value != 0
    ensures Generations(value, moved) == 0 || Generations(value, moved) >= value
    ensures Generations(value, moved) == value <==> true !in moved
    decreases moved
  {
    if moved != [] {
      var next := if moved[0] then Advance(value) else value;
      if next == 0 {
        ZeroSticks(moved[1..]);
      } else {
        SameGenerationSameTip(next, moved[1..]);
      }
      assert moved == [moved[0]] + moved[1..];
    }
  }

  // ---------------------------------------------------------------- how far back a locator entry is

  /** The step taken after entry k: one at first, then doubling. */
  function StepAfter(k: nat): nat { if k <= 10 then 1 else Pow2(k - 10) }

  /** How far entry k is behind the first. */
  function Back(k: nat): nat { if k <= 10 then k else 9 + Pow2(k - 10) }

  lemma BackStep(k: nat)
    ensures Back(k + 1) == Back(k) + StepAfter(k) > Back(k)
    ensures StepAfter(k + 1) == if k + 1 > 10 then 2 * StepAfter(k) else StepAfter(k)
  {
  }

  function CeilLog2(n: nat): (j: nat)
    requires n >= 1
    ensures Pow2(j) >= n && (j > 0 ==> Pow2(j - 1) < n)
  {
    if n == 1 then 0 else 1 + CeilLog2((n + 1) / 2)
  }

  lemma {:induction false} BackMonotone(j: nat, k: nat)
    requires j <= k
    ensures Back(j) <= Back(k)
  {
    if j < k {
      BackMonotone(j, k - 1);
      BackStep(k - 1);
    }
  }

  /** A locator is logarithmic in the height, and its last step is less than twice the height. */
  lemma LocatorLength(height: nat, last: nat)
    requires last > 0 ==> Back(last - 1) < height
    ensures last + 1 <= 11 + CeilLog2(Max(1, height))
    ensures StepAfter(last) <= Max(1, 2 * height)
  {
    assert Pow2(0) == 1;
    if last > 10 {
      var j := last - 11;
      var c := CeilLog2(Max(1, height));
      if j == 0 {
        assert Back(10) == 10;
      } else {
        assert Pow2(j) < height;
        if c <= j {
          Pow2Monotone(c, j);
          assert false;
        }
      }
      assert StepAfter(last) == 2 * Pow2(j);
    }
  }

  /** Ancestors of p at growing distances, from p itself down to the genesis block, each once. */
  ghost predicate IsLocator(p: Block, vHave: seq<Block>)
    requires Rooted(p)
  {
    && 0 < |vHave| <= 11 + CeilLog2(Max(1, p.nHeight))
    && (forall k :: 0 <= k < |vHave| ==> vHave[k] == Ancestor(p, Max(0, p.nHeight - Back(k))))
    && (forall k :: 0 <= k < |vHave| - 1 ==> vHave[k].nHeight > vHave[k + 1].nHeight)
    && vHave[0] == p && vHave[|vHave| - 1].nHeight == 0
  }

  /** A locator that has not reached height zero. */
  ghost predicate IsPartial(p: Block, vHave: seq<Block>)
    requires Rooted(p)
  {
    forall k :: 0 <= k < |vHave| ==> Back(k) < p.nHeight && vHave[k] == Ancestor(p, p.nHeight - Back(k))
  }

  lemma PartialGrows(p: Block, vHave: seq<Block>, b: Block)
    requires Rooted(p) && IsPartial(p, vHave) && Back(|vHave|) < p.nHeight
    requires b == Ancestor(p, p.nHeight - Back(|vHave|))
    ensures IsPartial(p, vHave + [b])
  {
    hide Ancestor, Back, Rooted;
  }

  lemma PartialEnds(p: Block, vHave: seq<Block>, b: Block)
    requires Rooted(p) && IsPartial(p, vHave) && Back(|vHave|) >= p.nHeight && b == Ancestor(p, 0)
    ensures IsLocator(p, vHave + [b])
  {
    hide CeilLog2, Back, Ancestor, Rooted, StepAfter;
    var all := vHave + [b];
    LocatorLength(p.nHeight, |vHave|);
    BackStart(p);
    forall k | 0 <= k < |all| ensures all[k] == Ancestor(p, Max(0, p.nHeight - Back(k))) {
      assert k < |vHave| ==> all[k] == vHave[k];
    }
    forall k | 0 <= k < |all| - 1 ensures all[k].nHeight > all[k + 1].nHeight {
      BackStep(k);
    }
  }

  class Chain {
    var vChain: seq<Block?>
    var m_source_generation: nat

    /** Every height holds the tip's ancestor at that height. */
    ghost predicate Valid()
      reads this
    {
      |vChain| > 0 ==>
        && var tip := vChain[|vChain| - 1];
        && tip != null && Rooted(tip) && tip.nHeight == |vChain| - 1
        && forall i :: 0 <= i < |vChain| ==> vChain[i] == Ancestor(tip, i)
    }

    constructor ()
      ensures Valid() && vChain == [] && m_source_generation == 1
    {
      vChain, m_source_generation := [], 1;
    }

    function Tip(): Block?
      reads this
    {
      if |vChain| > 0 then vChain[|vChain| - 1] else null
    }

    function At(nHeight: int): Block?
      reads this
    {
      if nHeight < 0 || nHeight >= |vChain| then null else vChain[nHeight]
    }

    predicate Contains(pindex: Block)
      reads this
    {
      At(pindex.nHeight) == pindex
    }

    function Height(): int
      reads this
    {
      |vChain| - 1
    }

    /** The rewrite may stop at the first height that already holds the right block. */
    method SetTip(pindex: Block?)
      requires Valid() && (pindex != null ==> Rooted(pindex))
      modifies this
      ensures Valid() && Tip() == pindex
      ensures |vChain| == if pindex == null then 0 else pindex.nHeight + 1
      ensures m_source_generation == if old(Tip()) != pindex then Advance(old(m_source_generation))
              else old(m_source_generation)
    {
      if Tip() != pindex {
        m_source_generation := Advance(m_source_generation);
      }
      if pindex == null {
        vChain := [];
        return;
      }
      ghost var was, oldTip, generation := vChain, Tip(), m_source_generation;
      var n := pindex.nHeight + 1;
      vChain := if n <= |vChain| then vChain[..n] else vChain + seq(n - |vChain|, _ => null);
      ghost var cut := vChain;
      var p: Block? := pindex;
      while p != null && vChain[p.nHeight] != p
        invariant |vChain| == n && m_source_generation == generation
        invariant p != null ==> p.nHeight < n && p == Ancestor(pindex, p.nHeight)
        invariant forall i :: (if p == null then 0 else p.nHeight + 1) <= i < n ==> vChain[i] == Ancestor(pindex, i)
        invariant forall i :: 0 <= i < (if p == null then 0 else p.nHeight + 1) ==> vChain[i] == cut[i]
        decreases if p == null then 0 else p.nHeight + 1
      {
        vChain := vChain[p.nHeight := p];
        if p.nHeight > 0 {
          AncestorTrans(pindex, p.nHeight, p.nHeight - 1);
        }
        p := p.pprev;
      }
      if p != null {
        forall i | 0 <= i <= p.nHeight ensures vChain[i] == Ancestor(pindex, i) {
          assert was[p.nHeight] == p;
          AncestorTrans(oldTip, p.nHeight, i);
          AncestorTrans(pindex, p.nHeight, i);
        }
      }
      assert vChain[n - 1] == pindex;
    }

    /** The highest block that the active chain and a block's own chain share. */
    method FindFork(pindex: Block?, ghost tree: set<Block>) returns (r: Block?)
      requires Valid() && TreeOk(tree) && (pindex != null ==> pindex in tree)
      ensures pindex == null ==> r == null
      ensures pindex != null && r != null ==> Contains(r) && Ancestor(pindex, r.nHeight) == r
      ensures pindex != null ==>
                forall h :: (if r == null then 0 else r.nHeight + 1) <= h <= pindex.nHeight ==>
                    At(h) != Ancestor(pindex, h)
    {
      hide SkipOk, GetSkipHeight;
      if pindex == null {
        return null;
      }
      r := pindex;
      if r.nHeight > Height() {
        r := r.GetAncestor(Height(), tree);
      }
      while r != null && !Contains(r)
        invariant r != null ==> r in tree && Ancestor(pindex, r.nHeight) == r
        invariant forall h :: (if r == null then 0 else r.nHeight + 1) <= h <= pindex.nHeight ==>
                  At(h) != Ancestor(pindex, h)
        decreases if r == null then 0 else r.nHeight + 1
      {
        if r.nHeight > 0 {
          AncestorTrans(pindex, r.nHeight, r.nHeight - 1);
        }
        r := r.pprev;
      }
    }

    /** A block's ancestor at a lower height, from the chain if the block is on it. */
    method Earlier(pindex: Block, nHeight: nat, ghost tree: set<Block>) returns (r: Block?)
      requires Valid() && TreeOk(tree) && pindex in tree && nHeight <= pindex.nHeight
      ensures r == Ancestor(pindex, nHeight) && r in tree
    {
      AncestorInTree(tree, pindex, nHeight);
      if Contains(pindex) {
        AncestorTrans(Tip(), pindex.nHeight, nHeight);
        r := At(nHeight);
      } else {
        r := pindex.GetAncestor(nHeight, tree);
      }
    }

    /** Ancestors at growing distances down to the genesis block. */
    method GetLocator(start: Block?, ghost tree: set<Block>) returns (vHave: seq<Block>)
      requires Valid() && TreeOk(tree) && (start != null ==> start in tree) && (Tip() != null ==> Tip() in tree)
      ensures var p := if start == null then Tip() else start;
              if p == null then vHave == [] else IsLocator(p, vHave)
    {
      hide Back, StepAfter, IsLocator, IsPartial, Ancestor, Rooted, SkipOk, CeilLog2;
      var nStep := 1;
      vHave := [];
      var pindex: Block? := start;
      if pindex == null {
        pindex := Tip();
      }
      if pindex == null {
        return;
      }
      ghost var p: Block := pindex;
      BackStart(p);
      while pindex != null
        invariant pindex != null && pindex in tree && nStep == StepAfter(|vHave|)
        invariant pindex == Ancestor(p, Max(0, p.nHeight - Back(|vHave|)))
        invariant IsPartial(p, vHave)
        decreases pindex.nHeight
      {
        if pindex.nHeight == 0 {
          PartialEnds(p, vHave, pindex);
          vHave := vHave + [pindex];
          break;
        }
        BackStep(|vHave|);
        PartialGrows(p, vHave, pindex);
        vHave := vHave + [pindex];
        var nHeight := Max(pindex.nHeight - nStep, 0);
        AncestorTrans(p, pindex.nHeight, nHeight);
        pindex := Earlier(pindex, nHeight, tree);
        if |vHave| > 10 {
          nStep := nStep * 2;
        }
      }
    }

    /** Any run of tip changes leaves the chain equal to its last tip's ancestors. */
    method SetTips(tips: seq<Block?>) returns (moved: seq<bool>)
      requires Valid() && forall i :: 0 <= i < |tips| && tips[i] != null ==> Rooted(tips[i])
      modifies this
      ensures Valid() && (|tips| > 0 ==> Tip() == tips[|tips| - 1])
      ensures |moved| == |tips| && m_source_generation == Generations(old(m_source_generation), moved)
      ensures forall i :: 0 < i < |tips| ==> (moved[i] <==> tips[i] != tips[i - 1])
    {
      moved := [];
      for i := 0 to |tips|
        invariant Valid() && |moved| == i && (i > 0 ==> Tip() == tips[i - 1])
        invariant forall j :: 0 < j < i ==> (moved[j] <==> tips[j] != tips[j - 1])
        invariant m_source_generation == Generations(old(m_source_generation), moved)
      {
        GenerationsSnoc(old(m_source_generation), moved, Tip() != tips[i]);
        moved := moved + [Tip() != tips[i]];
        SetTip(tips[i]);
      }
    }
  }

  lemma {:induction false} GenerationsSnoc(value: nat, moved: seq<bool>, last: bool)
    ensures Generations(value, moved + [last]) ==
              if last then Advance(Generations(value, moved)) else Generations(value, moved)
    decreases moved
  {
    if moved == [] {
      assert [last][1..] == [];
      assert moved + [last] == [last];
    } else {
      assert (moved + [last])[1..] == moved[1..] + [last];
      GenerationsSnoc(if moved[0] then Advance(value) else value, moved[1..], last);
    }
  }

  lemma BackStart(p: Block)
    requires Rooted(p)
    ensures Back(0) == 0 && StepAfter(0) == 1 && IsPartial(p, []) && Ancestor(p, p.nHeight) == p
  {
  }
}
