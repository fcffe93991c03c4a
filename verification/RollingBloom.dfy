/** The rolling bloom filter of src/bloom.cpp. Hash values are a parameter. */
module RollingBloom {
  import opened Common
  import opened Powers

  // ---------------------------------------------------------------- 64-bit words, bit by bit

  type Word = s: seq<bool> | |s| == 64 witness seq(64, _ => false)

  function Fill(b: bool): (w: Word)
    ensures forall i :: 0 <= i < 64 ==> w[i] == b
  {
    seq(64, _ => b)
  }

  function Zip(a: Word, b: Word, f: (bool, bool) -> bool): (w: Word)
    ensures forall i :: 0 <= i < 64 ==> w[i] == f(a[i], b[i])
  {
    seq(64, i requires 0 <= i < 64 => f(a[i], b[i]))
  }

  function And(a: Word, b: Word): Word { Zip(a, b, (x, y) => x && y) }

  function Or(a: Word, b: Word): Word { Zip(a, b, (x, y) => x || y) }

  function Xor(a: Word, b: Word): Word { Zip(a, b, (x, y) => x != y) }

  function Not(a: Word): Word { Zip(a, a, (x, y) => !x) }

  /** uint64_t(b) << bit. */
  function Shl(b: bool, bit: nat): Word
    requires bit < 64
  {
    Fill(false)[bit := b]
  }

  // ---------------------------------------------------------------- two-bit cells

  /** Bit `bit` of the words at an even position and the one after it. */
  datatype Cell = Cell(word: nat, bit: nat)

  predicate InTable(x: Cell, size: nat) { x.word % 2 == 0 && x.word + 1 < size && x.bit < 64 }

  function Get(data: seq<Word>, x: Cell): int
    requires InTable(x, |data|)
  {
    (if data[x.word][x.bit] then 1 else 0) + (if data[x.word + 1][x.bit] then 2 else 0)
  }

  function FastMod(x: nat, n: nat): nat { x * n / TWO32 }

  lemma FastModBelow(x: nat, n: nat)
    requires x < TWO32 && n > 0
    ensures FastMod(x, n) < n
  {
    MulLe(x, TWO32 - 1, n);
    assert x * n < TWO32 * n;
  }

  /** The cell a hash value selects. */
  function CellOf(h: nat, size: nat): Cell {
    var pos := FastMod(h, size);
    Cell(pos - pos % 2, h % 64)
  }

  lemma CellInTable(h: nat, size: nat)
    requires h < TWO32 && size > 0 && size % 2 == 0
    ensures InTable(CellOf(h, size), size)
  {
    FastModBelow(h, size);
  }

  /** Every cell is selected by some hash value, in tables of up to 2^27 words; a filter of 32-bit size has no
      more. */
  lemma EveryCellReached(x: Cell, size: nat) returns (h: nat)
    requires InTable(x, size) && size % 2 == 0 && size <= 0x800_0000
    ensures h < TWO32 && CellOf(h, size) == x
  {
    var a := Ceiling(x.word * TWO32, size);
    h := NextWithBit(a, x.bit);
    ProductBetween(x.word, size, a, h);
    PosFrom(x.word, h * size);
  }

  lemma NextWithBit(a: nat, bit: nat) returns (h: nat)
    requires bit < 64
    ensures a <= h <= a + 63 && h % 64 == bit
  {
    h := a + (bit - a) % 64;
  }

  lemma ProductBetween(word: nat, size: nat, a: nat, h: nat)
    requires word + 1 < size <= 0x800_0000
    requires word * TWO32 <= a * size < word * TWO32 + size && a <= h <= a + 63
    ensures word * TWO32 <= h * size < word * TWO32 + 2 * TWO32 && h < TWO32
  {
    MulLe(a, h, size);
    MulLe(h, a + 63, size);
    MulAdd(a, 63, size);
    if h >= TWO32 {
      MulLe(TWO32, h, size);
      MulLe(word + 2, size, TWO32);
    }
  }

  lemma PosFrom(word: nat, product: nat)
    requires word % 2 == 0 && word * TWO32 <= product < word * TWO32 + 2 * TWO32
    ensures product / TWO32 - product / TWO32 % 2 == word
  {
    if product < word * TWO32 + TWO32 {
      QuotientIs(product, TWO32, word, product - word * TWO32);
    } else {
      QuotientIs(product, TWO32, word + 1, product - (word + 1) * TWO32);
    }
  }

  /** Write a generation number into a cell. */
  function Put(data: seq<Word>, x: Cell, g: nat): (r: seq<Word>)
    requires InTable(x, |data|)
    ensures |r| == |data|
  {
    var mask := Not(Shl(true, x.bit));
    var first := Or(And(data[x.word], mask), Shl(g % 2 == 1, x.bit));
    var second := Or(And(data[x.word + 1], mask), Shl(g / 2 == 1, x.bit));
    data[x.word := first][x.word + 1 := second]
  }

  lemma PutGet(data: seq<Word>, x: Cell, g: nat, y: Cell)
    requires InTable(x, |data|) && InTable(y, |data|) && 1 <= g <= 3
    ensures Get(Put(data, x, g), y) == if x == y then g else Get(data, y)
  {
  }

  /** Clear the bits of one word pair whose cells hold g. */
  function WipePair(p1: Word, p2: Word, g: nat): (r: (Word, Word)) {
    var mask := Or(Xor(p1, Fill(g % 2 == 1)), Xor(p2, Fill(g / 2 == 1)));
    (And(p1, mask), And(p2, mask))
  }

  /** The first p words have been wiped of generation g. */
  ghost predicate WipedTo(was: seq<Word>, now: seq<Word>, g: nat, p: nat) {
    && |now| == |was|
    && forall x :: InTable(x, |was|) ==>
         Get(now, x) == if x.word < p && Get(was, x) == g then 0 else Get(was, x)
  }

  lemma WipeStep(was: seq<Word>, now: seq<Word>, g: nat, p: nat)
    requires WipedTo(was, now, g, p) && p % 2 == 0 && p + 1 < |now| && 1 <= g <= 3
    ensures var (q1, q2) := WipePair(now[p], now[p + 1], g);
            WipedTo(was, now[p := q1][p + 1 := q2], g, p + 2)
  {
    var (q1, q2) := WipePair(now[p], now[p + 1], g);
    var next := now[p := q1][p + 1 := q2];
    forall x | InTable(x, |was|)
      ensures Get(next, x) == if x.word < p + 2 && Get(was, x) == g then 0 else Get(was, x)
    {
      assert Get(now, x) == if x.word < p && Get(was, x) == g then 0 else Get(was, x);
    }
  }

  // ---------------------------------------------------------------- generations

  /** The number that marks the g-th group of entries. */
  function Gen(g: nat): nat { 1 + g % 3 }

  lemma GenNext(g: nat)
    ensures Gen(g + 1) == if Gen(g) + 1 == 4 then 1 else Gen(g) + 1
  {
  }

  /** A mark left by some group from lo to hi. */
  ghost predicate Live(v: int, lo: nat, hi: nat) { exists g: nat :: lo <= g <= hi && v == Gen(g) }

  ghost predicate AllLive(data: seq<Word>, cells: seq<Cell>, lo: nat, hi: nat) {
    forall n :: 0 <= n < |cells| ==> InTable(cells[n], |data|) && Live(Get(data, cells[n]), lo, hi)
  }

  /** The entries of the last three groups are all marked. */
  ghost predicate Kept(data: seq<Word>, marks: seq<seq<Cell>>, groups: seq<nat>, group: nat) {
    && |marks| == |groups|
    && forall j :: 0 <= j < |marks| && groups[j] + 2 >= group ==> AllLive(data, marks[j], groups[j], group)
  }

  /** Entry j belongs to group j / m. */
  ghost predicate Grouped(groups: seq<nat>, m: nat) {
    forall j :: 0 <= j < |groups| ==> groups[j] * m <= j < (groups[j] + 1) * m
  }

  /** Wiping the oldest group's number spares the marks of the two groups before the new one. */
  lemma WipeKeeps(was: seq<Word>, now: seq<Word>, marks: seq<seq<Cell>>, groups: seq<nat>, group: nat)
    requires WipedTo(was, now, Gen(group + 1), |was|) && Kept(was, marks, groups, group)
    ensures Kept(now, marks, groups, group + 1)
  {
    hide Get, Gen, InTable;
    forall j | 0 <= j < |marks| && groups[j] + 2 >= group + 1 ensures AllLive(now, marks[j], groups[j], group + 1) {
      forall n | 0 <= n < |marks[j]| ensures InTable(marks[j][n], |now|)
          && Live(Get(now, marks[j][n]), groups[j], group + 1) {
        var x := marks[j][n];
        assert InTable(x, |was|) && Live(Get(was, x), groups[j], group);
        var g: nat :| groups[j] <= g <= group && Get(was, x) == Gen(g);
        GenApart(g, group + 1);
        InTableWord(x, |was|);
      }
    }
  }

  lemma GenApart(g: nat, h: nat)
    requires g < h <= g + 2
    ensures Gen(g) != Gen(h) && Gen(g) != 0
  {
  }

  lemma InTableWord(x: Cell, size: nat)
    requires InTable(x, size)
    ensures x.word < size
  {
  }

  /** Writing the current number keeps every mark live. */
  lemma PutKeeps(data: seq<Word>, x: Cell, marks: seq<seq<Cell>>, groups: seq<nat>, group: nat)
    requires InTable(x, |data|) && Kept(data, marks, groups, group) && forall j :: 0 <= j < |groups| ==>
             groups[j] <= group
    ensures Kept(Put(data, x, Gen(group)), marks, groups, group)
  {
    GenRange(group);
    hide Get, Gen, Put;
    var now := Put(data, x, Gen(group));
    forall j | 0 <= j < |marks| && groups[j] + 2 >= group ensures AllLive(now, marks[j], groups[j], group) {
      PutLive(data, x, marks[j], groups[j], group);
    }
  }

  lemma GenRange(g: nat)
    ensures 1 <= Gen(g) <= 3
  {
  }

  lemma PutLive(data: seq<Word>, x: Cell, cells: seq<Cell>, lo: nat, group: nat)
    requires InTable(x, |data|) && lo <= group && AllLive(data, cells, lo, group)
    ensures AllLive(Put(data, x, Gen(group)), cells, lo, group)
  {
    GenRange(group);
    hide Get, Gen, Put;
    var now := Put(data, x, Gen(group));
    forall n | 0 <= n < |cells| ensures InTable(cells[n], |now|) && Live(Get(now, cells[n]), lo, group) {
      assert InTable(cells[n], |data|) && Live(Get(data, cells[n]), lo, group);
      PutGet(data, x, Gen(group), cells[n]);
    }
  }

  /** The last 2m + e entries are in the last three groups. */
  lemma RecentGroups(groups: seq<nat>, m: nat, group: nat, e: nat, j: nat)
    requires Grouped(groups, m) && m > 0 && |groups| == group * m + e
    requires j < |groups| && j + 2 * m + e >= |groups|
    ensures groups[j] + 2 >= group
  {
    if groups[j] + 3 <= group {
      MulLe(groups[j] + 3, group, m);
      MulAdd(groups[j] + 1, 2, m);
    }
  }

  /** Exactly these cells were given the number g. */
  ghost predicate Written(was: seq<Word>, now: seq<Word>, cells: seq<Cell>, g: nat) {
    && |now| == |was|
    && forall x :: InTable(x, |was|) ==> Get(now, x) == if x in cells then g else Get(was, x)
  }

  lemma WrittenStep(was: seq<Word>, now: seq<Word>, cells: seq<Cell>, n: nat, g: nat)
    requires n < |cells| && Written(was, now, cells[..n], g) && InTable(cells[n], |now|) && 1 <= g <= 3
    ensures Written(was, Put(now, cells[n], g), cells[..n + 1], g)
  {
    hide Get, Put, InTable;
    var next := Put(now, cells[n], g);
    assert cells[..n + 1] == cells[..n] + [cells[n]];
    forall x | InTable(x, |was|) ensures Get(next, x) == if x in cells[..n + 1] then g else Get(was, x) {
      PutGet(now, cells[n], g, x);
    }
  }

  /** What one insertion does to the cells: a new generation first empties the cells of its number. */
  ghost predicate Inserted(was: seq<Word>, now: seq<Word>, cells: seq<Cell>, g: nat, rolled: bool) {
    && |now| == |was|
    && forall x :: InTable(x, |was|) ==>
         Get(now, x) == if x in cells then g else if rolled && Get(was, x) == g then 0 else Get(was, x)
  }

  lemma InsertedIs(was: seq<Word>, mid: seq<Word>, now: seq<Word>, cells: seq<Cell>, g: nat, rolled: bool)
    requires Written(mid, now, cells, g) && if rolled then WipedTo(was, mid, g, |was|) else mid == was
    ensures Inserted(was, now, cells, g, rolled)
  {
    hide Get;
  }

  /** A live mark is not empty. */
  lemma LiveSet(v: int, lo: nat, hi: nat)
    requires Live(v, lo, hi)
    ensures v != 0
  {
  }

  class RollingBloomFilter<Item> {
    const nEntriesPerGeneration: nat
    const nHashFuncs: nat
    const size: nat
    const hash: (nat, nat, Item) -> nat
    var nEntriesThisGeneration: nat
    var nGeneration: nat
    var data: seq<Word>
    var nTweak: nat
    /** What was inserted since the last reset, the cells it maps to and the group it fell in. */
    ghost var history: seq<Item>
    ghost var marks: seq<seq<Cell>>
    ghost var groups: seq<nat>
    ghost var group: nat

    function CellFor(tweak: nat, n: nat, item: Item): Cell { CellOf(hash(n, tweak, item) % TWO32, size) }

    ghost function CellsFor(tweak: nat, item: Item): (r: seq<Cell>)
      ensures |r| == nHashFuncs && forall n :: 0 <= n < nHashFuncs ==> r[n] == CellFor(tweak, n, item)
    {
      seq(nHashFuncs, n requires 0 <= n < nHashFuncs => CellFor(tweak, n, item))
    }

    ghost predicate Shaped()
      reads this`data
    {
      nEntriesPerGeneration > 0 && size > 0 && size % 2 == 0 && |data| == size
    }

    ghost predicate Valid()
      reads this
    {
      && Shaped()
      && nEntriesThisGeneration <= nEntriesPerGeneration
      && nGeneration == Gen(group)
      && |history| == |marks| == |groups| == group * nEntriesPerGeneration + nEntriesThisGeneration
      && Grouped(groups, nEntriesPerGeneration)
      && (forall j :: 0 <= j < |groups| ==> groups[j] <= group)
      && (forall j :: 0 <= j < |history| ==> marks[j] == CellsFor(nTweak, history[j]))
      && Kept(data, marks, groups, group)
    }

    constructor (nElements: nat, nHashFuncs: nat, nFilterBits: nat, hash: (nat, nat, Item) -> nat, tweak: nat)
      requires nElements > 0 && nFilterBits > 0
      ensures Valid() && history == [] && nEntriesPerGeneration == (nElements + 1) / 2
      ensures this.nHashFuncs == nHashFuncs && this.hash == hash && nTweak == tweak
      ensures size == (nFilterBits + 63) / 64 * 2 && nEntriesThisGeneration == 0 && nGeneration == 1
      ensures forall x :: InTable(x, |data|) ==> Get(data, x) == 0
    {
      nEntriesPerGeneration := (nElements + 1) / 2;
      this.nHashFuncs := nHashFuncs;
      size := (nFilterBits + 63) / 64 * 2;
      this.hash := hash;
      nTweak, nEntriesThisGeneration, nGeneration := tweak, 0, 1;
      data := seq((nFilterBits + 63) / 64 * 2, _ => Fill(false));
      history, marks, groups, group := [], [], [], 0;
    }

    method Reset(tweak: nat)
      requires Shaped()
      modifies this
      ensures Valid() && history == [] && nTweak == tweak
      ensures forall x :: InTable(x, |data|) ==> Get(data, x) == 0
      ensures nEntriesThisGeneration == 0 && nGeneration == 1
    {
      nTweak, nEntriesThisGeneration, nGeneration := tweak, 0, 1;
      data := seq(|data|, _ => Fill(false));
      history, marks, groups, group := [], [], [], 0;
    }

    /** The item is among the insertions of this generation and of the two before it. */
    ghost predicate Recent(item: Item)
      reads this
    {
      exists j :: 0 <= j < |history| && j + 2 * nEntriesPerGeneration + nEntriesThisGeneration >= |history|
          && history[j] == item
    }

    /** The item's n-th cell is set. */
    ghost predicate Has(item: Item, n: nat)
      reads this
    {
      InTable(CellFor(nTweak, n, item), |data|) && Get(data, CellFor(nTweak, n, item)) != 0
    }

    /** Whether every cell of the item is set; it is for each recent insertion, and these are never fewer
        than the last 2m. */
    method Contains(item: Item) returns (r: bool)
      requires Valid()
      ensures r <==> forall n :: 0 <= n < nHashFuncs ==> Has(item, n)
      ensures Recent(item) ==> r
    {
      if Recent(item) {
        RecentlyInserted(item);
      }
      hide Get, Kept, Gen, Grouped, CellOf, Recent;
      r := true;
      var n := 0;
      while n < nHashFuncs && r
        invariant 0 <= n <= nHashFuncs
        invariant r ==> forall k :: 0 <= k < n ==> Has(item, k)
        invariant !r ==> exists k :: 0 <= k < nHashFuncs && !Has(item, k)
        decreases nHashFuncs - n, r
      {
        CellInTable(hash(n, nTweak, item) % TWO32, size);
        var x := CellFor(nTweak, n, item);
        if Get(data, x) == 0 {
          assert !Has(item, n);
          r := false;
        } else {
          n := n + 1;
        }
      }
    }

    lemma RecentlyInserted(item: Item)
      requires Valid() && Recent(item)
      ensures forall n :: 0 <= n < nHashFuncs ==> Has(item, n)
    {
      hide Get, Gen, CellOf, Grouped;
      var j :| 0 <= j < |history| && j + 2 * nEntriesPerGeneration + nEntriesThisGeneration >= |history|
          && history[j] == item;
      RecentGroups(groups, nEntriesPerGeneration, group, nEntriesThisGeneration, j);
      assert AllLive(data, marks[j], groups[j], group);
      forall n | 0 <= n < nHashFuncs ensures Has(item, n) {
        assert marks[j][n] == CellFor(nTweak, n, item);
        LiveSet(Get(data, marks[j][n]), groups[j], group);
      }
    }

    /** Record an item; a full generation first makes room by wiping the oldest one. */
    method Insert(item: Item)
      requires Valid()
      modifies this
      ensures Valid() && history == old(history) + [item] && nTweak == old(nTweak)
      ensures var rolled := old(nEntriesThisGeneration) == nEntriesPerGeneration;
              && nEntriesThisGeneration == (if rolled then 1 else old(nEntriesThisGeneration) + 1)
              && nGeneration == (if !rolled then old(nGeneration) else if old(nGeneration) == 3 then 1
                                 else old(nGeneration) + 1)
              && Inserted(old(data), data, CellsFor(nTweak, item), nGeneration, rolled)
    {
      hide Get, Kept, Gen, Grouped, CellOf, AllLive, Written, WipedTo, Inserted;
      ghost var was := data;
      ghost var rolled := nEntriesThisGeneration == nEntriesPerGeneration;
      if nEntriesThisGeneration == nEntriesPerGeneration {
        NextGeneration();
      }
      nEntriesThisGeneration := nEntriesThisGeneration + 1;
      ghost var mid := data;
      Mark(item);
      ghost var cells := CellsFor(nTweak, item);
      InsertedIs(was, mid, data, cells, nGeneration, rolled);
      Extend(data, marks, groups, group, cells, nEntriesPerGeneration, nEntriesThisGeneration);
      history, marks, groups := history + [item], marks + [cells], groups + [group];
    }

    method NextGeneration()
      requires Valid() && nEntriesThisGeneration == nEntriesPerGeneration
      modifies this`nEntriesThisGeneration, this`nGeneration, this`data, this`group
      ensures Valid() && nEntriesThisGeneration == 0
      ensures nGeneration == (if old(nGeneration) == 3 then 1 else old(nGeneration) + 1)
      ensures WipedTo(old(data), data, nGeneration, |old(data)|)
    {
      hide Get, Kept, Gen, Grouped, CellOf, WipedTo, WipePair;
      nEntriesThisGeneration := 0;
      GenNext(group);
      GenRange(group + 1);
      nGeneration := nGeneration + 1;
      if nGeneration == 4 {
        nGeneration := 1;
      }
      ghost var was := data;
      Wipe();
      WipeKeeps(was, data, marks, groups, group);
      MulAdd(group, 1, nEntriesPerGeneration);
      group := group + 1;
    }

    /** Empty the cells that hold the number of the new generation. */
    method Wipe()
      requires Shaped() && 1 <= nGeneration <= 3
      modifies this`data
      ensures Shaped() && WipedTo(old(data), data, nGeneration, |old(data)|)
    {
      hide WipedTo, WipePair;
      ghost var was := data;
      var p := 0;
      WipeStart(was, nGeneration);
      while p < |data|
        invariant 0 <= p <= |data| == size && p % 2 == 0 && WipedTo(was, data, nGeneration, p)
      {
        WipeStep(was, data, nGeneration, p);
        var (q1, q2) := WipePair(data[p], data[p + 1], nGeneration);
        data := data[p := q1][p + 1 := q2];
        p := p + 2;
      }
    }

    /** Write the current generation into every cell of the item. */
    method Mark(item: Item)
      requires Shaped() && nGeneration == Gen(group) && Kept(data, marks, groups, group)
      requires forall j :: 0 <= j < |groups| ==> groups[j] <= group
      modifies this`data
      ensures Shaped() && Kept(data, marks, groups, group) && AllLive(data, CellsFor(nTweak, item), group, group)
      ensures Written(old(data), data, CellsFor(nTweak, item), nGeneration)
    {
      WrittenStart(data, nGeneration);
      GenRange(group);
      hide Get, Kept, Gen, Put, CellOf, AllLive, Written;
      ghost var cells := CellsFor(nTweak, item);
      NoneLive(data, group);
      assert cells[..0] == [];
      for n := 0 to nHashFuncs
        invariant Shaped() && Kept(data, marks, groups, group) && AllLive(data, cells[..n], group, group)
        invariant Written(old(data), data, cells[..n], nGeneration)
      {
        CellInTable(hash(n, nTweak, item) % TWO32, size);
        var x := CellFor(nTweak, n, item);
        PutKeeps(data, x, marks, groups, group);
        PutNext(data, x, cells, n, group);
        WrittenStep(old(data), data, cells, n, nGeneration);
        data := Put(data, x, nGeneration);
      }
      assert cells[..nHashFuncs] == cells;
    }
  }

  lemma WrittenStart(was: seq<Word>, g: nat)
    ensures Written(was, was, [], g)
  {
  }

  lemma WipeStart(was: seq<Word>, g: nat)
    ensures WipedTo(was, was, g, 0)
  {
  }

  lemma NoneLive(data: seq<Word>, group: nat)
    ensures forall s: seq<Cell> :: s == [] ==> AllLive(data, s, group, group)
  {
  }

  lemma PutNext(data: seq<Word>, x: Cell, cells: seq<Cell>, n: nat, group: nat)
    requires InTable(x, |data|) && n < |cells| && cells[n] == x && AllLive(data, cells[..n], group, group)
    ensures AllLive(Put(data, x, Gen(group)), cells[..n + 1], group, group)
  {
    GenRange(group);
    hide Get, Gen, Put;
    PutLive(data, x, cells[..n], group, group);
    PutGet(data, x, Gen(group), x);
    assert cells[..n + 1] == cells[..n] + [x];
  }

  /** One more entry of the current group. */
  lemma Extend(data: seq<Word>, marks: seq<seq<Cell>>, groups: seq<nat>, group: nat, cells: seq<Cell>, m: nat, e: nat)
    requires Kept(data, marks, groups, group) && Grouped(groups, m) && AllLive(data, cells, group, group)
    requires 0 < e <= m && |groups| == group * m + e - 1
    ensures Kept(data, marks + [cells], groups + [group], group) && Grouped(groups + [group], m)
  {
    hide AllLive;
    MulAdd(group, 1, m);
  }
}
