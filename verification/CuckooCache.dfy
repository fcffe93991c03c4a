/** The cuckoo cache of src/cuckoocache.h. Hash values are a parameter; garbage-collection bits are plain booleans. */
module CuckooCache {
  import opened Common
  import opened Powers

  const INVALID: nat := TWO32 - 1

  datatype Element<K, V> = Element(key: K, value: V)

  lemma ScaledBelow(x: nat, size: nat)
    requires x < TWO32 && size > 0
    ensures x * size / TWO32 < size
  {
    MulLe(x, TWO32 - 1, size);
    assert x * size < TWO32 * size;
  }

  function Location(h: nat, size: nat): (r: nat)
    requires size > 0
    ensures r < size
  {
    ScaledBelow(h % TWO32, size);
    (h % TWO32) * size / TWO32
  }

  /** Every place is reached by some hash value. */
  lemma EveryPlaceReached(loc: nat, size: nat) returns (h: nat)
    requires loc < size <= TWO32
    ensures h < TWO32 && Location(h, size) == loc
  {
    h := Ceiling(loc * TWO32, size);
    if h >= TWO32 {
      MulLe(TWO32, h, size);
      MulLe(loc + 1, size, TWO32);
    }
    QuotientIs(h * size, TWO32, loc, h * size - loc * TWO32);
  }

  /** The eight places a key may stand in. */
  function Locs<K>(hash: (nat, K) -> nat, size: nat, k: K): (r: seq<nat>)
    requires size > 0
    ensures |r| == 8 && forall i :: 0 <= i < 8 ==> r[i] < size
    ensures size < TWO32 ==> INVALID !in r
  {
    [Location(hash(0, k), size), Location(hash(1, k), size), Location(hash(2, k), size), Location(hash(3, k), size),
     Location(hash(4, k), size), Location(hash(5, k), size), Location(hash(6, k), size), Location(hash(7, k), size)]
  }

  /** One for each hash function. */
  lemma LocsAre<K>(hash: (nat, K) -> nat, size: nat, k: K, i: nat)
    requires size > 0 && i < 8
    ensures Locs(hash, size, k)[i] == Location(hash(i, k), size)
  {
  }

  // ---------------------------------------------------------------- what holds of the table

  /** Whatever is not the default element stands in one of its own places, and so does whatever is to be kept. */
  ghost predicate Placed<K(!new), V>(hash: (nat, K) -> nat, dflt: K, table: seq<Element<K, V>>, collected: seq<bool>) {
    && |table| > 0 && |collected| == |table|
    && forall i :: 0 <= i < |table| ==>
         i in Locs(hash, |table|, table[i].key) || (table[i].key == dflt && collected[i])
  }

  /** No key but the default one stands in two places. */
  ghost predicate Unique<K(!new), V>(dflt: K, table: seq<Element<K, V>>) {
    forall i, j :: 0 <= i < j < |table| && table[i].key == table[j].key ==> table[i].key == dflt
  }

  /** The keys that are to be kept. */
  ghost function Kept<K(!new), V>(table: seq<Element<K, V>>, collected: seq<bool>): set<K>
    requires |table| == |collected|
  {
    set i | 0 <= i < |table| && !collected[i] :: table[i].key
  }

  lemma KeptHas<K(!new), V>(table: seq<Element<K, V>>, collected: seq<bool>, i: nat)
    requires |table| == |collected| && i < |table| && !collected[i]
    ensures table[i].key in Kept(table, collected)
  {
  }

  /** The same, each with whether it belongs to the current epoch. */
  ghost function Marks<K(!new), V>(table: seq<Element<K, V>>, collected: seq<bool>, epoch: seq<bool>): set<(K, bool)>
    requires |table| == |collected| == |epoch|
  {
    set i | 0 <= i < |table| && !collected[i] :: (table[i].key, epoch[i])
  }

  /** Filling a place that may be discarded adds one mark. */
  lemma FillMarks<K(!new), V>(table: seq<Element<K, V>>, collected: seq<bool>, epoch: seq<bool>, loc: nat,
                              e: Element<K, V>, flag: bool)
    requires |table| == |collected| == |epoch| && loc < |table| && collected[loc]
    ensures Marks(table[loc := e], collected[loc := false], epoch[loc := flag]) ==
              Marks(table, collected, epoch) + {(e.key, flag)}
  {
    var table', collected', epoch' := table[loc := e], collected[loc := false], epoch[loc := flag];
    forall x | x in Marks(table, collected, epoch) + {(e.key, flag)} ensures x in Marks(table', collected', epoch') {
      if x == (e.key, flag) {
        assert !collected'[loc] && x == (table'[loc].key, epoch'[loc]);
      } else {
        var i :| 0 <= i < |table| && !collected[i] && x == (table[i].key, epoch[i]);
        assert !collected'[i] && x == (table'[i].key, epoch'[i]);
      }
    }
  }

  /** An exchange takes the mark of what comes out along and leaves that of what goes in. */
  lemma SwapMarks<K(!new), V>(table: seq<Element<K, V>>, collected: seq<bool>, epoch: seq<bool>, loc: nat,
                              e: Element<K, V>, flag: bool)
    requires |table| == |collected| == |epoch| && loc < |table| && !collected[loc]
    ensures Marks(table[loc := e], collected, epoch[loc := flag]) + {(table[loc].key, epoch[loc])} ==
              Marks(table, collected, epoch) + {(e.key, flag)}
  {
    var table', epoch', out := table[loc := e], epoch[loc := flag], (table[loc].key, epoch[loc]);
    var after := Marks(table', collected, epoch') + {out};
    forall x | x in Marks(table, collected, epoch) + {(e.key, flag)} ensures x in after {
      if x == (e.key, flag) {
        assert x == (table'[loc].key, epoch'[loc]);
      } else {
        var i :| 0 <= i < |table| && !collected[i] && x == (table[i].key, epoch[i]);
        assert i != loc ==> x == (table'[i].key, epoch'[i]);
      }
    }
    assert out in Marks(table, collected, epoch);
  }

  /** What an insertion may do to the marks: only the new key gains one, of the current epoch, and only the
      dropped keys lose theirs. */
  ghost predicate Remarked<K(!new)>(before: set<(K, bool)>, after: set<(K, bool)>, k: K, dropped: set<K>) {
    && (forall x :: x in after ==> x in before || x == (k, true))
    && (forall x :: x in before && x.0 != k && x.0 !in dropped ==> x in after)
    && (k !in dropped ==> (k, true) in after)
  }

  lemma RemarkedAll<K(!new)>(before: set<(K, bool)>, after: set<(K, bool)>, k: K)
    requires after == before + {(k, true)}
    ensures Remarked(before, after, k, {})
  {
  }

  lemma RemarkedBut<K(!new)>(before: set<(K, bool)>, after: set<(K, bool)>, k: K, out: K, flag: bool)
    requires after + {(out, flag)} == before + {(k, true)}
    ensures Remarked(before, after, k, {out})
  {
    forall x | x in before && x.0 != k && x.0 != out ensures x in after {
      assert x in after + {(out, flag)};
    }
    if k != out {
      assert (k, true) in after + {(out, flag)};
    }
    forall x | x in after ensures x in before || x == (k, true) {
      assert x in before + {(k, true)};
    }
  }

  /** Refreshing a key where it stands. */
  lemma KeepMarks<K(!new), V>(table: seq<Element<K, V>>, collected: seq<bool>, epoch: seq<bool>, loc: nat,
                              e: Element<K, V>, replace: bool)
    requires |table| == |collected| == |epoch| && loc < |table| && table[loc].key == e.key
    ensures Remarked(Marks(table, collected, epoch),
                     Marks(if replace then table[loc := e] else table, collected[loc := false], epoch[loc := true]),
                     e.key, {})
  {
    var table' := if replace then table[loc := e] else table;
    var collected', epoch' := collected[loc := false], epoch[loc := true];
    var before, after := Marks(table, collected, epoch), Marks(table', collected', epoch');
    assert (table'[loc].key, epoch'[loc]) == (e.key, true) && !collected'[loc];
    forall x | x in before && x.0 != e.key ensures x in after {
      var i :| 0 <= i < |table| && !collected[i] && x == (table[i].key, epoch[i]);
      assert !collected'[i] && x == (table'[i].key, epoch'[i]);
    }
  }

  /** Filling a place that may be discarded adds one key. */
  lemma FillKeeps<K(!new), V>(hash: (nat, K) -> nat, dflt: K, table: seq<Element<K, V>>, collected: seq<bool>,
                              loc: nat, e: Element<K, V>)
    requires Placed(hash, dflt, table, collected) && Unique(dflt, table) && loc < |table|
    requires loc in Locs(hash, |table|, e.key)
    requires forall i :: 0 <= i < |table| && table[i].key == e.key ==> i == loc || e.key == dflt
    requires collected[loc] || table[loc].key == e.key
    ensures var table', collected' := table[loc := e], collected[loc := false];
            && Placed(hash, dflt, table', collected') && Unique(dflt, table')
            && Kept(table', collected') == Kept(table, collected) + {e.key}
  {
    hide Locs;
    var table', collected' := table[loc := e], collected[loc := false];
    forall k | k in Kept(table, collected) + {e.key} ensures k in Kept(table', collected') {
      if k == e.key {
        assert table'[loc].key == k;
      } else {
        var i :| 0 <= i < |table| && !collected[i] && table[i].key == k;
        assert table'[i].key == k;
      }
    }
  }

  /** Marking a key that already stands in its place. */
  lemma KeepKeeps<K(!new), V>(hash: (nat, K) -> nat, dflt: K, table: seq<Element<K, V>>, collected: seq<bool>, loc: nat)
    requires Placed(hash, dflt, table, collected) && loc < |table| && loc in Locs(hash, |table|, table[loc].key)
    ensures Placed(hash, dflt, table, collected[loc := false])
    ensures Kept(table, collected[loc := false]) == Kept(table, collected) + {table[loc].key}
  {
    hide Locs;
    var collected' := collected[loc := false];
    forall k | k in Kept(table, collected) + {table[loc].key} ensures k in Kept(table, collected') {
      if k == table[loc].key {
        assert !collected'[loc];
      } else {
        var i :| 0 <= i < |table| && !collected[i] && table[i].key == k;
        assert !collected'[i];
      }
    }
  }

  /** Exchanging the element in hand for a kept one loses no key between table and hand. */
  lemma SwapKeeps<K(!new), V>(hash: (nat, K) -> nat, dflt: K, table: seq<Element<K, V>>, collected: seq<bool>,
                              loc: nat, e: Element<K, V>)
    requires Placed(hash, dflt, table, collected) && Unique(dflt, table) && loc < |table| && !collected[loc]
    requires loc in Locs(hash, |table|, e.key)
    requires forall i :: 0 <= i < |table| && table[i].key == e.key ==> e.key == dflt
    ensures var table', out := table[loc := e], table[loc];
            && Placed(hash, dflt, table', collected) && Unique(dflt, table')
            && (forall i :: 0 <= i < |table| && table'[i].key == out.key ==> out.key == dflt)
            && Kept(table', collected) + {out.key} == Kept(table, collected) + {e.key}
  {
    hide Locs;
    var table', out := table[loc := e], table[loc];
    forall k | k in Kept(table, collected) + {e.key} ensures k in Kept(table', collected) + {out.key} {
      if k == e.key {
        assert table'[loc].key == k;
      } else {
        var i :| 0 <= i < |table| && !collected[i] && table[i].key == k;
        assert table'[i].key == k || i == loc;
      }
    }
    KeptHas(table, collected, loc);
  }

  /** Flags after the old epoch has been given up. */
  function Aged(collected: seq<bool>, epoch: seq<bool>): (r: seq<bool>)
    requires |collected| == |epoch|
    ensures |r| == |epoch| && forall i :: 0 <= i < |epoch| ==> r[i] == (collected[i] || !epoch[i])
  {
    seq(|epoch|, i requires 0 <= i < |epoch| => collected[i] || !epoch[i])
  }

  /** How many entries of the current epoch are to be kept. */
  function Current(collected: seq<bool>, epoch: seq<bool>): nat
    requires |collected| == |epoch|
  {
    if epoch == [] then 0
    else
      var n := |epoch| - 1;
      Current(collected[..n], epoch[..n]) + if epoch[n] && !collected[n] then 1 else 0
  }

  /** Giving up entries keeps the rest in order. */
  lemma AgedKeeps<K(!new), V>(hash: (nat, K) -> nat, dflt: K, table: seq<Element<K, V>>, collected: seq<bool>,
                              collected': seq<bool>)
    requires Placed(hash, dflt, table, collected) && |collected'| == |collected|
    requires forall i :: 0 <= i < |collected| ==> collected[i] ==> collected'[i]
    ensures Placed(hash, dflt, table, collected') && Kept(table, collected') <= Kept(table, collected)
  {
    hide Locs;
  }

  class Cache<K(==, !new), V> {
    const hash: (nat, K) -> nat
    const dflt: Element<K, V>
    const size: nat
    const depthLimit: nat
    const epochSize: nat
    var table: seq<Element<K, V>>
    var collected: seq<bool>
    var epoch: seq<bool>
    var counter: nat

    ghost predicate Valid()
      reads this
    {
      && 2 <= size < TWO32 && depthLimit >= 1
      && |table| == |collected| == |epoch| == size
      && Placed(hash, dflt.key, table, collected) && Unique(dflt.key, table)
    }

    constructor (hash: (nat, K) -> nat, dflt: Element<K, V>, newSize: nat, depthLimit: nat)
      requires newSize < TWO32 && depthLimit >= 1
      ensures Valid() && Kept(table, collected) == {} && this.dflt == dflt && this.hash == hash
      ensures size == Max(2, newSize) && this.depthLimit == depthLimit
      ensures counter == epochSize == Max(1, 45 * size % TWO32 / 100)
      ensures forall i :: 0 <= i < size ==> !epoch[i] && table[i] == dflt
    {
      this.hash, this.dflt, this.depthLimit := hash, dflt, depthLimit;
      size := Max(2, newSize);
      table := seq(Max(2, newSize), _ => dflt);
      collected := seq(Max(2, newSize), _ => true);
      epoch := seq(Max(2, newSize), _ => false);
      epochSize := Max(1, 45 * Max(2, newSize) % TWO32 / 100);
      counter := Max(1, 45 * Max(2, newSize) % TWO32 / 100);
    }

    /** Every so often, when the current epoch is large enough, the old one is given up. */
    method EpochCheck() returns (aged: bool)
      requires Valid()
      modifies this`collected, this`epoch, this`counter
      ensures Valid()
      ensures aged <==> old(counter) == 0 && Current(old(collected), old(epoch)) >= epochSize
      ensures collected == if aged then Aged(old(collected), old(epoch)) else old(collected)
      ensures epoch == if aged then seq(size, _ => false) else old(epoch)
      ensures counter == if old(counter) != 0 then old(counter) - 1 else if aged then epochSize
                         else Max(1, Max(epochSize / 16, epochSize - Current(old(collected), old(epoch))))
      ensures Kept(table, collected) <= old(Kept(table, collected))
    {
      hide Placed, Unique, Kept;
      if counter != 0 {
        counter := counter - 1;
        return false;
      }
      var unused := 0;
      for i := 0 to size
        invariant unused == Current(collected[..i], epoch[..i])
      {
        assert collected[..i + 1][..i] == collected[..i] && epoch[..i + 1][..i] == epoch[..i];
        unused := unused + if epoch[i] && !collected[i] then 1 else 0;
      }
      assert collected[..size] == collected && epoch[..size] == epoch;
      if unused >= epochSize {
        Age();
        counter := epochSize;
        aged := true;
      } else {
        counter := Max(1, Max(epochSize / 16, epochSize - unused));
        aged := false;
      }
    }

    method Age()
      requires Valid()
      modifies this`collected, this`epoch
      ensures Valid() && collected == Aged(old(collected), old(epoch)) && epoch == seq(size, _ => false)
      ensures Kept(table, collected) <= old(Kept(table, collected))
    {
      hide Placed, Unique, Kept;
      ghost var wasCollected, wasEpoch := collected, epoch;
      for i := 0 to size
        invariant |collected| == |epoch| == size
        invariant forall j :: 0 <= j < i ==> !epoch[j] && collected[j] == (wasCollected[j] || !wasEpoch[j])
        invariant forall j :: i <= j < size ==> epoch[j] == wasEpoch[j] && collected[j] == wasCollected[j]
      {
        if epoch[i] {
          epoch := epoch[i := false];
        } else {
          collected := collected[i := true];
        }
      }
      assert collected == Aged(wasCollected, wasEpoch);
      AgedKeeps(hash, dflt.key, table, wasCollected, collected);
    }

    /** Where a key stands, or -1. */
    method Seek(k: K, locs: seq<nat>) returns (loc: int)
      requires Valid() && locs == Locs(hash, size, k)
      ensures loc != -1 ==> 0 <= loc < size && loc in locs && table[loc].key == k
      ensures loc == -1 ==> forall i :: 0 <= i < 8 ==> table[locs[i]].key != k
      ensures loc == -1 && k != dflt.key ==> forall i :: 0 <= i < size ==> table[i].key != k
    {
      hide Locs, Unique;
      loc := -1;
      var i := 0;
      while i < 8 && loc == -1
        invariant 0 <= i <= 8
        invariant loc != -1 ==> 0 <= loc < size && loc in locs && table[loc].key == k
        invariant loc == -1 ==> forall j :: 0 <= j < i ==> table[locs[j]].key != k
        decreases 8 - i, loc == -1
      {
        if table[locs[i]].key == k {
          loc := locs[i];
        } else {
          i := i + 1;
        }
      }
      if loc == -1 && k != dflt.key {
        forall j | 0 <= j < size ensures table[j].key != k {
          if j in locs {
            var n :| 0 <= n < 8 && locs[n] == j;
          }
        }
      }
    }

    /** Look a key up; a found element can be given up at the same time, and stays until its place is needed. */
    method Find(k: K, erase: bool) returns (found: bool, e: Element<K, V>)
      requires Valid()
      modifies this`collected
      ensures Valid()
      ensures found ==> e.key == k && e in table
      ensures k != dflt.key ==> (found <==> exists i :: 0 <= i < size && table[i].key == k)
      ensures !erase || !found ==> collected == old(collected)
      ensures Kept(table, collected) <= old(Kept(table, collected))
      ensures erase && found && k != dflt.key ==> Kept(table, collected) == old(Kept(table, collected)) - {k}
    {
      hide Locs;
      var loc := Seek(k, Locs(hash, size, k));
      if loc == -1 {
        return false, dflt;
      }
      if erase {
        ghost var was := collected;
        collected := collected[loc := true];
        AgedKeeps(hash, dflt.key, table, was, collected);
        if k != dflt.key {
          EraseKeeps(dflt.key, table, was, loc);
        }
      }
      found, e := true, table[loc];
    }

    /** Insert after aging, which leaves `flags`: at most one kept key is dropped for the new one, and
        none if the key is already there or one of its places is free. */
    method Insert(e: Element<K, V>, replace: bool)
      returns (ghost flags: seq<bool>, ghost marks: seq<bool>, ghost dropped: set<K>)
      requires Valid()
      modifies this
      ensures Valid()
      ensures flags == if old(counter) == 0 && Current(old(collected), old(epoch)) >= epochSize
                       then Aged(old(collected), old(epoch)) else old(collected)
      ensures marks == if old(counter) == 0 && Current(old(collected), old(epoch)) >= epochSize
                       then seq(size, _ => false) else old(epoch)
      ensures |dropped| <= 1
      ensures Remarked(Marks(old(table), flags, marks), Marks(table, collected, epoch), e.key, dropped)
      ensures Kept(table, collected) <= Kept(old(table), flags) + {e.key} <= Kept(table, collected) + dropped
      ensures forall x :: x in table ==> x in old(table) || x == e
      ensures var locs := Locs(hash, size, e.key);
              && ((exists i :: 0 <= i < 8 && (old(table)[locs[i]].key == e.key || flags[locs[i]])) ==> dropped == {})
              && (if exists i :: 0 <= i < 8 && old(table)[locs[i]].key == e.key
                  then if replace then e in table else table == old(table)
                  else dropped == {} ==> e in table)
    {
      hide Locs, Placed, Unique, Kept, Current, Marks, Remarked;
      var aged := EpochCheck();
      flags, marks, dropped := collected, epoch, {};
      var locs := Locs(hash, size, e.key);
      var loc := Seek(e.key, locs);
      if loc != -1 {
        Keep(e, loc, replace);
        assert replace ==> table[loc] == e;
        return;
      }
      AbsentUnlessDefault(dflt.key, table, e.key);
      dropped := Displace(e);
    }

    /** The key is already there: refresh it. */
    method Keep(e: Element<K, V>, loc: nat, replace: bool)
      requires Valid() && loc < size && loc in Locs(hash, size, e.key) && table[loc].key == e.key
      modifies this`table, this`collected, this`epoch
      ensures Valid() && Kept(table, collected) == old(Kept(table, collected)) + {e.key}
      ensures table == (if replace then old(table)[loc := e] else old(table)) && epoch == old(epoch)[loc := true]
      ensures forall x :: x in table ==> x in old(table) || x == e
      ensures Remarked(Marks(old(table), old(collected), old(epoch)), Marks(table, collected, epoch), e.key, {})
    {
      KeepMarks(table, collected, epoch, loc, e, replace);
      hide Locs, Placed, Kept, Remarked, Marks;
      KeepKeeps(hash, dflt.key, table, collected, loc);
      ReplaceKeeps(hash, dflt.key, table, collected[loc := false], loc, e);
      if replace {
        table := table[loc := e];
      }
      collected := collected[loc := false];
      epoch := epoch[loc := true];
    }

    /** Push elements along their places until one finds room or the depth runs out. */
    method Displace(first: Element<K, V>) returns (ghost dropped: set<K>)
      requires Valid() && forall i :: 0 <= i < size && table[i].key == first.key ==> first.key == dflt.key
      modifies this`table, this`collected, this`epoch
      ensures Valid() && |dropped| <= 1
      ensures Kept(table, collected) <= old(Kept(table, collected)) + {first.key} <= Kept(table, collected) + dropped
      ensures forall x :: x in table ==> x in old(table) || x == first
      ensures (exists i :: 0 <= i < 8 && old(collected)[Locs(hash, size, first.key)[i]]) ==> dropped == {}
      ensures dropped == {} ==> first in table
      ensures Remarked(Marks(old(table), old(collected), old(epoch)), Marks(table, collected, epoch),
                       first.key, dropped)
    {
      hide Locs, Placed, Unique, Kept, Marks, Remarked;
      ghost var marked := Marks(table, collected, epoch) + {(first.key, true)};
      ghost var home := Locs(hash, size, first.key);
      var e, lastLoc, lastEpoch := first, INVALID, true;
      var locs := Locs(hash, size, e.key);
      var depth := 0;
      while depth < depthLimit
        invariant depth <= depthLimit && Valid() && locs == Locs(hash, size, e.key)
        invariant forall i :: 0 <= i < size && table[i].key == e.key ==> e.key == dflt.key
        invariant Kept(table, collected) + {e.key} == old(Kept(table, collected)) + {first.key}
        invariant Marks(table, collected, epoch) + {(e.key, lastEpoch)} == marked
        invariant e in old(table) || e == first
        invariant forall x :: x in table ==> x in old(table) || x == first
        invariant e == first || exists i :: 0 <= i < size && !collected[i] && table[i] == first
        invariant depth == 0 ==> e == first && collected == old(collected)
        invariant depth > 0 ==> forall i :: 0 <= i < 8 ==> !old(collected)[home[i]]
      {
        var free := FreePlace(locs);
        if free != -1 {
          ghost var was := table;
          Fill(e, free, lastEpoch);
          assert table[free] == e;
          assert forall i :: 0 <= i < size && i != free ==> table[i] == was[i];
          RemarkedAll(old(Marks(table, collected, epoch)), Marks(table, collected, epoch), first.key);
          return {};
        }
        lastLoc := NextPlace(locs, lastLoc);
        ghost var was := table;
        SwapKeeps(hash, dflt.key, table, collected, lastLoc, e);
        SwapMarks(table, collected, epoch, lastLoc, e, lastEpoch);
        var out := table[lastLoc];
        ghost var mine := e;
        table := table[lastLoc := e];
        assert table[lastLoc] == mine;
        e := out;
        var flag := lastEpoch;
        lastEpoch := epoch[lastLoc];
        epoch := epoch[lastLoc := flag];
        locs := Locs(hash, size, e.key);
        depth := depth + 1;
      }
      dropped := {e.key};
      RemarkedBut(old(Marks(table, collected, epoch)), Marks(table, collected, epoch), first.key, e.key, lastEpoch);
    }

    method Fill(e: Element<K, V>, loc: nat, flag: bool)
      requires Valid() && loc < size && loc in Locs(hash, size, e.key) && collected[loc]
      requires forall i :: 0 <= i < size && table[i].key == e.key ==> e.key == dflt.key
      modifies this`table, this`collected, this`epoch
      ensures Valid() && Kept(table, collected) == old(Kept(table, collected)) + {e.key}
      ensures table == old(table)[loc := e] && collected == old(collected)[loc := false]
      ensures epoch == old(epoch)[loc := flag]
      ensures Marks(table, collected, epoch) == old(Marks(table, collected, epoch)) + {(e.key, flag)}
    {
      FillMarks(table, collected, epoch, loc, e, flag);
      hide Locs, Placed, Unique, Kept, Marks;
      FillKeeps(hash, dflt.key, table, collected, loc, e);
      table := table[loc := e];
      collected := collected[loc := false];
      epoch := epoch[loc := flag];
    }

    /** The first of the places that may be discarded, or -1. */
    method FreePlace(locs: seq<nat>) returns (loc: int)
      requires Valid() && |locs| == 8 && forall i :: 0 <= i < 8 ==> locs[i] < size
      ensures loc != -1 ==> 0 <= loc < size && loc in locs && collected[loc]
      ensures loc == -1 ==> forall i :: 0 <= i < 8 ==> !collected[locs[i]]
    {
      loc := -1;
      for i := 0 to 8
        invariant loc == -1 && forall j :: 0 <= j < i ==> !collected[locs[j]]
      {
        if collected[locs[i]] {
          return locs[i];
        }
      }
    }
  }

  /** Where the last place tried first stands among eight, or 8. */
  function FirstAt(locs: seq<nat>, last: nat): (at: nat)
    ensures at <= |locs| && last !in locs[..at] && (at < |locs| ==> locs[at] == last)
  {
    if locs == [] || locs[0] == last then 0 else 1 + FirstAt(locs[1..], last)
  }

  /** The place after the last one tried, or the second when none was: (1 + position) & 7. */
  function PlaceAfter(locs: seq<nat>, last: nat): nat
    requires |locs| == 8
  {
    locs[(1 + FirstAt(locs, last)) % 8]
  }

  method NextPlace(locs: seq<nat>, last: nat) returns (loc: nat)
    requires |locs| == 8
    ensures loc == PlaceAfter(locs, last) && loc in locs
    ensures last !in locs ==> loc == locs[1]
    ensures forall i :: 0 <= i < 8 && locs[i] == last && last !in locs[..i] ==> loc == locs[(i + 1) % 8]
  {
    var at := 0;
    while at < 8 && locs[at] != last
      invariant at <= 8 && last !in locs[..at]
    {
      at := at + 1;
    }
    FirstIs(locs, last, at);
    loc := locs[(1 + at) % 8];
  }

  lemma {:induction false} FirstIs(locs: seq<nat>, last: nat, at: nat)
    requires at <= |locs| && last !in locs[..at] && (at < |locs| ==> locs[at] == last)
    ensures FirstAt(locs, last) == at
  {
    if at > 0 {
      assert locs[..at][0] != last;
      assert locs[1..][..at - 1] == locs[..at][1..];
      FirstIs(locs[1..], last, at - 1);
    }
  }

  /** The rule never goes back to the place just filled as long as the eight places differ. */
  lemma DistinctPlacesMoveOn(locs: seq<nat>, last: nat)
    requires |locs| == 8 && forall i, j :: 0 <= i < j < 8 ==> locs[i] != locs[j]
    ensures PlaceAfter(locs, last) != last
  {
    var at := FirstAt(locs, last);
    if at < 8 {
      assert locs[at] == last && (1 + at) % 8 != at;
    } else {
      assert locs[..8] == locs;
    }
  }

  /** In general it does exactly when the place after the first occurrence is the same one: there are
      eight places that make it take out again what was just put in. */
  lemma PlaceRepeatsIff(locs: seq<nat>, last: nat)
    requires |locs| == 8
    ensures PlaceAfter(locs, last) == last <==>
              exists i :: 0 <= i < 8 && locs[i] == last && last !in locs[..i] && locs[(i + 1) % 8] == last
    ensures PlaceAfter([7, 7, 0, 1, 2, 3, 4, 5], 7) == 7
  {
    var at := FirstAt(locs, last);
    assert locs[..8] == locs;
    if i :| 0 <= i < 8 && locs[i] == last && last !in locs[..i] && locs[(i + 1) % 8] == last {
      FirstIs(locs, last, i);
    }
    FirstIs([7, 7, 0, 1, 2, 3, 4, 5], 7, 0);
  }

  lemma AbsentUnlessDefault<K(!new), V>(dflt: K, table: seq<Element<K, V>>, k: K)
    requires k != dflt ==> forall i :: 0 <= i < |table| ==> table[i].key != k
    ensures forall i :: 0 <= i < |table| && table[i].key == k ==> k == dflt
  {
  }

  /** Replacing an element by one with the same key changes nothing about the keys. */
  lemma ReplaceKeeps<K(!new), V>(hash: (nat, K) -> nat, dflt: K, table: seq<Element<K, V>>, collected: seq<bool>,
                                 loc: nat, e: Element<K, V>)
    requires Placed(hash, dflt, table, collected) && Unique(dflt, table) && loc < |table| && table[loc].key == e.key
    ensures Placed(hash, dflt, table[loc := e], collected) && Unique(dflt, table[loc := e])
    ensures Kept(table[loc := e], collected) == Kept(table, collected)
  {
    hide Locs;
    var table' := table[loc := e];
    assert forall i :: 0 <= i < |table| ==> table'[i].key == table[i].key;
    forall k | k in Kept(table, collected) ensures k in Kept(table', collected) {
      var i :| 0 <= i < |table| && !collected[i] && table[i].key == k;
      assert table'[i].key == k;
    }
  }

  lemma EraseKeeps<K(!new), V>(dflt: K, table: seq<Element<K, V>>, collected: seq<bool>, loc: nat)
    requires |table| == |collected| && loc < |table| && Unique(dflt, table) && table[loc].key != dflt
    ensures Kept(table, collected[loc := true]) == Kept(table, collected) - {table[loc].key}
  {
    var k := table[loc].key;
    forall x | x in Kept(table, collected) && x != k ensures x in Kept(table, collected[loc := true]) {
      var i :| 0 <= i < |table| && !collected[i] && table[i].key == x;
      assert !collected[loc := true][i];
    }
    assert forall i :: 0 <= i < |table| && table[i].key == k ==> i == loc;
  }
}
