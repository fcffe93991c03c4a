/** The layered UTXO cache of src/coins.cpp.

    A cache holds entries over a parent view, which is another cache or the coin database. What a
    layer means is its `View`: the parent's unspent coins overlaid with the layer's own entries.
    DIRTY and FRESH are only promises about the parent, kept by `Valid`. */
module CoinsCache {
  import opened Common

  datatype OutPoint = OutPoint(txid: nat, n: nat)

  const MAX_SCRIPT_SIZE: nat := 10000
  const OP_RETURN: nat := 0x6a

  datatype TxOut = TxOut(value: int, script: seq<nat>)

  /** A coin is spent when its output is null; clearing a coin leaves no trace of the old one. */
  datatype Coin = Spent | Unspent(out: TxOut, heightAndIsCoinBase: nat) {
    predicate IsSpent() { Spent? }

    predicate IsUnspendable() {
      Unspent? && ((|out.script| > 0 && out.script[0] == OP_RETURN) || |out.script| > MAX_SCRIPT_SIZE)
    }

    /** Heap bytes of the script; short scripts are stored inline. */
    function DynamicMemoryUsage(): nat {
      if Spent? || |out.script| <= 28 then 0 else |out.script|
    }
  }

  datatype Entry = Entry(coin: Coin, isDirty: bool, isFresh: bool)

  type CoinMap = map<OutPoint, Entry>
  type UtxoSet = m: map<OutPoint, Coin> | forall o :: o in m ==> m[o].Unspent? witness map[]

  // ---------------------------------------------------------------- meaning of a layer

  /** A set of coins overlaid with cache entries: an entry decides, a missing one defers. */
  function Overlay(under: UtxoSet, entries: CoinMap): UtxoSet {
    map o | o in under.Keys + entries.Keys && (if o in entries then entries[o].coin.Unspent? else true) ::
      if o in entries then entries[o].coin else under[o]
  }

  /** The same for only the entries that a flush passes on. */
  function OverlayDirty(under: UtxoSet, entries: CoinMap): UtxoSet {
    Overlay(under, map o | o in entries && entries[o].isDirty :: entries[o])
  }

  /** An entry that is not DIRTY agrees with the parent; a FRESH one has no unspent coin there. */
  predicate EntryHonest(under: UtxoSet, o: OutPoint, e: Entry) {
    && (!e.isDirty ==> (if e.coin.Unspent? then o in under && under[o] == e.coin else o !in under))
    && (e.isFresh ==> o !in under)
  }

  ghost predicate Honest(under: UtxoSet, entries: CoinMap) {
    forall o :: o in entries ==> EntryHonest(under, o, entries[o])
  }

  /** Dropping the clean entries of an honest layer loses nothing. */
  lemma FlushPassesView(under: UtxoSet, entries: CoinMap)
    requires Honest(under, entries)
    ensures OverlayDirty(under, entries) == Overlay(under, entries)
  {
    forall o | o in entries ensures EntryHonest(under, o, entries[o]) {}
  }

  /** Total heap usage of the cached coins. */
  ghost function Usage(entries: CoinMap): nat
    decreases |entries|
  {
    if entries == map[] then 0
    else
      var o :| o in entries;
      entries[o].coin.DynamicMemoryUsage() + Usage(entries - {o})
  }

  lemma {:induction false} UsageRemove(entries: CoinMap, o: OutPoint)
    requires o in entries
    ensures Usage(entries) == entries[o].coin.DynamicMemoryUsage() + Usage(entries - {o})
    decreases |entries|
  {
    var p :| p in entries && Usage(entries) == entries[p].coin.DynamicMemoryUsage() + Usage(entries - {p});
    if p != o {
      UsageRemove(entries - {p}, o);
      UsageRemove(entries - {o}, p);
      assert entries - {p} - {o} == entries - {o} - {p};
    }
  }

  lemma UsageUpdate(entries: CoinMap, o: OutPoint, e: Entry)
    ensures Usage(entries[o := e]) ==
            Usage(entries) + e.coin.DynamicMemoryUsage() -
            if o in entries then entries[o].coin.DynamicMemoryUsage() else 0
  {
    var updated := entries[o := e];
    UsageRemove(updated, o);
    if o in entries {
      UsageRemove(entries, o);
      assert updated - {o} == entries - {o};
    } else {
      assert updated - {o} == entries;
    }
  }

  /** A set of coins with one outpoint set to what a coin says. */
  function Put(utxos: UtxoSet, o: OutPoint, coin: Coin): UtxoSet {
    if coin.Spent? then utxos - {o} else utxos[o := coin]
  }

  /** Writing an entry writes its coin into the view. */
  lemma OverlayUpdate(under: UtxoSet, entries: CoinMap, o: OutPoint, e: Entry)
    ensures Overlay(under, entries[o := e]) == Put(Overlay(under, entries), o, e.coin)
  {
  }

  /** Erasing an entry lets the parent show through, so it is a spend if the parent has no coin and
      changes nothing if the entry agreed with the parent. */
  lemma OverlayErase(under: UtxoSet, entries: CoinMap, o: OutPoint)
    requires o in entries
    ensures o !in under ==> Overlay(under, entries - {o}) == Put(Overlay(under, entries), o, Spent)
    ensures EntryHonest(under, o, entries[o]) && !entries[o].isDirty ==>
              Overlay(under, entries - {o}) == Overlay(under, entries)
  {
  }

  /** The entry a cache keeps after a child's dirty entry is merged into it, if it keeps one. */
  function Merged(cache: CoinMap, o: OutPoint, e: Entry): CoinMap {
    if o !in cache then
      if e.isFresh && e.coin.Spent? then cache else cache[o := Entry(e.coin, true, e.isFresh)]
    else if cache[o].isFresh && e.coin.Spent? then cache - {o}
    else cache[o := Entry(e.coin, true, cache[o].isFresh)]
  }

  /** A child may call an entry FRESH only if this layer shows no unspent coin for it. */
  predicate FreshOk(under: UtxoSet, cache: CoinMap, o: OutPoint, e: Entry) {
    e.isFresh ==> if o in cache then cache[o].coin.Spent? else o !in under
  }

  /** Merging one dirty entry keeps the layer honest and writes the child's coin into its view. */
  lemma MergeOne(under: UtxoSet, cache: CoinMap, o: OutPoint, e: Entry)
    requires Honest(under, cache) && FreshOk(under, cache, o, e)
    ensures Honest(under, Merged(cache, o, e))
    ensures Overlay(under, Merged(cache, o, e)) == Put(Overlay(under, cache), o, e.coin)
  {
    if o in cache { assert EntryHonest(under, o, cache[o]); }
    var merged := Merged(cache, o, e);
    forall p | p in merged ensures EntryHonest(under, p, merged[p]) {
      if p != o { assert p in cache && EntryHonest(under, p, cache[p]); }
    }
    if o in cache && merged == cache - {o} {
      OverlayErase(under, cache, o);
    } else if o in merged {
      OverlayUpdate(under, cache, o, merged[o]);
    }
  }

  /** The view after merging the dirty ones among the entries outside `rest`. */
  function PartlyMerged(view: UtxoSet, entries: CoinMap, rest: CoinMap): UtxoSet {
    OverlayDirty(view, entries - rest.Keys)
  }

  lemma MergeNext(view: UtxoSet, entries: CoinMap, rest: CoinMap, o: OutPoint)
    requires rest.Keys <= entries.Keys && o in rest
    ensures PartlyMerged(view, entries, rest - {o}) ==
            if entries[o].isDirty then Put(PartlyMerged(view, entries, rest), o, entries[o].coin)
            else PartlyMerged(view, entries, rest)
  {
    var before, after := entries - rest.Keys, entries - (rest - {o}).Keys;
    assert after == before[o := entries[o]];
    var dirty := map p | p in before && before[p].isDirty :: before[p];
    var dirty' := map p | p in after && after[p].isDirty :: after[p];
    if entries[o].isDirty {
      assert dirty' == dirty[o := entries[o]];
      OverlayUpdate(view, dirty, o, entries[o]);
    } else {
      assert dirty' == dirty;
    }
  }

  lemma MergeEnds(view: UtxoSet, entries: CoinMap)
    ensures PartlyMerged(view, entries, entries) == view
    ensures PartlyMerged(view, entries, map[]) == OverlayDirty(view, entries)
  {
    MergeStarts(view, entries);
    MergeFinishes(view, entries);
  }

  lemma MergeStarts(view: UtxoSet, entries: CoinMap)
    ensures PartlyMerged(view, entries, entries) == view
  {
    assert entries - entries.Keys == map[];
  }

  lemma MergeFinishes(view: UtxoSet, entries: CoinMap)
    ensures PartlyMerged(view, entries, map[]) == OverlayDirty(view, entries)
  {
    assert entries - {} == entries;
  }

  /** Loading a coin from the parent changes neither meaning nor honesty. */
  lemma LoadEntry(under: UtxoSet, entries: CoinMap, o: OutPoint)
    requires Honest(under, entries) && o !in entries && o in under
    ensures var loaded := entries[o := Entry(under[o], false, false)];
            && Overlay(under, loaded) == Overlay(under, entries)
            && Honest(under, loaded)
            && Usage(loaded) == Usage(entries) + under[o].DynamicMemoryUsage()
  {
    var e := Entry(under[o], false, false);
    UsageUpdate(entries, o, e);
    var loaded := entries[o := e];
    forall p | p in loaded ensures EntryHonest(under, p, loaded[p]) {
      if p != o { assert p in entries && EntryHonest(under, p, entries[p]); }
    }
  }

  /** Whether a view shows a coin. */
  lemma OverlayAt(under: UtxoSet, entries: CoinMap, o: OutPoint)
    ensures o in Overlay(under, entries) <==> if o in entries then entries[o].coin.Unspent? else o in under
    ensures o in Overlay(under, entries) ==>
              Overlay(under, entries)[o] == if o in entries then entries[o].coin else under[o]
  {
  }

  /** The entry left by adding a coin: FRESH also when nothing unspent or dirty was there before. */
  function Added(entries: CoinMap, o: OutPoint, coin: Coin, possibleOverwrite: bool): Entry {
    var before := if o in entries then entries[o] else Entry(Spent, false, false);
    Entry(coin, true, before.isFresh || (!possibleOverwrite && !before.isDirty))
  }

  lemma AddEntry(under: UtxoSet, entries: CoinMap, o: OutPoint, coin: Coin, possibleOverwrite: bool)
    requires Honest(under, entries) && coin.Unspent?
    requires !possibleOverwrite && o in entries ==> entries[o].coin.Spent?
    ensures var after := entries[o := Added(entries, o, coin, possibleOverwrite)];
            && Overlay(under, after) == Overlay(under, entries)[o := coin]
            && (Honest(under, after) <==> possibleOverwrite || o in entries || o !in under)
  {
    var e := Added(entries, o, coin, possibleOverwrite);
    var after := entries[o := e];
    if o in entries { assert EntryHonest(under, o, entries[o]); }
    if possibleOverwrite || o in entries || o !in under {
      forall p | p in after ensures EntryHonest(under, p, after[p]) {
        if p != o { assert p in entries && EntryHonest(under, p, entries[p]); }
      }
    } else {
      assert !EntryHonest(under, o, after[o]);
    }
    OverlayUpdate(under, entries, o, e);
  }

  /** The promise made without `possibleOverwrite` is exactly what keeps the layer honest: claimed
      wrongly for a coin that only the parent shows, it leaves a FRESH entry whose later spend is
      simply erased, and the parent's coin is visible again. */
  lemma AddEntryHonestIff(under: UtxoSet, entries: CoinMap, o: OutPoint, coin: Coin)
    requires Honest(under, entries) && coin.Unspent? && o !in entries
    ensures var after := entries[o := Added(entries, o, coin, false)];
            && (Honest(under, after) <==> o !in under)
            && (o in Overlay(under, SpentEntries(after, o)) <==> o in under)
  {
    var after := entries[o := Added(entries, o, coin, false)];
    assert after - {o} == entries;
    if o !in under {
      AddEntry(under, entries, o, coin, false);
    } else {
      assert !EntryHonest(under, o, after[o]);
    }
  }

  function SpentEntries(entries: CoinMap, o: OutPoint): CoinMap
    requires o in entries
  {
    if entries[o].isFresh then entries - {o} else entries[o := Entry(Spent, true, false)]
  }

  lemma SpendEntry(under: UtxoSet, entries: CoinMap, o: OutPoint)
    requires Honest(under, entries) && o in entries
    ensures Honest(under, SpentEntries(entries, o))
    ensures Overlay(under, SpentEntries(entries, o)) == Overlay(under, entries) - {o}
    ensures Usage(SpentEntries(entries, o)) == Usage(entries) - entries[o].coin.DynamicMemoryUsage()
  {
    var after := SpentEntries(entries, o);
    assert EntryHonest(under, o, entries[o]);
    forall p | p in after ensures EntryHonest(under, p, after[p]) {
      if p != o { assert p in entries && EntryHonest(under, p, entries[p]); }
    }
    if entries[o].isFresh {
      OverlayErase(under, entries, o);
      UsageRemove(entries, o);
    } else {
      OverlayUpdate(under, entries, o, Entry(Spent, true, false));
      UsageUpdate(entries, o, Entry(Spent, true, false));
    }
  }

  lemma UncacheEntry(under: UtxoSet, entries: CoinMap, o: OutPoint)
    requires Honest(under, entries) && o in entries && !entries[o].isDirty
    ensures Honest(under, entries - {o}) && Overlay(under, entries - {o}) == Overlay(under, entries)
    ensures Usage(entries - {o}) == Usage(entries) - entries[o].coin.DynamicMemoryUsage()
  {
    assert EntryHonest(under, o, entries[o]);
    forall p | p in entries - {o} ensures EntryHonest(under, p, (entries - {o})[p]) {
      assert EntryHonest(under, p, entries[p]);
    }
    OverlayErase(under, entries, o);
    UsageRemove(entries, o);
  }

  lemma MergeUsage(cache: CoinMap, o: OutPoint, e: Entry)
    ensures Usage(Merged(cache, o, e)) ==
            Usage(cache) - (if o in cache then cache[o].coin.DynamicMemoryUsage() else 0)
            + if o in Merged(cache, o, e) then e.coin.DynamicMemoryUsage() else 0
  {
    var merged := Merged(cache, o, e);
    if o in merged {
      UsageUpdate(cache, o, merged[o]);
    } else if o in cache {
      UsageRemove(cache, o);
    }
  }

  /** An honest child's promises are met by what its parent shows. */
  lemma ChildPromises(under: UtxoSet, cache: CoinMap, child: CoinMap)
    requires Honest(Overlay(under, cache), child)
    ensures forall o :: o in child ==> FreshOk(under, cache, o, child[o])
  {
    forall o | o in child ensures FreshOk(under, cache, o, child[o]) {
      assert EntryHonest(Overlay(under, cache), o, child[o]);
      OverlayAt(under, cache, o);
    }
  }

  /** Two caches hold the same entries for some outpoints. */
  ghost predicate SameOn(a: CoinMap, b: CoinMap, keys: set<OutPoint>) {
    forall o :: o in keys ==> (o in a <==> o in b) && (o in a ==> a[o] == b[o])
  }

  lemma MergedSameOn(a: CoinMap, b: CoinMap, keys: set<OutPoint>, o: OutPoint, e: Entry)
    requires SameOn(a, b, keys)
    ensures SameOn(Merged(a, o, e), b, keys - {o}) && SameOn(a, b, keys - {o})
  {
  }

  lemma FreshOkSameOn(under: UtxoSet, a: CoinMap, b: CoinMap, keys: set<OutPoint>, o: OutPoint, e: Entry)
    requires SameOn(a, b, keys) && o in keys
    ensures FreshOk(under, a, o, e) == FreshOk(under, b, o, e)
    ensures o in a <==> o in b
  {
  }

  lemma EmptyLayer(under: UtxoSet)
    ensures Honest(under, map[]) && Overlay(under, map[]) == under && Usage(map[]) == 0
  {
  }

  // ---------------------------------------------------------------- the views

  /** What the coin database holds: the coins, the block they belong to, and while that changes from one
      block to another the two of them. */
  datatype Disk = Disk(coins: UtxoSet, best: Option<nat>, heads: Option<(nat, Option<nat>)>)

  /** The block a write starts from: the one the coins belong to or, after an interrupted write, the one
      that write started from. */
  function OldTip(disk: Disk): Option<nat> {
    if disk.best == None && disk.heads.Some? then disk.heads.value.1 else disk.best
  }

  /** A later write may only take up an interrupted one for the same block. */
  predicate Resumes(disk: Disk, hashBlock: nat) {
    disk.best == None && disk.heads.Some? ==> disk.heads.value.0 == hashBlock
  }

  /** What a write may leave behind when it is interrupted: the marker of both blocks, and of the entries
      it passes on any part. */
  ghost predicate Interrupted(disk: Disk, was: Disk, entries: CoinMap, hashBlock: nat) {
    && disk.best == None && disk.heads == Some((hashBlock, OldTip(was)))
    && exists rest: CoinMap :: rest.Keys <= entries.Keys && disk.coins == PartlyMerged(was.coins, entries, rest)
  }

  function Completed(was: Disk, entries: CoinMap, hashBlock: nat): Disk {
    Disk(OverlayDirty(was.coins, entries), Some(hashBlock), None)
  }

  /** Writing the same entries again after an interruption ends where an undisturbed write would. */
  lemma RedoCompletes(disk: Disk, was: Disk, entries: CoinMap, hashBlock: nat)
    requires Interrupted(disk, was, entries, hashBlock)
    ensures Resumes(disk, hashBlock) && OldTip(disk) == OldTip(was)
    ensures Completed(disk, entries, hashBlock) == Completed(was, entries, hashBlock)
  {
    var rest: CoinMap :| rest.Keys <= entries.Keys && disk.coins == PartlyMerged(was.coins, entries, rest);
    OverlayTwice(was.coins, entries, rest);
  }

  lemma OverlayTwice(view: UtxoSet, entries: CoinMap, rest: CoinMap)
    ensures OverlayDirty(PartlyMerged(view, entries, rest), entries) == OverlayDirty(view, entries)
  {
  }

  /** And an interruption of the second write is no worse than one of the first. */
  lemma RedoInterrupted(disk: Disk, was: Disk, entries: CoinMap, hashBlock: nat, disk': Disk)
    requires Interrupted(disk, was, entries, hashBlock) && Interrupted(disk', disk, entries, hashBlock)
    ensures Interrupted(disk', was, entries, hashBlock)
  {
    hide PartlyMerged;
    var rest: CoinMap :| rest.Keys <= entries.Keys && disk.coins == PartlyMerged(was.coins, entries, rest);
    var rest': CoinMap :| rest'.Keys <= entries.Keys && disk'.coins == PartlyMerged(disk.coins, entries, rest');
    var both := rest - (rest.Keys - rest'.Keys);
    PartlyTwice(was.coins, entries, rest, rest', both);
  }

  lemma PartlyTwice(view: UtxoSet, entries: CoinMap, rest: CoinMap, rest': CoinMap, both: CoinMap)
    requires both.Keys == rest.Keys * rest'.Keys
    ensures PartlyMerged(PartlyMerged(view, entries, rest), entries, rest') == PartlyMerged(view, entries, both)
  {
    hide PartlyMerged;
    var once := PartlyMerged(view, entries, rest);
    var twice, all := PartlyMerged(once, entries, rest'), PartlyMerged(view, entries, both);
    forall o: OutPoint ensures (o in twice <==> o in all) && (o in twice ==> twice[o] == all[o]) {
      PartlyAt(view, entries, rest, o);
      PartlyAt(once, entries, rest', o);
      PartlyAt(view, entries, both, o);
    }
    assert twice == all;
  }

  /** What a partial merge shows at one outpoint. */
  lemma PartlyAt(view: UtxoSet, entries: CoinMap, rest: CoinMap, o: OutPoint)
    ensures var merged := PartlyMerged(view, entries, rest);
            if o in entries && o !in rest && entries[o].isDirty
            then (o in merged <==> entries[o].coin.Unspent?) && (o in merged ==> merged[o] == entries[o].coin)
            else (o in merged <==> o in view) && (o in merged ==> merged[o] == view[o])
  {
  }

  /** The coin database at the bottom of every stack. */
  class CoinsViewDB {
    var coins: UtxoSet
    var best: Option<nat>
    var heads: Option<(nat, Option<nat>)>

    constructor (coins: UtxoSet, best: Option<nat>)
      ensures Now() == Disk(coins, best, None)
    {
      this.coins := coins;
      this.best, heads := best, None;
    }

    function Now(): Disk
      reads this
    {
      Disk(coins, best, heads)
    }

    method GetCoin(o: OutPoint) returns (found: bool, coin: Coin)
      ensures found == (o in coins) && (found ==> coin == coins[o])
    {
      found := o in coins;
      coin := if found then coins[o] else Spent;
    }

    method WriteBatch(batch: Disk, ghost writes: seq<Disk>) returns (ghost writes': seq<Disk>)
      modifies this
      ensures Now() == batch && writes' == writes + [batch]
    {
      coins, best, heads := batch.coins, batch.best, batch.heads;
      writes' := writes + [batch];
    }

    /** Write the dirty entries, in any order and in any number of batches. `writes` are the states the
        database goes through: an interruption finds one of them, or the state before. */
    method BatchWrite(mapCoins: CoinMap, hashBlock: nat) returns (ghost writes: seq<Disk>)
      requires Resumes(Now(), hashBlock)
      modifies this
      ensures Now() == Completed(old(Now()), mapCoins, hashBlock)
      ensures writes != [] && writes[|writes| - 1] == Now()
      ensures forall i :: 0 <= i < |writes| - 1 ==> Interrupted(writes[i], old(Now()), mapCoins, hashBlock)
    {
      ghost var was := Now();
      hide OverlayDirty, PartlyMerged;
      MergeEnds(coins, mapCoins);
      var batch := Disk(coins, None, Some((hashBlock, OldTip(Now()))));
      writes := [];
      var rest := mapCoins;
      while rest != map[]
        invariant rest.Keys <= mapCoins.Keys && forall o :: o in rest ==> rest[o] == mapCoins[o]
        invariant batch == Disk(PartlyMerged(was.coins, mapCoins, rest), None, Some((hashBlock, OldTip(was))))
        invariant forall i :: 0 <= i < |writes| ==> Interrupted(writes[i], was, mapCoins, hashBlock)
        decreases |rest|
      {
        var o :| o in rest;
        MergeNext(was.coins, mapCoins, rest, o);
        if rest[o].isDirty {
          if rest[o].coin.IsSpent() {
            batch := batch.(coins := batch.coins - {o});
          } else {
            batch := batch.(coins := batch.coins[o := rest[o].coin]);
          }
        }
        rest := rest - {o};
        var full: bool := *;
        if full {
          assert Interrupted(batch, was, mapCoins, hashBlock);
          writes := WriteBatch(batch, writes);
        }
      }
      writes := WriteBatch(batch.(best := Some(hashBlock), heads := None), writes);
    }
  }

  /** The first best block in a list from a layer down to the database. */
  function Known(bests: seq<Option<nat>>): Option<nat>
    requires bests != []
  {
    if |bests| == 1 || bests[0].Some? then bests[0] else Known(bests[1..])
  }

  /** The list after it was asked for: what was null above the first best block is filled with it. */
  function Looked(bests: seq<Option<nat>>): (r: seq<Option<nat>>)
    requires bests != []
    ensures |r| == |bests|
  {
    if |bests| == 1 || bests[0].Some? then bests else [Known(bests)] + Looked(bests[1..])
  }

  /** Asking changes no answer, of any layer. */
  lemma {:induction false} LookedKnows(bests: seq<Option<nat>>, i: nat)
    requires i < |bests|
    ensures Known(Looked(bests)[i..]) == Known(bests[i..])
    ensures Known(bests).Some? ==> Looked(bests)[0] == Known(bests)
    decreases |bests|
  {
    if |bests| == 1 || bests[0].Some? {
    } else if i == 0 {
      LookedKnows(bests[1..], 0);
      assert Looked(bests)[1..] == Looked(bests[1..]) && Looked(bests[1..])[0..] == Looked(bests[1..]);
      assert Looked(bests)[0..] == Looked(bests) && bests[0..] == bests && bests[1..][0..] == bests[1..];
    } else {
      LookedKnows(bests[1..], i - 1);
      assert Looked(bests)[i..] == Looked(bests[1..])[i - 1..] && bests[i..] == bests[1..][i - 1..];
    }
  }

  /** A memory cache on top of another cache, or of the database when it has no parent cache. */
  class CoinsViewCache {
    const parent: CoinsViewCache?
    const db: CoinsViewDB
    ghost const depth: nat
    ghost const Repr: set<object>
    var cacheCoins: CoinMap
    var cachedCoinsUsage: int
    var hashBlock: Option<nat>     // None stands for the null hash

    /** The chain of parents is finite and free of sharing. */
    ghost predicate Linked()
      decreases depth
    {
      && this in Repr
      && (parent == null ==> Repr == {this, db})
      && (parent != null ==>
            && depth == parent.depth + 1 && parent.db == db
            && this !in parent.Repr && Repr == {this} + parent.Repr
            && parent.Linked())
    }

    /** What the layer below shows. */
    ghost function Under(): UtxoSet
      requires Linked()
      reads Repr - {this}
      decreases depth, 0
    {
      if parent == null then db.coins else parent.View()
    }

    ghost function View(): UtxoSet
      requires Linked()
      reads Repr
      decreases depth, 1
    {
      Overlay(Under(), cacheCoins)
    }

    /** The views of the layers below, nearest first and the database last. */
    ghost function Below(): (views: seq<UtxoSet>)
      requires Linked()
      reads Repr - {this}
      ensures |views| >= 1 && views[0] == Under()
      decreases depth
    {
      if parent == null then [db.coins] else [parent.View()] + parent.Below()
    }

    /** The views of the whole stack. */
    ghost function Views(): (views: seq<UtxoSet>)
      requires Linked()
      reads Repr
      ensures |views| >= 2
    {
      [View()] + Below()
    }

    /** The best block stored in each layer below, nearest first and the database's last. */
    ghost function Deeper(): (bests: seq<Option<nat>>)
      requires Linked()
      reads Repr - {this}
      ensures |bests| >= 1
      decreases depth, 0
    {
      if parent == null then [db.best] else parent.Bests()
    }

    /** And in this layer. */
    ghost function Bests(): (bests: seq<Option<nat>>)
      requires Linked()
      reads Repr
      ensures |bests| >= 2
      decreases depth, 1
    {
      [hashBlock] + Deeper()
    }

    /** One view and one best block for every layer below. */
    lemma {:induction false} Heights()
      requires Linked()
      ensures |Below()| == |Deeper()| && (parent == null <==> |Below()| == 1)
      decreases depth
    {
      if parent != null {
        parent.Heights();
        assert Deeper() == [parent.hashBlock] + parent.Deeper();
      }
    }

    ghost predicate Valid(): (valid: bool)
      reads Repr
      ensures valid ==> Linked()
      decreases depth
    {
      && Linked()
      && Honest(Under(), cacheCoins)
      && (if parent == null then db.heads == None else parent.Valid())
    }

    /** The usage counters of all layers are exact. */
    ghost predicate Accounted()
      requires Linked()
      reads Repr
      decreases depth
    {
      && cachedCoinsUsage == Usage(cacheCoins)
      && (parent != null ==> parent.Accounted())
    }

    constructor OnDB(db: CoinsViewDB)
      requires db.heads == None
      ensures Valid() && Accounted() && fresh(this) && this.db == db && Repr == {this, db}
      ensures cacheCoins == map[] && Views() == [db.coins, db.coins] && Bests() == [None, db.best]
    {
      parent := null;
      this.db := db;
      depth := 0;
      Repr := {this, db};
      cacheCoins := map[];
      cachedCoinsUsage := 0;
      hashBlock := None;
      new;
      assert View() == db.coins;
    }

    constructor (base: CoinsViewCache)
      requires base.Valid()
      ensures Valid() && fresh(this) && Repr == {this} + base.Repr && parent == base
      ensures base.Accounted() ==> Accounted()
      ensures cacheCoins == map[] && Views() == [base.View()] + base.Views() && Bests() == [None] + base.Bests()
    {
      parent := base;
      db := base.db;
      depth := base.depth + 1;
      Repr := {this} + base.Repr;
      cacheCoins := map[];
      cachedCoinsUsage := 0;
      hashBlock := None;
      new;
      assert View() == base.View();
    }

    /** Find the entry, loading it from the parent when the parent has an unspent coin. Neither this
        layer nor any below it changes its meaning. */
    method FetchCoin(o: OutPoint) returns (found: bool)
      requires Valid()
      modifies Repr
      ensures Valid() && View() == old(View()) && Below() == old(Below()) && (old(Accounted()) ==> Accounted())
      ensures found == (o in cacheCoins) == (o in old(cacheCoins) || o in old(View()))
      ensures cacheCoins == if o !in old(cacheCoins) && found
                            then old(cacheCoins)[o := Entry(old(View())[o], false, false)] else old(cacheCoins)
      ensures Bests() == old(Bests())
      decreases depth, 0
    {
      hide Overlay, Usage;
      OverlayAt(Under(), cacheCoins, o);
      if o in cacheCoins {
        return true;
      }
      var tmp;
      if parent == null {
        found, tmp := db.GetCoin(o);
      } else {
        found, tmp := parent.GetCoin(o);
      }
      if !found {
        return;
      }
      LoadEntry(Under(), cacheCoins, o);
      cacheCoins := cacheCoins[o := Entry(tmp, false, tmp.IsSpent())];
      cachedCoinsUsage := cachedCoinsUsage + tmp.DynamicMemoryUsage();
    }

    method GetCoin(o: OutPoint) returns (found: bool, coin: Coin)
      requires Valid()
      modifies Repr
      ensures Valid() && View() == old(View()) && Below() == old(Below()) && (old(Accounted()) ==> Accounted())
      ensures found == (o in View()) && (found ==> coin == View()[o])
      ensures Bests() == old(Bests())
      decreases depth, 1
    {
      hide Overlay, Usage;
      found := FetchCoin(o);
      OverlayAt(Under(), cacheCoins, o);
      if !found {
        return false, Spent;
      }
      coin := cacheCoins[o].coin;
      found := !coin.IsSpent();
    }

    method HaveCoin(o: OutPoint) returns (have: bool)
      requires Valid()
      modifies Repr
      ensures Valid() && View() == old(View()) && Below() == old(Below()) && (old(Accounted()) ==> Accounted())
      ensures have == (o in View()) && Bests() == old(Bests())
    {
      hide Overlay, Usage;
      var found := FetchCoin(o);
      OverlayAt(Under(), cacheCoins, o);
      have := found && !cacheCoins[o].coin.IsSpent();
    }

    /** The best block of the nearest layer that knows one; the layers passed on the way remember it. */
    method GetBestBlock() returns (best: Option<nat>)
      requires Valid()
      modifies Repr
      ensures Valid() && View() == old(View()) && Below() == old(Below()) && (old(Accounted()) ==> Accounted())
      ensures best == Known(old(Bests())) && Bests() == Looked(old(Bests()))
      ensures cacheCoins == old(cacheCoins)
      decreases depth
    {
      hide Overlay, Usage, Honest;
      if hashBlock == None {
        assert Bests()[1..] == Deeper();
        if parent == null {
          hashBlock := db.best;
        } else {
          hashBlock := parent.GetBestBlock();
        }
      }
      best := hashBlock;
    }

    method SetBestBlock(hashBlockIn: Option<nat>)
      requires Valid()
      modifies this`hashBlock
      ensures Valid() && View() == old(View()) && Below() == old(Below()) && (old(Accounted()) ==> Accounted())
      ensures Bests() == old(Bests())[0 := hashBlockIn]
    {
      hide Overlay, Usage, Honest;
      hashBlock := hashBlockIn;
    }

    /** Add a coin. One cached in this layer and not declared a possible overwrite is detected and
        reported as an error, after the usage counter has already been reduced. One visible only from
        below is not: the coin is added, and the layer's promises hold exactly if there was none. */
    method AddCoin(o: OutPoint, coin: Coin, possibleOverwrite: bool) returns (thrown: bool)
      requires Valid() && !coin.IsSpent()
      modifies this`cacheCoins, this`cachedCoinsUsage
      ensures Linked()
      ensures Valid() <==> coin.IsUnspendable() || possibleOverwrite || o in old(cacheCoins) || o !in old(View())
      ensures thrown == (!coin.IsUnspendable() && !possibleOverwrite && o in old(cacheCoins)
                         && old(cacheCoins)[o].coin.Unspent?)
      ensures View() == (if thrown || coin.IsUnspendable() then old(View()) else old(View())[o := coin])
      ensures Below() == old(Below())
      ensures old(Accounted()) && !thrown ==> Accounted()
      ensures !thrown ==>
                cacheCoins == if coin.IsUnspendable() then old(cacheCoins)
                              else old(cacheCoins)[o := Added(old(cacheCoins), o, coin, possibleOverwrite)]
      ensures thrown ==>
                && cacheCoins == old(cacheCoins)
                && cachedCoinsUsage == old(cachedCoinsUsage) - cacheCoins[o].coin.DynamicMemoryUsage()
    {
      hide Overlay, Usage, Honest, Coin.IsUnspendable, Coin.DynamicMemoryUsage;
      OverlayAt(Under(), cacheCoins, o);
      if coin.IsUnspendable() {
        return false;
      }
      var inserted := o !in cacheCoins;
      var entry := if inserted then Entry(Spent, false, false) else cacheCoins[o];
      var isFresh := false;
      if !inserted {
        cachedCoinsUsage := cachedCoinsUsage - entry.coin.DynamicMemoryUsage();
      }
      if !possibleOverwrite {
        if !entry.coin.IsSpent() {
          return true;
        }
        isFresh := !entry.isDirty;
      }
      AddEntry(Under(), cacheCoins, o, coin, possibleOverwrite);
      UsageUpdate(cacheCoins, o, Added(cacheCoins, o, coin, possibleOverwrite));
      cacheCoins := cacheCoins[o := Entry(coin, true, entry.isFresh || isFresh)];
      cachedCoinsUsage := cachedCoinsUsage + coin.DynamicMemoryUsage();
      thrown := false;
    }

    /** Spend a coin and hand out what was there. The result is true also for a spent entry that is
        still cached, in which case the coin handed out is the empty one. */
    method SpendCoin(o: OutPoint) returns (ok: bool, moved: Coin)
      requires Valid()
      modifies Repr
      ensures Valid() && (old(Accounted()) ==> Accounted())
      ensures View() == old(View()) - {o} && Below() == old(Below()) && Bests() == old(Bests())
      ensures ok == (o in old(View()) || o in old(cacheCoins))
      ensures moved == if o in old(View()) then old(View())[o] else Spent
      ensures cacheCoins == if !ok then old(cacheCoins)
                            else if o in old(cacheCoins) && old(cacheCoins)[o].isFresh then old(cacheCoins) - {o}
                            else old(cacheCoins)[o := Entry(Spent, true, false)]
    {
      hide Overlay, Usage, Honest, Coin.DynamicMemoryUsage, Under, Below, Deeper;
      ok := FetchCoin(o);
      OverlayAt(Under(), cacheCoins, o);
      if !ok {
        assert View() - {o} == View();
        return false, Spent;
      }
      SpendEntry(Under(), cacheCoins, o);
      moved := cacheCoins[o].coin;
      cachedCoinsUsage := cachedCoinsUsage - moved.DynamicMemoryUsage();
      if cacheCoins[o].isFresh {
        cacheCoins := cacheCoins - {o};
      } else {
        cacheCoins := cacheCoins[o := Entry(Spent, true, false)];
      }
    }

    /** Drop an unmodified entry. */
    method Uncache(o: OutPoint)
      requires Valid()
      modifies this`cacheCoins, this`cachedCoinsUsage
      ensures Valid() && (old(Accounted()) ==> Accounted())
      ensures View() == old(View()) && Below() == old(Below())
      ensures cacheCoins == if o in old(cacheCoins) && !old(cacheCoins)[o].isDirty && !old(cacheCoins)[o].isFresh
                            then old(cacheCoins) - {o} else old(cacheCoins)
    {
      hide Overlay, Usage;
      if o in cacheCoins && !cacheCoins[o].isDirty && !cacheCoins[o].isFresh {
        UncacheEntry(Under(), cacheCoins, o);
        cachedCoinsUsage := cachedCoinsUsage - cacheCoins[o].coin.DynamicMemoryUsage();
        cacheCoins := cacheCoins - {o};
      }
    }

    /** One round of the merge: a child's dirty entry. */
    method MergeEntry(o: OutPoint, e: Entry) returns (ok: bool)
      requires Valid()
      requires o !in cacheCoins ==> FreshOk(Under(), cacheCoins, o, e)
      modifies this`cacheCoins, this`cachedCoinsUsage
      ensures ok == FreshOk(old(Under()), old(cacheCoins), o, e)
      ensures !ok ==> cacheCoins == old(cacheCoins) && cachedCoinsUsage == old(cachedCoinsUsage)
      ensures Valid()
      ensures ok ==> cacheCoins == Merged(old(cacheCoins), o, e) && View() == Put(old(View()), o, e.coin)
      ensures ok && old(Accounted()) ==> Accounted()
      ensures Below() == old(Below())
    {
      hide Overlay, Usage, Honest, Put, Coin.DynamicMemoryUsage;
      if o in cacheCoins && e.isFresh && !cacheCoins[o].coin.IsSpent() {
        return false;
      }
      MergeOne(Under(), cacheCoins, o, e);
      MergeUsage(cacheCoins, o, e);
      if o !in cacheCoins {
        if !(e.isFresh && e.coin.IsSpent()) {
          cacheCoins := cacheCoins[o := Entry(e.coin, true, e.isFresh)];
          cachedCoinsUsage := cachedCoinsUsage + e.coin.DynamicMemoryUsage();
        }
      } else if cacheCoins[o].isFresh && e.coin.IsSpent() {
        cachedCoinsUsage := cachedCoinsUsage - cacheCoins[o].coin.DynamicMemoryUsage();
        cacheCoins := cacheCoins - {o};
      } else {
        cachedCoinsUsage := cachedCoinsUsage - cacheCoins[o].coin.DynamicMemoryUsage() + e.coin.DynamicMemoryUsage();
        cacheCoins := cacheCoins[o := Entry(e.coin, true, cacheCoins[o].isFresh)];
      }
      ok := true;
    }

    /** Merge a child's entries, in any order. A FRESH promise about an unspent coin cached here is
        an error; about a coin that is not cached here the child must be right. */
    method BatchWrite(mapCoins: CoinMap, hashBlockIn: Option<nat>) returns (ok: bool)
      requires Valid()
      requires forall o :: o in mapCoins && mapCoins[o].isDirty && o !in cacheCoins ==>
               FreshOk(Under(), cacheCoins, o, mapCoins[o])
      modifies this
      ensures Valid()
      ensures ok == forall o :: o in mapCoins && mapCoins[o].isDirty ==>
              FreshOk(old(Under()), old(cacheCoins), o, mapCoins[o])
      ensures ok ==> View() == OverlayDirty(old(View()), mapCoins)
      ensures Bests() == if ok then old(Bests())[0 := hashBlockIn] else old(Bests())
      ensures Below() == old(Below())
      ensures ok && old(Accounted()) ==> Accounted()
    {
      hide Overlay, Usage, Honest, OverlayDirty, FreshOk;
      ok := MergeAll(mapCoins);
      if ok {
        hashBlock := hashBlockIn;
      }
    }

    method MergeAll(mapCoins: CoinMap) returns (ok: bool)
      requires Valid()
      requires forall o :: o in mapCoins && mapCoins[o].isDirty && o !in cacheCoins ==>
               FreshOk(Under(), cacheCoins, o, mapCoins[o])
      modifies this`cacheCoins, this`cachedCoinsUsage
      ensures Valid()
      ensures ok == forall o :: o in mapCoins && mapCoins[o].isDirty ==>
              FreshOk(old(Under()), old(cacheCoins), o, mapCoins[o])
      ensures ok ==> View() == OverlayDirty(old(View()), mapCoins)
      ensures ok && old(Accounted()) ==> Accounted()
    {
      ghost var under, view, cache := Under(), View(), cacheCoins;
      assert SameOn(cacheCoins, cache, mapCoins.Keys);
      hide Valid, View, Accounted, Put, OverlayDirty, PartlyMerged, FreshOk, SameOn, Merged;
      MergeEnds(view, mapCoins);
      ok := true;
      var rest := mapCoins;
      while rest != map[] && ok
        invariant rest.Keys <= mapCoins.Keys && forall o :: o in rest ==> rest[o] == mapCoins[o]
        invariant Valid() && Under() == under && SameOn(cacheCoins, cache, rest.Keys)
        invariant ok ==> View() == PartlyMerged(view, mapCoins, rest)
        invariant ok ==> forall o :: o in mapCoins && o !in rest && mapCoins[o].isDirty ==>
                  FreshOk(under, cache, o, mapCoins[o])
        invariant !ok ==> exists o :: o in mapCoins && mapCoins[o].isDirty && !FreshOk(under, cache, o, mapCoins[o])
        invariant ok && old(Accounted()) ==> Accounted()
        decreases |rest|
      {
        var o :| o in rest;
        MergeNext(view, mapCoins, rest, o);
        MergedSameOn(cacheCoins, cache, rest.Keys, o, rest[o]);
        if rest[o].isDirty {
          FreshOkSameOn(under, cacheCoins, cache, rest.Keys, o, rest[o]);
          ok := MergeEntry(o, rest[o]);
        }
        rest := rest - {o};
      }
    }

    /** Push everything to the layer below: it then shows what this layer showed and has its best block,
        and the error of a misapplied FRESH flag cannot occur. The database insists on a best block. */
    method Flush() returns (ok: bool)
      requires Valid() && (parent == null ==> hashBlock.Some?)
      modifies Repr
      ensures Valid() && (old(Accounted()) ==> Accounted())
      ensures ok && cacheCoins == map[]
      ensures View() == old(View()) && Below() == old(Below())[0 := old(View())]
      ensures Bests() == old(Bests())[1 := old(hashBlock)]
    {
      hide Overlay, Usage, Honest;
      ok := WriteDown();
      EmptyLayer(Under());
      cacheCoins := map[];
      cachedCoinsUsage := 0;
    }

    method WriteDown() returns (ok: bool)
      requires Valid() && (parent == null ==> hashBlock.Some?)
      modifies Repr - {this}
      ensures ok && (if parent == null then db.heads == None else parent.Valid())
      ensures parent != null && old(parent.Accounted()) ==> parent.Accounted()
      ensures Below() == old(Below())[0 := old(View())]
      ensures Deeper() == old(Deeper())[0 := hashBlock]
    {
      hide Overlay, Usage, Honest, OverlayDirty;
      FlushPassesView(Under(), cacheCoins);
      if parent == null {
        ghost var writes := db.BatchWrite(cacheCoins, hashBlock.value);
        ok := true;
      } else {
        assert Under() == Overlay(parent.Under(), parent.cacheCoins);
        ChildPromises(parent.Under(), parent.cacheCoins, cacheCoins);
        ok := parent.BatchWrite(cacheCoins, hashBlock);
      }
    }
  }
}
