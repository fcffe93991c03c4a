/** The address manager of src/addrman.cpp. Clocks and random choices are parameters. */
module AddrMan {
  import opened Common
  import opened AddrTables
  import opened Powers

  const SET_TRIED_COLLISION_SIZE: nat := 10
  const REPLACEMENT_SECONDS := 4 * 60 * 60
  const TEST_WINDOW := 40 * 60
  const GETADDR_MAX_PCT: nat := 23
  const GETADDR_MAX: nat := 2500

  /** What a peer announces. */
  datatype Address = Address(service: Service, nServices: bv64, nTime: int)

  /** A new entry: never tried, never reached, in no table. */
  function Fresh(addr: Address, source: nat, pos: int): (r: AddrInfo)
    ensures r.nLastTry == r.nLastCountAttempt == r.nLastSuccess == r.nAttempts == r.nRefCount == 0 && !r.fInTried
  {
    AddrInfo(addr.service, source, addr.nServices, addr.nTime, 0, 0, 0, 0, 0, false, pos)
  }

  /** The time kept of a known address after it was announced again: it is only updated now and then. */
  function UpdatedTime(nTime: int, announced: int, nTimePenalty: int, now: int): int {
    var fCurrentlyOnline := now - announced < 24 * 60 * 60;
    var nUpdateInterval := if fCurrentlyOnline then 60 * 60 else 24 * 60 * 60;
    if announced != 0 && (nTime == 0 || nTime < announced - nUpdateInterval - nTimePenalty)
    then Max(0, announced - nTimePenalty) else nTime
  }

  function Both(a: bv64, b: bv64): bv64 { a | b }

  /** The entry of a known address after it was announced again. */
  function Announced(info: AddrInfo, addr: Address, nTimePenalty: int, now: int): (r: AddrInfo)
    ensures r == info.(nTime := r.nTime, nServices := r.nServices)
  {
    info.(nTime := UpdatedTime(info.nTime, addr.nTime, nTimePenalty, now),
          nServices := Both(info.nServices, addr.nServices))
  }

  /** The time never goes back, and moves only by more than an hour (a day if the announcement is older than a
      day) and only to the announced time less the penalty; the same announcement again changes nothing. */
  lemma TimeSteps(nTime: int, announced: int, nTimePenalty: int, now: int)
    ensures var t := UpdatedTime(nTime, announced, nTimePenalty, now);
            && (nTime >= 0 ==> t >= nTime)
            && (t != nTime ==> announced != 0 && t == Max(0, announced - nTimePenalty))
            && var interval := if now - announced < 24 * 60 * 60 then 60 * 60 else 24 * 60 * 60;
            && (t != nTime && nTime != 0 ==> t - nTime > interval)
            && (announced != 0 && (nTime == 0 || announced - nTimePenalty - nTime > interval) ==>
                  t == Max(0, announced - nTimePenalty))
            && UpdatedTime(t, announced, nTimePenalty, now) == t
  {
  }

  /** Services are only added. */
  lemma BothKeeps(a: bv64, b: bv64)
    ensures Both(a, b) & a == a && Both(a, b) & b == b && Both(Both(a, b), b) == Both(a, b)
  {
  }

  /** The same announcement again changes nothing more. */
  lemma AnnouncedTwice(info: AddrInfo, addr: Address, nTimePenalty: int, now: int)
    ensures var r := Announced(info, addr, nTimePenalty, now); Announced(r, addr, nTimePenalty, now) == r
  {
    hide UpdatedTime, Both;
    TimeSteps(info.nTime, addr.nTime, nTimePenalty, now);
    BothKeeps(info.nServices, addr.nServices);
  }

  /** Whether a new slot is the address's own, free, or held by one that may be displaced. */
  predicate Yields(infos: Infos, news: Table, slot: Slot, nId: int, now: int) {
    var occupant := At(news, slot);
    || occupant == nId || occupant !in infos || infos[occupant].IsTerrible(now)
    || (infos[occupant].nRefCount > 1 && nId in infos && infos[nId].nRefCount == 0)
  }

  /** An address is put into a new slot if the slot yields, its occupant losing a reference; if it does not, an
      address without any reference is forgotten; and nothing else changes. */
  ghost predicate PutOrNot(infos: Infos, news: Table, slot: Slot, nId: int, now: int, infos': Infos, news': Table)
    requires nId in infos
  {
    if At(news, slot) == nId then infos' == infos && news' == news
    else if Yields(infos, news, slot, nId, now) then
      && news' == news[slot := nId]
      && Cleared(infos[nId := infos[nId].(nRefCount := infos[nId].nRefCount + 1)], news, slot, infos')
    else
      && news' == news
      && (if infos[nId].nRefCount == 0
          then infos'.Keys == infos.Keys - {nId} && Kept(infos, infos')
          else infos' == infos)
  }

  /** Whether announcing a known address again can give it one more reference. */
  predicate MayGain(info: AddrInfo, addr: Address, roll: nat) {
    && addr.nTime != 0 && (info.nTime == 0 || addr.nTime > info.nTime)
    && !info.fInTried && 0 <= info.nRefCount < NEW_BUCKETS_PER_ADDRESS && roll % Pow2(info.nRefCount) == 0
  }

  /** A known address was announced again: its entry is brought up to date and, if the draw allows it and the
      slot its source points to yields, it gets that slot. */
  ghost predicate Reannounced(h: Hashes, before: Infos, news: Table, nId: int, addr: Address, source: nat,
                              nTimePenalty: int, now: int, roll: nat, after: Infos, news': Table)
    requires nId in before
  {
    var info := Announced(before[nId], addr, nTimePenalty, now);
    var slot := NewSlot(h, info.service, NewBucket(h, info.service, source));
    && nId in after && SameButPos(info.(nRefCount := after[nId].nRefCount), after[nId])
    && (if MayGain(info, addr, roll) then PutOrNot(before[nId := info], news, slot, nId, now, after, news')
        else after == before[nId := info] && news' == news)
  }

  /** An unknown address gets the next id and, if the slot its source points to yields, that slot; otherwise it is
      forgotten again. */
  ghost predicate Introduced(h: Hashes, before: Infos, news: Table, nId: int, pos: int, addr: Address, source: nat,
                             nTimePenalty: int, now: int, after: Infos, news': Table)
    requires nId !in before
  {
    var info := Fresh(addr, source, pos).(nTime := Max(0, addr.nTime - nTimePenalty));
    var slot := NewSlot(h, addr.service, NewBucket(h, addr.service, source));
    && PutOrNot(before[nId := info], news, slot, nId, now, after, news')
    && slot in news' && (nId in after <==> news'[slot] == nId)
    && (nId in after ==> SameButPos(info.(nRefCount := 1), after[nId]))
  }

  /** The draw that makes each further reference twice as unlikely. */
  method Accepts(nRefCount: nat, roll: nat) returns (more: bool)
    ensures more <==> roll % Pow2(nRefCount) == 0
  {
    var nFactor, n := 1, 0;
    while n < nRefCount
      invariant n <= nRefCount && nFactor == Pow2(n)
    {
      nFactor, n := nFactor * 2, n + 1;
    }
    more := !(nFactor > 1 && roll % nFactor != 0);
  }

  /** How many addresses one answer may hold. */
  function Quota(size: nat): (nNodes: nat)
    ensures nNodes <= GETADDR_MAX && nNodes * 100 <= GETADDR_MAX_PCT * size
    ensures nNodes == GETADDR_MAX || (nNodes + 1) * 100 > GETADDR_MAX_PCT * size
  {
    var nNodes := GETADDR_MAX_PCT * size / 100;
    if nNodes > GETADDR_MAX then GETADDR_MAX else nNodes
  }

  /** A position at or after n. */
  function Draw(rnd: nat -> nat, n: nat, size: nat): (pos: nat)
    requires n < size
    ensures n <= pos < size
  {
    rnd(n) % (size - n) + n
  }

  lemma SomeMember(s: set<int>)
    ensures s != {} ==> exists x: int :: x in s
  {
    if forall x: int :: x !in s {
      assert s == {};
    }
  }

  /** The least element: sets are walked in increasing order. */
  method Least(todo: set<int>) returns (id: int)
    requires todo != {}
    ensures id in todo && forall x :: x in todo ==> id <= x
  {
    SomeMember(todo);
    id :| id in todo;
    var rest := todo - {id};
    while rest != {}
      invariant rest <= todo && id in todo && forall x :: x in todo && x !in rest ==> id <= x
      decreases |rest|
    {
      SomeMember(rest);
      var x: int :| x in rest;
      id := if x < id then x else id;
      rest := rest - {x};
    }
  }

  /** The holder of a tried slot had a connection within the last four hours. */
  predicate Confirmed(holder: AddrInfo, adjustedTime: int) { adjustedTime - holder.nLastSuccess < 4 * 60 * 60 }

  /** It was tried within the last four hours and has had more than a minute to answer. */
  predicate Unanswered(holder: AddrInfo, adjustedTime: int, now: int) {
    adjustedTime - holder.nLastTry < 4 * 60 * 60 && now - holder.nLastTry > 60
  }

  /** It was not even tried, and the pending address has waited for more than forty minutes. */
  predicate Untested(holder: AddrInfo, pending: AddrInfo, adjustedTime: int, now: int) {
    adjustedTime - holder.nLastTry >= 4 * 60 * 60 && now - pending.nLastSuccess > 40 * 60
  }

  /** The pending address takes the slot. */
  predicate Replaces(holder: AddrInfo, pending: AddrInfo, adjustedTime: int, now: int) {
    && !Confirmed(holder, adjustedTime)
    && (Unanswered(holder, adjustedTime, now) || Untested(holder, pending, adjustedTime, now))
  }

  /** The wait is over, one way or the other. */
  predicate Settles(holder: AddrInfo, pending: AddrInfo, adjustedTime: int, now: int) {
    Confirmed(holder, adjustedTime) || Replaces(holder, pending, adjustedTime, now)
  }

  /** Nobody waits forever: forty minutes after the pending address's last success and a minute after the
      holder's last test, on a clock that does not run backwards, the collision is settled. */
  lemma WaitEnds(holder: AddrInfo, pending: AddrInfo, adjustedTime: int, now: int)
    requires now >= adjustedTime && now - pending.nLastSuccess > 40 * 60 && now - holder.nLastTry > 60
    ensures Settles(holder, pending, adjustedTime, now)
  {
  }

  /** The tables and the pending collisions at one moment. */
  datatype Book = Book(infos: Infos, news: Table, tried: Table, pending: set<int>)

  /** One pending id looked at, with the book before and after. */
  datatype Visit = Visit(id: int, before: Book, after: Book)

  /** What becomes of one pending collision: an unknown or invalid address is forgotten; otherwise the times
      of the holder and of the pending address decide whether it leaves the set and whether it takes the
      slot, and unless it does nothing else changes. */
  ghost predicate Resolved(h: Hashes, isValid: nat -> bool, v: Visit, adjustedTime: int, now: int) {
    var b, a, id := v.before, v.after, v.id;
    if id !in b.infos || !isValid(b.infos[id].service.ip) then a == b.(pending := b.pending - {id})
    else
      var slot := TriedSlot(h, b.infos[id].service);
      && slot in b.tried && b.tried[slot] in b.infos
      && var holder, pending := b.infos[b.tried[slot]], b.infos[id];
      && a.pending == (if Settles(holder, pending, adjustedTime, now) then b.pending - {id} else b.pending)
      && (if Replaces(holder, pending, adjustedTime, now) then
            && a.tried == b.tried[slot := id] && SameServices(b.infos, a.infos)
            && id in a.infos && a.infos[id].fInTried && a.infos[id].nLastSuccess == now
            && (b.tried[slot] != id ==> b.tried[slot] in a.infos && !a.infos[b.tried[slot]].fInTried)
          else a.infos == b.infos && a.news == b.news && a.tried == b.tried)
  }

  /** The visits follow one another from one book to another, in increasing order of ids. */
  ghost predicate Walk(visits: seq<Visit>, before: Book, after: Book) {
    && (visits == [] ==> after == before)
    && (visits != [] ==> visits[0].before == before && visits[|visits| - 1].after == after)
    && (forall i :: 0 < i < |visits| ==> visits[i].before == visits[i - 1].after && visits[i - 1].id < visits[i].id)
  }

  lemma WalkGrows(visits: seq<Visit>, before: Book, v: Visit)
    requires Walk(visits, before, v.before) && (visits != [] ==> visits[|visits| - 1].id < v.id)
    ensures Walk(visits + [v], before, v.after)
  {
  }

  lemma WalkStart(book: Book)
    ensures Walk([], book, book)
  {
  }

  function Ids(visits: seq<Visit>): (r: seq<int>)
    ensures |r| == |visits| && forall i :: 0 <= i < |visits| ==> r[i] == visits[i].id
  {
    seq(|visits|, i requires 0 <= i < |visits| => visits[i].id)
  }

  /** What can be asked of a manager. */
  datatype Op =
    | Add(addr: Address, source: nat, nTimePenalty: int, now: int, roll: nat)
    | Good(service: Service, testBeforeEvict: bool, nTime: int, nRnd: nat)
    | Attempt(service: Service, fCountFailure: bool, nTime: int)
    | Resolve(adjustedTime: int, clock: int -> int, rnd: int -> nat)
    | Select(pick: int)
    | GetAddr(now: int, draws: nat -> nat)

  ghost predicate InRange(op: Op) {
    match op
    case Good(_, _, _, nRnd) => nRnd < NEW_BUCKET_COUNT
    case Resolve(_, _, rnd) => forall id :: rnd(id) < NEW_BUCKET_COUNT
    case _ => true
  }

  /** Where the holder of a tried slot goes in the new table. */
  function BackSlot(h: Hashes, info: AddrInfo): Slot {
    NewSlot(h, info.service, NewBucket(h, info.service, info.source))
  }

  lemma SameBackSlot(h: Hashes, a: AddrInfo, b: AddrInfo)
    requires a.service == b.service && a.source == b.source
    ensures BackSlot(h, a) == BackSlot(h, b)
  {
  }

  /** One tried address goes back to a new slot with one reference; whoever stood there loses one, and
      nothing else changes. */
  ghost predicate Demoted(h: Hashes, infos: Infos, news: Table, id: int, infos': Infos, news': Table)
    requires id in infos
  {
    && news' == news[BackSlot(h, infos[id]) := id]
    && Cleared(infos[id := infos[id].(fInTried := false, nRefCount := 1)], news, BackSlot(h, infos[id]), infos')
  }

  /** An address leaves every new slot and takes its tried one; a holder of that slot is demoted. */
  ghost predicate Promoted(h: Hashes, infos: Infos, news: Table, tried: Table, id: int, infos': Infos, news': Table)
    requires id in infos
  {
    var left, fewer := infos[id := infos[id].(nRefCount := 0)], news - Holders(news, id);
    var slot := TriedSlot(h, infos[id].service);
    if slot !in tried then infos' == left[id := left[id].(fInTried := true)] && news' == fewer
    else
      && tried[slot] in left
      && exists mid: Infos :: id in mid && Demoted(h, left, fewer, tried[slot], mid, news')
                              && infos' == mid[id := mid[id].(fInTried := true)]
  }

  class AddrMan {
    const h: Hashes
    const isRoutable: nat -> bool
    const isValid: nat -> bool
    var nIdCount: int
    var mapInfo: Infos
    var mapAddr: map<nat, int>
    var vRandom: seq<int>
    var nTried: int
    var vvTried: Table
    var nNew: int
    var vvNew: Table
    var nLastGood: int
    var m_tried_collisions: set<int>

    /** The structure is in order, but for ids that are `loose` and `off` ids not counted in nNew. */
    ghost predicate Consistent(loose: set<int>, off: int)
      reads this
    {
      && nIdCount >= 0
      && IndexOk(mapInfo, mapAddr, vRandom, nIdCount)
      && NewOk(h, mapInfo, vvNew)
      && TriedOk(h, mapInfo, vvTried)
      && RefOk(mapInfo, vvNew, loose)
      && nTried == |TriedIds(mapInfo)|
      && nNew == |NewIds(mapInfo)| - off
    }

    /** Between operations. */
    ghost predicate Valid()
      reads this
    {
      && Consistent({}, 0)
      && CollisionsOk(h, mapInfo, vvTried, m_tried_collisions, nIdCount)
    }

    /** A fresh manager: every table empty. */
    constructor (h: Hashes, isRoutable: nat -> bool, isValid: nat -> bool)
      ensures this.h == h && Valid() && mapInfo == map[] && vvTried == map[] && vvNew == map[]
    {
      this.h, this.isRoutable, this.isValid := h, isRoutable, isValid;
      nIdCount, nTried, nNew, nLastGood := 0, 0, 0, 1;
      mapInfo, mapAddr, vRandom, vvTried, vvNew, m_tried_collisions := map[], map[], [], map[], map[], {};
    }

    /** The id of an address known by its host, or -1. */
    method Find(ip: nat) returns (nId: int)
      requires IndexOk(mapInfo, mapAddr, vRandom, nIdCount)
      ensures nId == if ip in mapAddr then mapAddr[ip] else -1
      ensures nId != -1 ==> nId in mapInfo && mapInfo[nId].service.ip == ip
      ensures nId == -1 ==> ip !in mapAddr && forall id :: id in mapInfo ==> mapInfo[id].service.ip != ip
    {
      nId := if ip in mapAddr then mapAddr[ip] else -1;
    }

    /** A new entry, not yet in any bucket and not yet counted. */
    method Create(addr: Address, source: nat) returns (nId: int)
      requires Consistent({}, 0) && addr.service.ip !in mapAddr
      modifies this`nIdCount, this`mapInfo, this`mapAddr, this`vRandom
      ensures Consistent({nId}, 1) && nId == old(nIdCount) && nIdCount == old(nIdCount) + 1
      ensures nId !in old(mapInfo) && mapInfo == old(mapInfo)[nId := Fresh(addr, source, |old(vRandom)|)]
    {
      hide IndexOk, NewOk, TriedOk, RefOk, TriedIds, NewIds;
      nId := nIdCount;
      var info := Fresh(addr, source, |vRandom|);
      IdUnused(mapInfo, mapAddr, vRandom, nIdCount);
      AppendIndex(mapInfo, mapAddr, vRandom, nIdCount, info);
      CreateTables(h, mapInfo, vvNew, vvTried, nId, info);
      nIdCount := nIdCount + 1;
      mapInfo := mapInfo[nId := info];
      mapAddr := mapAddr[addr.service.ip := nId];
      vRandom := vRandom + [nId];
    }

    method SwapRandom(nRndPos1: int, nRndPos2: int)
      requires IndexOk(mapInfo, mapAddr, vRandom, nIdCount)
      requires 0 <= nRndPos1 < |vRandom| && 0 <= nRndPos2 < |vRandom|
      modifies this`mapInfo, this`vRandom
      ensures IndexOk(mapInfo, mapAddr, vRandom, nIdCount)
      ensures vRandom == old(vRandom)[nRndPos1 := old(vRandom)[nRndPos2]][nRndPos2 := old(vRandom)[nRndPos1]]
      ensures Kept(old(mapInfo), mapInfo) && mapInfo.Keys == old(mapInfo).Keys
    {
      if nRndPos1 == nRndPos2 {
        return;
      }
      SwapIndex(mapInfo, mapAddr, vRandom, nIdCount, nRndPos1, nRndPos2);
      hide *;
      var nId1, nId2 := vRandom[nRndPos1], vRandom[nRndPos2];
      assert nId1 in mapInfo && nId2 in mapInfo;
      mapInfo := mapInfo[nId1 := mapInfo[nId1].(nRandomPos := nRndPos2)];
      mapInfo := mapInfo[nId2 := mapInfo[nId2].(nRandomPos := nRndPos1)];
      vRandom := vRandom[nRndPos1 := nId2];
      vRandom := vRandom[nRndPos2 := nId1];
    }

    /** Forget an address that is not tried and has no references. */
    method Delete(nId: int, ghost loose: set<int>, ghost off: int)
      requires Consistent(loose, off)
      requires nId in mapInfo && !mapInfo[nId].fInTried && mapInfo[nId].nRefCount == 0
      modifies this`mapInfo, this`mapAddr, this`vRandom, this`nNew
      ensures Consistent(loose - {nId}, off)
      ensures mapInfo.Keys == old(mapInfo).Keys - {nId} && Kept(old(mapInfo), mapInfo)
    {
      hide IndexOk, NewOk, TriedOk, RefOk, TriedIds, NewIds;
      ghost var before := mapInfo;
      var last := |vRandom| - 1;
      IndexAt(mapInfo, mapAddr, vRandom, nIdCount, nId);
      SwapRandom(mapInfo[nId].nRandomPos, last);
      KeptTables(h, before, mapInfo, vvNew, vvTried, loose);
      assert SameButPos(before[nId], mapInfo[nId]);
      IndexHas(mapInfo, mapAddr, vRandom, nIdCount, last);
      assert mapInfo[nId].nRandomPos == last;
      DropLast(mapInfo, mapAddr, vRandom, nIdCount, nId);
      ForgetTables(h, mapInfo, vvNew, vvTried, loose, nId);
      vRandom := vRandom[..last];
      mapAddr := mapAddr - {mapInfo[nId].service.ip};
      mapInfo := mapInfo - {nId};
      nNew := nNew - 1;
    }

    method ClearNew(slot: Slot, ghost loose: set<int>, ghost off: int)
      requires Consistent(loose, off) && At(vvNew, slot) !in loose
      modifies this`mapInfo, this`mapAddr, this`vRandom, this`nNew, this`vvNew
      ensures Consistent(loose, off)
      ensures vvNew == old(vvNew) - {slot} && Cleared(old(mapInfo), old(vvNew), slot, mapInfo)
    {
      hide IndexOk, NewOk, TriedOk, RefOk, TriedIds, NewIds;
      EmptyIs(h, mapInfo, mapAddr, vRandom, nIdCount, vvNew, vvTried, slot);
      if At(vvNew, slot) != -1 {
        var nIdDelete := vvNew[slot];
        HolderPlace(h, mapInfo, vvNew, slot);
        ClearTables(h, mapInfo, vvNew, vvTried, loose, slot);
        var infoDelete := mapInfo[nIdDelete];
        assert infoDelete.nRefCount > 0;
        infoDelete := infoDelete.(nRefCount := infoDelete.nRefCount - 1);
        IndexUpdate(mapInfo, mapAddr, vRandom, nIdCount, nIdDelete, infoDelete);
        mapInfo := mapInfo[nIdDelete := infoDelete];
        vvNew := vvNew - {slot};
        if infoDelete.nRefCount == 0 {
          assert (loose + {nIdDelete}) - {nIdDelete} == loose;
          Delete(nIdDelete, loose + {nIdDelete}, off);
        }
      }
    }

    /** The loop of MakeTried: leave every new bucket. */
    method LeaveNew(nId: int)
      requires Consistent({}, 0) && nId in mapInfo && !mapInfo[nId].fInTried
      modifies this`mapInfo, this`nNew, this`vvNew
      ensures Consistent({nId}, 1)
      ensures mapInfo == old(mapInfo)[nId := old(mapInfo)[nId].(nRefCount := 0)]
      ensures vvNew == old(vvNew) - Holders(old(vvNew), nId)
    {
      hide IndexOk, NewOk, TriedOk, RefOk, TriedIds, NewIds;
      Loosen(mapInfo, vvNew, {}, {nId});
      ghost var before := mapInfo[nId];
      forall s | s in vvNew ensures s.bucket >= 0 {
        HolderPlace(h, mapInfo, vvNew, s);
      }
      var bucket := 0;
      while bucket < NEW_BUCKET_COUNT
        invariant 0 <= bucket <= NEW_BUCKET_COUNT
        invariant Consistent({nId}, 0) && nId in mapInfo && !mapInfo[nId].fInTried
        invariant mapInfo == old(mapInfo)[nId := before.(nRefCount := mapInfo[nId].nRefCount)]
        invariant forall slot :: slot in old(vvNew) && old(vvNew)[slot] != nId ==> slot in vvNew
        invariant forall slot :: slot in vvNew ==>
          slot in old(vvNew) && old(vvNew)[slot] == vvNew[slot] && (vvNew[slot] == nId ==> slot.bucket >= bucket)
      {
        var slot := NewSlot(h, mapInfo[nId].service, bucket);
        forall s | s in vvNew && vvNew[s] == nId && s.bucket == bucket ensures s == slot {
          HolderPlace(h, mapInfo, vvNew, s);
        }
        IndexAt(mapInfo, mapAddr, vRandom, nIdCount, nId);
        if At(vvNew, slot) == nId {
          LeaveSlot(nId, slot);
        }
        bucket := bucket + 1;
      }
      forall s | s in vvNew ensures vvNew[s] != nId {
        HolderPlace(h, mapInfo, vvNew, s);
      }
      NoHolders(mapInfo, vvNew, {nId}, nId);
      nNew := nNew - 1;
    }

    method LeaveSlot(nId: int, slot: Slot)
      requires Consistent({nId}, 0) && nId in mapInfo && slot in vvNew && vvNew[slot] == nId
      modifies this`mapInfo, this`vvNew
      ensures Consistent({nId}, 0)
      ensures mapInfo == old(mapInfo)[nId := old(mapInfo)[nId].(nRefCount := old(mapInfo)[nId].nRefCount - 1)]
      ensures vvNew == old(vvNew) - {slot}
    {
      hide IndexOk, NewOk, TriedOk, RefOk, TriedIds, NewIds;
      ClearTables(h, mapInfo, vvNew, vvTried, {nId}, slot);
      assert {nId} + {nId} == {nId};
      var info := mapInfo[nId].(nRefCount := mapInfo[nId].nRefCount - 1);
      IndexUpdate(mapInfo, mapAddr, vRandom, nIdCount, nId, info);
      vvNew := vvNew - {slot};
      mapInfo := mapInfo[nId := info];
    }

    /** Whoever holds a tried slot goes back to a new bucket, and whoever held that place loses a reference. */
    method EvictTried(slot: Slot, ghost nId: int)
      requires Consistent({nId}, 1) && slot in vvTried
      requires nId in mapInfo && !mapInfo[nId].fInTried && mapInfo[nId].nRefCount == 0
      modifies this`mapInfo, this`mapAddr, this`vRandom, this`nNew, this`nTried, this`vvNew, this`vvTried
      ensures Consistent({nId}, 1) && vvTried == old(vvTried) - {slot}
      ensures SameServices(old(mapInfo), mapInfo)
      ensures nId in mapInfo && SameButPos(old(mapInfo)[nId], mapInfo[nId])
      ensures var nIdEvict := old(vvTried)[slot];
              && nIdEvict in old(mapInfo) && Demoted(h, old(mapInfo), old(vvNew), nIdEvict, mapInfo, vvNew)
              && nIdEvict in mapInfo && !mapInfo[nIdEvict].fInTried && mapInfo[nIdEvict].nRefCount == 1
    {
      hide IndexOk, NewOk, TriedOk, RefOk, TriedIds, NewIds, BackSlot;
      var nIdEvict := vvTried[slot];
      DemoteTables(h, mapInfo, vvNew, vvTried, {nId}, slot);
      var infoOld := mapInfo[nIdEvict].(fInTried := false);
      IndexUpdate(mapInfo, mapAddr, vRandom, nIdCount, nIdEvict, infoOld);
      mapInfo := mapInfo[nIdEvict := infoOld];
      vvTried := vvTried - {slot};
      nTried := nTried - 1;
      SameBackSlot(h, old(mapInfo)[nIdEvict], infoOld);
      PutBack(nIdEvict, nId);
    }

    /** Give an address without references its own place in the new table. */
    method PutBack(nIdEvict: int, ghost nId: int)
      requires nId != nIdEvict && Consistent({nId} + {nIdEvict}, 2) && nId in mapInfo && nIdEvict in mapInfo
      requires !mapInfo[nId].fInTried && mapInfo[nId].nRefCount == 0
      requires !mapInfo[nIdEvict].fInTried && mapInfo[nIdEvict].nRefCount == 0
      modifies this`mapInfo, this`mapAddr, this`vRandom, this`nNew, this`vvNew
      ensures Consistent({nId}, 1)
      ensures nId in mapInfo && SameButPos(old(mapInfo)[nId], mapInfo[nId])
      ensures var info := old(mapInfo)[nIdEvict]; var place := BackSlot(h, info);
              && vvNew == old(vvNew)[place := nIdEvict]
              && Cleared(old(mapInfo)[nIdEvict := info.(nRefCount := 1)], old(vvNew), place, mapInfo)
              && nIdEvict in mapInfo && SameButPos(info.(nRefCount := 1), mapInfo[nIdEvict])
    {
      hide IndexOk, NewOk, TriedOk, RefOk, TriedIds, NewIds, NewSlot, NewBucket;
      var info := mapInfo[nIdEvict];
      var nUBucket := NewBucket(h, info.service, info.source);
      var place := NewSlot(h, info.service, nUBucket);
      ghost var loose := {nId} + {nIdEvict};
      Unheld(mapInfo, vvNew, loose, nId, place);
      IndexAt(mapInfo, mapAddr, vRandom, nIdCount, nId);
      Unheld(mapInfo, vvNew, loose, nIdEvict, place);
      IndexAt(mapInfo, mapAddr, vRandom, nIdCount, nIdEvict);
      ghost var before := mapInfo;
      ClearNew(place, loose, 2);
      assert SameButPos(before[nIdEvict], mapInfo[nIdEvict]) && SameButPos(before[nId], mapInfo[nId]);
      assert place !in vvNew;
      PutTables(h, mapInfo, vvNew, vvTried, loose, nIdEvict, nUBucket);
      assert loose - {nIdEvict} == {nId};
      var infoOld := mapInfo[nIdEvict].(nRefCount := 1);
      IndexUpdate(mapInfo, mapAddr, vRandom, nIdCount, nIdEvict, infoOld);
      mapInfo := mapInfo[nIdEvict := infoOld];
      vvNew := vvNew[place := nIdEvict];
      nNew := nNew + 1;
    }

    /** Move an address from every new bucket it is in to its tried slot. */
    method MakeTried(nId: int)
      requires Consistent({}, 0) && nId in mapInfo && !mapInfo[nId].fInTried
      modifies this`mapInfo, this`mapAddr, this`vRandom, this`nNew, this`nTried, this`vvNew, this`vvTried
      ensures Consistent({}, 0) && SameServices(old(mapInfo), mapInfo)
      ensures var slot := TriedSlot(h, old(mapInfo)[nId].service);
              && vvTried == old(vvTried)[slot := nId]
              && nId in mapInfo && SameButPos(old(mapInfo)[nId].(nRefCount := 0, fInTried := true), mapInfo[nId])
              && (slot in old(vvTried) ==>
                    && old(vvTried)[slot] in mapInfo
                    && !mapInfo[old(vvTried)[slot]].fInTried && mapInfo[old(vvTried)[slot]].nRefCount == 1)
      ensures Promoted(h, old(mapInfo), old(vvNew), old(vvTried), nId, mapInfo, vvNew)
    {
      hide IndexOk, NewOk, TriedOk, RefOk, TriedIds, NewIds, TriedSlot, NewSlot, NewBucket, Demoted;
      LeaveNew(nId);
      assert mapInfo[nId].nRefCount == 0;
      var slot := TriedSlot(h, mapInfo[nId].service);
      EmptyIs(h, mapInfo, mapAddr, vRandom, nIdCount, vvNew, vvTried, slot);
      if At(vvTried, slot) != -1 {
        EvictTried(slot, nId);
      }
      EnterTried(nId, slot);
    }

    method EnterTried(nId: int, slot: Slot)
      requires Consistent({nId}, 1) && slot !in vvTried
      requires nId in mapInfo && !mapInfo[nId].fInTried && mapInfo[nId].nRefCount == 0
      requires slot == TriedSlot(h, mapInfo[nId].service)
      modifies this`mapInfo, this`nTried, this`vvTried
      ensures Consistent({}, 0) && vvTried == old(vvTried)[slot := nId]
      ensures mapInfo == old(mapInfo)[nId := old(mapInfo)[nId].(fInTried := true)]
    {
      hide IndexOk, NewOk, TriedOk, RefOk, TriedIds, NewIds, TriedSlot;
      PromoteTables(h, mapInfo, vvNew, vvTried, {nId}, nId);
      assert {nId} - {nId} == {};
      var info := mapInfo[nId].(fInTried := true);
      IndexUpdate(mapInfo, mapAddr, vRandom, nIdCount, nId, info);
      vvTried := vvTried[slot := nId];
      nTried := nTried + 1;
      mapInfo := mapInfo[nId := info];
    }

    /** Change an entry in its times, attempts, services or source. */
    method Touch(nId: int, info: AddrInfo, ghost loose: set<int>, ghost off: int)
      requires Consistent(loose, off) && nId in mapInfo
      requires info.service == mapInfo[nId].service && info.nRandomPos == mapInfo[nId].nRandomPos
      requires info.fInTried == mapInfo[nId].fInTried && info.nRefCount == mapInfo[nId].nRefCount
      modifies this`mapInfo
      ensures Consistent(loose, off) && mapInfo == old(mapInfo)[nId := info]
    {
      hide IndexOk, NewOk, TriedOk, RefOk, TriedIds, NewIds;
      TouchTables(h, mapInfo, vvNew, vvTried, loose, nId, info);
      IndexUpdate(mapInfo, mapAddr, vRandom, nIdCount, nId, info);
      mapInfo := mapInfo[nId := info];
    }

    /** A new bucket the address is in, searched from a random start; there always is one. */
    method FindNewBucket(nId: int, nRnd: nat) returns (nUBucket: int)
      requires Consistent({}, 0) && nId in mapInfo && !mapInfo[nId].fInTried && nRnd < NEW_BUCKET_COUNT
      ensures 0 <= nUBucket < NEW_BUCKET_COUNT && At(vvNew, NewSlot(h, mapInfo[nId].service, nUBucket)) == nId
    {
      hide IndexOk, NewOk, TriedOk, RefOk, TriedIds, NewIds, NewSlot, Turn;
      nUBucket := -1;
      var n := 0;
      while n < NEW_BUCKET_COUNT && nUBucket == -1
        invariant 0 <= n <= NEW_BUCKET_COUNT
        invariant nUBucket != -1 ==>
          0 <= nUBucket < NEW_BUCKET_COUNT && At(vvNew, NewSlot(h, mapInfo[nId].service, nUBucket)) == nId
        invariant nUBucket == -1 ==>
          forall m :: 0 <= m < n ==> At(vvNew, NewSlot(h, mapInfo[nId].service, Turn(m, nRnd))) != nId
        decreases NEW_BUCKET_COUNT - n, nUBucket == -1
      {
        var nB := Turn(n, nRnd);
        if At(vvNew, NewSlot(h, mapInfo[nId].service, nB)) == nId {
          nUBucket := nB;
        } else {
          n := n + 1;
        }
      }
      ghost var slot := SomeHolder(h, mapInfo, vvNew, nId);
      ghost var m := MeetsBucket(nRnd, slot.bucket);
      assert At(vvNew, NewSlot(h, mapInfo[nId].service, Turn(m, nRnd))) == nId;
    }

    /** A connection to the address worked: it becomes tried, or waits until the holder of its slot is tested. */
    method Good(addr: Service, testBeforeEvict: bool, nTime: int, nRnd: nat)
      requires Valid() && nRnd < NEW_BUCKET_COUNT
      modifies this`mapInfo, this`mapAddr, this`vRandom, this`nNew, this`nTried, this`vvNew, this`vvTried,
               this`nLastGood, this`m_tried_collisions
      ensures Valid() && nLastGood == nTime
      ensures SameServices(old(mapInfo), mapInfo) && old(vvTried).Keys <= vvTried.Keys
      ensures addr.ip !in old(mapAddr) || old(mapInfo)[old(mapAddr)[addr.ip]].service != addr ==>
                mapInfo == old(mapInfo) && vvNew == old(vvNew) && vvTried == old(vvTried)
                    && m_tried_collisions == old(m_tried_collisions)
      ensures !testBeforeEvict ==> m_tried_collisions == old(m_tried_collisions)
      ensures addr.ip in old(mapAddr) && old(mapInfo)[old(mapAddr)[addr.ip]].service == addr ==>
                var nId := old(mapAddr)[addr.ip];
                var was := old(mapInfo)[nId];
                var waits := testBeforeEvict && !was.fInTried && TriedSlot(h, addr) in old(vvTried);
                && nId in mapInfo
                && (if waits then
                      && vvTried == old(vvTried) && vvNew == old(vvNew)
                      && m_tried_collisions == (if |old(m_tried_collisions)| < SET_TRIED_COLLISION_SIZE
                                                then old(m_tried_collisions) + {nId} else old(m_tried_collisions))
                    else
                      && mapInfo[nId].fInTried && At(vvTried, TriedSlot(h, addr)) == nId
                      && vvTried == old(vvTried)[TriedSlot(h, addr) := nId]
                      && m_tried_collisions == old(m_tried_collisions))
                && mapInfo[nId].nLastSuccess == nTime && mapInfo[nId].nLastTry == nTime && mapInfo[nId].nAttempts == 0
                && (!waits && !was.fInTried && TriedSlot(h, addr) in old(vvTried) ==>
                      var holder := old(vvTried)[TriedSlot(h, addr)];
                      holder in mapInfo && !mapInfo[holder].fInTried && mapInfo[holder].nRefCount == 1)
                && var touched := old(mapInfo)[nId := was.(nLastSuccess := nTime, nLastTry := nTime, nAttempts := 0)];
                && (waits || was.fInTried ==> mapInfo == touched && vvNew == old(vvNew))
                && (!waits && !was.fInTried ==>
                      Promoted(h, touched, old(vvNew), old(vvTried), nId, mapInfo, vvNew))
    {
      hide IndexOk, NewOk, TriedOk, RefOk, TriedIds, NewIds, NewSlot, NewBucket, TriedSlot, CollisionsOk, Promoted;
      nLastGood := nTime;
      var nId := Find(addr.ip);
      if nId == -1 {
        return;
      }
      if mapInfo[nId].service != addr {
        return;
      }
      Touch(nId, mapInfo[nId].(nLastSuccess := nTime, nLastTry := nTime, nAttempts := 0), {}, 0);
      CollisionsKept(h, old(mapInfo), mapInfo, vvTried, vvTried, m_tried_collisions, nIdCount, nIdCount);
      IndexAt(mapInfo, mapAddr, vRandom, nIdCount, nId);
      if mapInfo[nId].fInTried {
        TriedPlace(h, mapInfo, vvTried, nId);
        return;
      }
      var nUBucket := FindNewBucket(nId, nRnd);
      assert nUBucket != -1;
      var slot := TriedSlot(h, mapInfo[nId].service);
      EmptyIs(h, mapInfo, mapAddr, vRandom, nIdCount, vvNew, vvTried, slot);
      if testBeforeEvict && At(vvTried, slot) != -1 {
        if |m_tried_collisions| < SET_TRIED_COLLISION_SIZE {
          CollisionsAdd(h, mapInfo, vvTried, m_tried_collisions, nIdCount, nId);
          m_tried_collisions := m_tried_collisions + {nId};
        }
      } else {
        ghost var before := mapInfo;
        MakeTried(nId);
        CollisionsKept(h, before, mapInfo, old(vvTried), vvTried, m_tried_collisions, nIdCount, nIdCount);
      }
    }

    /** Try to put an address into the new bucket its source points to. */
    method Place(nId: int, source: nat, now: int, ghost loose: set<int>)
      requires Consistent(loose, 0) && loose <= {nId}
      requires nId in mapInfo && !mapInfo[nId].fInTried && mapInfo[nId].nRefCount < NEW_BUCKETS_PER_ADDRESS
      requires mapInfo[nId].nRefCount == 0 <==> nId in loose
      modifies this`mapInfo, this`mapAddr, this`vRandom, this`nNew, this`vvNew
      ensures Consistent({}, 0) && SameServices(old(mapInfo), mapInfo)
      ensures nId in mapInfo ==> SameButPos(old(mapInfo)[nId].(nRefCount := mapInfo[nId].nRefCount), mapInfo[nId])
      ensures var slot := NewSlot(h, old(mapInfo)[nId].service, NewBucket(h, old(mapInfo)[nId].service, source));
              && (slot in vvNew)
              && (vvNew[slot] == old(At(vvNew, slot)) ==> vvNew == old(vvNew))
              && (vvNew[slot] != old(At(vvNew, slot)) ==>
                    vvNew == old(vvNew)[slot := nId] && nId in mapInfo
                        && mapInfo[nId].nRefCount == old(mapInfo)[nId].nRefCount + 1)
              && (nId !in mapInfo <==> old(mapInfo)[nId].nRefCount == 0 && vvNew[slot] != nId)
              && (vvNew[slot] == nId <==> Yields(old(mapInfo), old(vvNew), slot, nId, now))
              && PutOrNot(old(mapInfo), old(vvNew), slot, nId, now, mapInfo, vvNew)
    {
      hide IndexOk, NewOk, TriedOk, RefOk, TriedIds, NewIds, NewSlot, NewBucket, Cleared;
      assert nId !in loose ==> loose == {};
      IdUnused(mapInfo, mapAddr, vRandom, nIdCount);
      var nUBucket := NewBucket(h, mapInfo[nId].service, source);
      var slot := NewSlot(h, mapInfo[nId].service, nUBucket);
      EmptyIs(h, mapInfo, mapAddr, vRandom, nIdCount, vvNew, vvTried, slot);
      IndexAt(mapInfo, mapAddr, vRandom, nIdCount, nId);
      if At(vvNew, slot) != nId {
        assert loose - {nId} == {};
        var fInsert := At(vvNew, slot) == -1;
        if !fInsert {
          HolderPlace(h, mapInfo, vvNew, slot);
          var infoExisting := mapInfo[vvNew[slot]];
          if infoExisting.IsTerrible(now) || (infoExisting.nRefCount > 1 && mapInfo[nId].nRefCount == 0) {
            fInsert := true;
          }
        }
        if fInsert {
          Insert(nId, nUBucket, slot, loose);
        } else if mapInfo[nId].nRefCount == 0 {
          Delete(nId, loose, 0);
        }
      } else if mapInfo[nId].nRefCount == 0 {
        Unheld(mapInfo, vvNew, loose, nId, slot);
        assert false;
      }
    }

    method Insert(nId: int, nUBucket: int, slot: Slot, ghost loose: set<int>)
      requires Consistent(loose, 0) && loose <= {nId} && At(vvNew, slot) != nId
      requires nId in mapInfo && !mapInfo[nId].fInTried && mapInfo[nId].nRefCount < NEW_BUCKETS_PER_ADDRESS
      requires 0 <= nUBucket < NEW_BUCKET_COUNT && slot == NewSlot(h, mapInfo[nId].service, nUBucket)
      modifies this`mapInfo, this`mapAddr, this`vRandom, this`nNew, this`vvNew
      ensures Consistent({}, 0) && SameServices(old(mapInfo), mapInfo) && vvNew == old(vvNew)[slot := nId]
      ensures nId in mapInfo && SameButPos(old(mapInfo)[nId].(nRefCount := old(mapInfo)[nId].nRefCount + 1),
                                           mapInfo[nId])
      ensures Cleared(old(mapInfo)[nId := old(mapInfo)[nId].(nRefCount := old(mapInfo)[nId].nRefCount + 1)],
                      old(vvNew), slot, mapInfo)
    {
      hide IndexOk, NewOk, TriedOk, RefOk, TriedIds, NewIds, NewSlot;
      ClearNew(slot, loose, 0);
      assert SameButPos(old(mapInfo)[nId], mapInfo[nId]);
      PutTables(h, mapInfo, vvNew, vvTried, loose, nId, nUBucket);
      assert loose - {nId} == {};
      var info := mapInfo[nId].(nRefCount := mapInfo[nId].nRefCount + 1);
      IndexUpdate(mapInfo, mapAddr, vRandom, nIdCount, nId, info);
      mapInfo := mapInfo[nId := info];
      vvNew := vvNew[slot := nId];
    }

    /** An address announced by `source`. Returns whether it was unknown. */
    method Add(addr: Address, source: nat, nTimePenalty: int, now: int, roll: nat) returns (fNew: bool)
      requires Valid()
      modifies this`nIdCount, this`mapInfo, this`mapAddr, this`vRandom, this`nNew, this`vvNew
      ensures Valid() && nIdCount >= old(nIdCount)
      ensures fNew <==> isRoutable(addr.service.ip) && addr.service.ip !in old(mapAddr)
      ensures !isRoutable(addr.service.ip) ==> mapInfo == old(mapInfo) && vvNew == old(vvNew)
      ensures var penalty := if addr.service.ip == source then 0 else nTimePenalty;
              && (fNew ==>
                    && old(nIdCount) !in old(mapInfo)
                    && Introduced(h, old(mapInfo), old(vvNew), old(nIdCount), |old(vRandom)|, addr, source,
                                  penalty, now, mapInfo, vvNew))
              && (isRoutable(addr.service.ip) && !fNew ==>
                    var nId := old(mapAddr)[addr.service.ip];
                    && nId in old(mapInfo)
                    && Reannounced(h, old(mapInfo), old(vvNew), nId, addr, source, penalty, now, roll, mapInfo, vvNew))
    {
      hide IndexOk, NewOk, TriedOk, RefOk, TriedIds, NewIds, NewSlot, NewBucket, CollisionsOk, Reannounced, Introduced;
      if !isRoutable(addr.service.ip) {
        return false;
      }
      var nId := Find(addr.service.ip);
      var penalty := if addr.service.ip == source then 0 else nTimePenalty;
      if nId != -1 {
        Known(nId, addr, source, penalty, now, roll);
        fNew := false;
      } else {
        Introduce(addr, source, penalty, now);
        fNew := true;
      }
    }

    /** Add_ for an address that is not known. */
    method Introduce(addr: Address, source: nat, nTimePenalty: int, now: int)
      requires Valid() && addr.service.ip !in mapAddr
      modifies this`nIdCount, this`mapInfo, this`mapAddr, this`vRandom, this`nNew, this`vvNew
      ensures Valid() && nIdCount == old(nIdCount) + 1 && old(nIdCount) !in old(mapInfo)
      ensures Introduced(h, old(mapInfo), old(vvNew), old(nIdCount), |old(vRandom)|, addr, source, nTimePenalty, now,
                         mapInfo, vvNew)
    {
      hide IndexOk, NewOk, TriedOk, RefOk, TriedIds, NewIds, NewSlot, NewBucket, CollisionsOk, PutOrNot, Yields;
      var nId := Create(addr, source);
      Touch(nId, mapInfo[nId].(nTime := Max(0, mapInfo[nId].nTime - nTimePenalty)), {nId}, 1);
      nNew := nNew + 1;
      ghost var before := mapInfo;
      ghost var info := Fresh(addr, source, |old(vRandom)|).(nTime := Max(0, addr.nTime - nTimePenalty));
      assert before == old(mapInfo)[nId := info];
      CollisionsGrow(h, old(mapInfo), before, vvTried, m_tried_collisions, old(nIdCount));
      Unheld(mapInfo, vvNew, {nId}, nId, NewSlot(h, addr.service, NewBucket(h, addr.service, source)));
      Place(nId, source, now, {nId});
      CollisionsKept(h, before, mapInfo, vvTried, vvTried, m_tried_collisions, nIdCount, nIdCount);
    }

    /** Add_ for an address that is already known. */
    method Known(nId: int, addr: Address, source: nat, nTimePenalty: int, now: int, roll: nat)
      requires Valid() && nId in mapInfo
      modifies this`mapInfo, this`mapAddr, this`vRandom, this`nNew, this`vvNew
      ensures Valid() && SameServices(old(mapInfo), mapInfo)
      ensures Reannounced(h, old(mapInfo), old(vvNew), nId, addr, source, nTimePenalty, now, roll, mapInfo, vvNew)
    {
      hide IndexOk, NewOk, TriedOk, RefOk, TriedIds, NewIds, CollisionsOk, Announced;
      var info := Announced(mapInfo[nId], addr, nTimePenalty, now);
      Touch(nId, info, {}, 0);
      ghost var before := mapInfo;
      CollisionsKept(h, old(mapInfo), before, vvTried, vvTried, m_tried_collisions, nIdCount, nIdCount);
      if addr.nTime == 0 || (info.nTime != 0 && addr.nTime <= info.nTime) {
        return;
      }
      if info.fInTried {
        return;
      }
      if info.nRefCount == NEW_BUCKETS_PER_ADDRESS {
        return;
      }
      RefRange(mapInfo, vvNew, nId);
      var more := Accepts(info.nRefCount, roll);
      if !more {
        return;
      }
      Place(nId, source, now, {});
      CollisionsKept(h, before, mapInfo, vvTried, vvTried, m_tried_collisions, nIdCount, nIdCount);
    }

    /** A connection attempt to the address. */
    method Attempt(addr: Service, fCountFailure: bool, nTime: int)
      requires Valid()
      modifies this`mapInfo
      ensures Valid() && mapInfo.Keys == old(mapInfo).Keys
      ensures addr.ip in mapAddr && old(mapInfo)[mapAddr[addr.ip]].service == addr ==>
                var was := old(mapInfo)[mapAddr[addr.ip]];
                mapInfo == old(mapInfo)[mapAddr[addr.ip] :=
                  if fCountFailure && was.nLastCountAttempt < nLastGood
                  then was.(nLastTry := nTime, nLastCountAttempt := nTime, nAttempts := was.nAttempts + 1)
                  else was.(nLastTry := nTime)]
      ensures addr.ip !in mapAddr || old(mapInfo)[mapAddr[addr.ip]].service != addr ==> mapInfo == old(mapInfo)
    {
      hide IndexOk, NewOk, TriedOk, RefOk, TriedIds, NewIds, CollisionsOk;
      var nId := Find(addr.ip);
      if nId == -1 {
        return;
      }
      if mapInfo[nId].service != addr {
        return;
      }
      var info := mapInfo[nId].(nLastTry := nTime);
      if fCountFailure && info.nLastCountAttempt < nLastGood {
        info := info.(nLastCountAttempt := nTime, nAttempts := info.nAttempts + 1);
      }
      Touch(nId, info, {}, 0);
      CollisionsKept(h, old(mapInfo), mapInfo, vvTried, vvTried, m_tried_collisions, nIdCount, nIdCount);
    }

    ghost function Pages(): Book
      reads this
    {
      Book(mapInfo, vvNew, vvTried, m_tried_collisions)
    }

    /** One step of ResolveCollisions_: whether the collision is settled. The slot it waits for is never
        empty, so the branch for a collision that has gone away is dead. */
    method ResolveOne(idNew: int, adjustedTime: int, now: int, nRnd: nat) returns (erase: bool)
      requires Valid() && idNew in m_tried_collisions && nRnd < NEW_BUCKET_COUNT
      modifies this`mapInfo, this`mapAddr, this`vRandom, this`nNew, this`nTried, this`vvNew, this`vvTried,
               this`nLastGood, this`m_tried_collisions
      ensures Valid() && SameServices(old(mapInfo), mapInfo) && old(vvTried).Keys <= vvTried.Keys
      ensures m_tried_collisions == old(m_tried_collisions)
      ensures var left := if erase then m_tried_collisions - {idNew} else m_tried_collisions;
              Resolved(h, isValid, Visit(idNew, old(Pages()), Pages().(pending := left)), adjustedTime, now)
    {
      hide IndexOk, NewOk, TriedOk, RefOk, TriedIds, NewIds, TriedSlot, CollisionsOk;
      erase := false;
      if idNew !in mapInfo {
        erase := true;
      } else {
        var infoNew := mapInfo[idNew];
        var slot := TriedSlot(h, infoNew.service);
        CollisionHasHolder(h, mapInfo, vvTried, m_tried_collisions, nIdCount, idNew);
        IndexAt(mapInfo, mapAddr, vRandom, nIdCount, idNew);
        IndexAt(mapInfo, mapAddr, vRandom, nIdCount, vvTried[slot]);
        if infoNew.fInTried { TriedPlace(h, mapInfo, vvTried, idNew); }
        if !isValid(infoNew.service.ip) {
          erase := true;
        } else if At(vvTried, slot) != -1 {
          var infoOld := mapInfo[vvTried[slot]];
          if adjustedTime - infoOld.nLastSuccess < REPLACEMENT_SECONDS {
            erase := true;
          } else if adjustedTime - infoOld.nLastTry < REPLACEMENT_SECONDS {
            if now - infoOld.nLastTry > 60 {
              Good(infoNew.service, false, now, nRnd);
              erase := true;
            }
          } else if now - infoNew.nLastSuccess > TEST_WINDOW {
            Good(infoNew.service, false, now, nRnd);
            erase := true;
          }
        } else {
          assert false;
        }
      }
    }

    /** And the collision that is settled is no longer pending. */
    method ResolveNext(idNew: int, adjustedTime: int, now: int, nRnd: nat)
      requires Valid() && idNew in m_tried_collisions && nRnd < NEW_BUCKET_COUNT
      modifies this`mapInfo, this`mapAddr, this`vRandom, this`nNew, this`nTried, this`vvNew, this`vvTried,
               this`nLastGood, this`m_tried_collisions
      ensures Valid() && SameServices(old(mapInfo), mapInfo) && old(vvTried).Keys <= vvTried.Keys
      ensures old(m_tried_collisions) - {idNew} <= m_tried_collisions <= old(m_tried_collisions)
      ensures Resolved(h, isValid, Visit(idNew, old(Pages()), Pages()), adjustedTime, now)
    {
      hide IndexOk, NewOk, TriedOk, RefOk, TriedIds, NewIds, TriedSlot, CollisionsOk, SameServices, Resolved;
      var erase := ResolveOne(idNew, adjustedTime, now, nRnd);
      if erase {
        CollisionsDrop(h, mapInfo, vvTried, m_tried_collisions, m_tried_collisions - {idNew}, nIdCount);
        m_tried_collisions := m_tried_collisions - {idNew};
      }
    }

    /** Settle the pending collisions that can be settled. `visits` is what happens on the way: every pending
        id is looked at once, in increasing order, each in the state the one before it left. */
    method ResolveCollisions(adjustedTime: int, clock: int -> int, rnd: int -> nat) returns (ghost visits: seq<Visit>)
      requires Valid() && forall id :: rnd(id) < NEW_BUCKET_COUNT
      modifies this`mapInfo, this`mapAddr, this`vRandom, this`nNew, this`nTried, this`vvNew, this`vvTried,
               this`nLastGood, this`m_tried_collisions
      ensures Valid() && SameServices(old(mapInfo), mapInfo) && old(vvTried).Keys <= vvTried.Keys
      ensures Walk(visits, old(Pages()), Pages())
      ensures forall id :: id in Ids(visits) <==> id in old(m_tried_collisions)
      ensures forall i :: 0 <= i < |visits| ==>
                Resolved(h, isValid, visits[i], adjustedTime, clock(visits[i].id))
    {
      hide Valid, SameServices, Resolved, Walk;
      SameServicesRefl(mapInfo);
      WalkStart(Pages());
      visits := [];
      var todo := m_tried_collisions;
      while todo != {}
        invariant Valid() && SameServices(old(mapInfo), mapInfo) && old(vvTried).Keys <= vvTried.Keys
        invariant todo <= m_tried_collisions <= old(m_tried_collisions)
        invariant Walk(visits, old(Pages()), Pages())
        invariant forall id :: id in old(m_tried_collisions) <==> id in Ids(visits) || id in todo
        invariant forall i, x :: 0 <= i < |visits| && x in todo ==> visits[i].id < x
        invariant forall i :: 0 <= i < |visits| ==>
                    Resolved(h, isValid, visits[i], adjustedTime, clock(visits[i].id))
        decreases |todo|
      {
        var idNew := Least(todo);
        ghost var before := Pages();
        ResolveNext(idNew, adjustedTime, clock(idNew), rnd(idNew));
        SameServicesTrans(old(mapInfo), before.infos, mapInfo);
        todo := todo - {idNew};
        ghost var v := Visit(idNew, before, Pages());
        WalkGrows(visits, old(Pages()), v);
        assert Ids(visits + [v]) == Ids(visits) + [idNew];
        visits := visits + [v];
      }
    }

    /** The tried address that a pending one would replace, or -1; it is always a real entry. */
    method SelectTriedCollision(idNew: int) returns (idOld: int)
      requires Valid() && (m_tried_collisions != {} ==> idNew in m_tried_collisions)
      modifies this`m_tried_collisions
      ensures Valid()
      ensures old(m_tried_collisions) != {} && idNew in mapInfo <==> idOld != -1
      ensures idOld != -1 ==>
                idOld in mapInfo && mapInfo[idOld].fInTried && m_tried_collisions == old(m_tried_collisions)
      ensures idOld != -1 ==> TriedSlot(h, mapInfo[idOld].service) == TriedSlot(h, mapInfo[idNew].service)
      ensures idOld == -1 ==> m_tried_collisions == old(m_tried_collisions) - {idNew}
    {
      hide IndexOk, NewOk, RefOk, TriedIds, NewIds, TriedSlot, CollisionsOk;
      if m_tried_collisions == {} {
        return -1;
      }
      if idNew !in mapInfo {
        CollisionsDrop(h, mapInfo, vvTried, m_tried_collisions, m_tried_collisions - {idNew}, nIdCount);
        m_tried_collisions := m_tried_collisions - {idNew};
        return -1;
      }
      CollisionHasHolder(h, mapInfo, vvTried, m_tried_collisions, nIdCount, idNew);
      idOld := At(vvTried, TriedSlot(h, mapInfo[idNew].service));
      IndexAt(mapInfo, mapAddr, vRandom, nIdCount, idOld);
    }

    /** Move a randomly chosen address to position n of the random vector. */
    method Shuffle(n: int, nRndPos: int)
      requires Valid() && 0 <= n <= nRndPos < |vRandom|
      modifies this`mapInfo, this`vRandom
      ensures Valid() && Kept(old(mapInfo), mapInfo) && mapInfo.Keys == old(mapInfo).Keys
      ensures |vRandom| == |old(vRandom)| && vRandom[..n] == old(vRandom)[..n]
      ensures vRandom[n] in mapInfo && vRandom[n] !in vRandom[..n]
    {
      hide IndexOk, NewOk, TriedOk, RefOk, TriedIds, NewIds, CollisionsOk;
      SwapRandom(n, nRndPos);
      KeptTables(h, old(mapInfo), mapInfo, vvNew, vvTried, {});
      CollisionsKept(h, old(mapInfo), mapInfo, vvTried, vvTried, m_tried_collisions, nIdCount, nIdCount);
      RandomDistinct(mapInfo, mapAddr, vRandom, nIdCount, n);
    }

    /** Addresses to tell a peer, drawn without repetition: as many as allowed, or all that are any good. */
    method GetAddr(now: int, rnd: nat -> nat) returns (ids: seq<int>)
      requires Valid()
      modifies this`mapInfo, this`vRandom
      ensures Valid() && Kept(old(mapInfo), mapInfo) && mapInfo.Keys == old(mapInfo).Keys && |vRandom| == |old(vRandom)|
      ensures forall i :: 0 <= i < |ids| ==> ids[i] in GoodIds(mapInfo, now)
      ensures forall i, j :: 0 <= i < j < |ids| ==> ids[i] != ids[j]
      ensures |ids| <= Quota(|vRandom|)
      ensures |ids| < Quota(|vRandom|) ==> forall id :: id in GoodIds(mapInfo, now) ==> id in ids
    {
      hide IndexOk, NewOk, TriedOk, RefOk, TriedIds, NewIds, CollisionsOk, Quota, Draw, AddrInfo.IsTerrible;
      hide GoodIds, Kept;
      KeptRefl(mapInfo);
      var nNodes := Quota(|vRandom|);
      ids := [];
      var n := 0;
      while n < |vRandom| && |ids| < nNodes
        invariant 0 <= n <= |vRandom| == |old(vRandom)| && |ids| <= nNodes
        invariant Valid() && Kept(old(mapInfo), mapInfo) && mapInfo.Keys == old(mapInfo).Keys
        invariant forall i :: 0 <= i < |ids| ==> ids[i] in GoodIds(old(mapInfo), now)
        invariant forall i, j :: 0 <= i < j < |ids| ==> ids[i] != ids[j]
        invariant forall i :: 0 <= i < |ids| ==> ids[i] in vRandom[..n]
        invariant forall id :: id in vRandom[..n] ==> (id in GoodIds(old(mapInfo), now) ==> id in ids)
      {
        var nRndPos := Draw(rnd, n, |vRandom|);
        ghost var before := mapInfo;
        Shuffle(n, nRndPos);
        KeptTrans(old(mapInfo), before, mapInfo);
        KeptQuality(old(mapInfo), mapInfo, now);
        assert vRandom[..n + 1] == vRandom[..n] + [vRandom[n]];
        IsGood(mapInfo, now, vRandom[n]);
        if !mapInfo[vRandom[n]].IsTerrible(now) {
          ids := ids + [vRandom[n]];
        }
        n := n + 1;
      }
      KeptQuality(old(mapInfo), mapInfo, now);
      RandomHolds(mapInfo, mapAddr, vRandom, nIdCount);
      GoodKnown(mapInfo, now);
      assert vRandom[..|vRandom|] == vRandom;
    }

    /** One operation keeps the structure in order and every occupied tried slot occupied. */
    method Apply(op: Op)
      requires Valid() && InRange(op)
      modifies this
      ensures Valid() && old(vvTried).Keys <= vvTried.Keys && nIdCount >= old(nIdCount)
    {
      hide CollisionsOk, IndexOk, NewOk, TriedOk, RefOk, TriedIds, NewIds, TriedSlot, NewSlot;
      match op {
        case Add(addr, source, nTimePenalty, now, roll) => var fNew := Add(addr, source, nTimePenalty, now, roll);
        case Good(service, test, nTime, nRnd) => Good(service, test, nTime, nRnd);
        case Attempt(service, count, nTime) => Attempt(service, count, nTime);
        case Resolve(adjustedTime, clock, rnd) =>
          ghost var visits := ResolveCollisions(adjustedTime, clock, rnd);
        case Select(pick) =>
          if m_tried_collisions == {} || pick in m_tried_collisions {
            var idOld := SelectTriedCollision(pick);
          }
        case GetAddr(now, draws) => var ids := GetAddr(now, draws);
      }
    }
  }

  /** What Check_ tests of a manager, and what every run from a fresh one therefore passes: each known
      address is tried or new and not both, the counters count them, and the random vector has them all. */
  method Run(h: Hashes, isRoutable: nat -> bool, isValid: nat -> bool, ops: seq<Op>) returns (m: AddrMan)
    requires forall i :: 0 <= i < |ops| ==> InRange(ops[i])
    ensures fresh(m) && m.h == h && m.Valid()
    ensures |m.vRandom| == m.nTried + m.nNew == |m.mapInfo.Keys|
    ensures forall id :: id in m.mapInfo ==> (m.mapInfo[id].fInTried <==> id in m.vvTried.Values)
    ensures forall id :: id in m.mapInfo ==> (!m.mapInfo[id].fInTried <==> id in m.vvNew.Values)
  {
    hide IndexOk, NewOk, TriedOk, RefOk, CollisionsOk, TriedIds, NewIds;
    m := new AddrMan(h, isRoutable, isValid);
    for i := 0 to |ops|
      invariant fresh(m) && m.h == h && m.Valid()
    {
      m.Apply(ops[i]);
    }
    RandomHolds(m.mapInfo, m.mapAddr, m.vRandom, m.nIdCount);
    TriedXorNew(m.mapInfo);
    PlacesExact(h, m.mapInfo, m.vvNew, m.vvTried);
  }
}
