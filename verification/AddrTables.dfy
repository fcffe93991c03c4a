/** The linked tables of the address manager (src/addrman.h) and what ties them together. */
module AddrTables {
  const TRIED_BUCKET_COUNT: nat := 256
  const NEW_BUCKET_COUNT: nat := 1024
  const BUCKET_SIZE: nat := 64
  const NEW_BUCKETS_PER_ADDRESS: nat := 8

  const MINUTE := 60
  const DAY := 24 * 60 * 60
  const HORIZON_DAYS := 30
  const RETRIES := 3
  const MAX_FAILURES := 10
  const MIN_FAIL_DAYS := 7

  datatype Service = Service(ip: nat, port: nat)

  datatype AddrInfo = AddrInfo(
    service: Service,
    source: nat,
    nServices: bv64,
    nTime: int,
    nLastTry: int,
    nLastCountAttempt: int,
    nLastSuccess: int,
    nAttempts: int,
    nRefCount: int,
    fInTried: bool,
    nRandomPos: int)
  {
    predicate IsTerrible(nNow: int) {
      if nLastTry != 0 && nLastTry >= nNow - MINUTE then false
      else if nTime > nNow + 10 * MINUTE then true
      else if nTime == 0 || nNow - nTime > HORIZON_DAYS * DAY then true
      else if nLastSuccess == 0 && nAttempts >= RETRIES then true
      else nNow - nLastSuccess > MIN_FAIL_DAYS * DAY && nAttempts >= MAX_FAILURES
    }
  }

  /** When an address is not worth keeping: from more than ten minutes in the future, not seen for thirty
      days, three attempts without any success, or ten since a success more than a week ago; but never
      within a minute of an attempt. */
  lemma TerribleIff(info: AddrInfo, now: int)
    ensures info.IsTerrible(now) <==>
              && (info.nLastTry == 0 || now - info.nLastTry > 60)
              && (|| info.nTime - now > 600 || info.nTime == 0 || now - info.nTime > 2592000
                  || (info.nLastSuccess == 0 && info.nAttempts >= 3)
                  || (now - info.nLastSuccess > 604800 && info.nAttempts >= 10))
    ensures info.nLastSuccess != 0 && info.nAttempts == 0 && 0 < info.nTime <= now && now - info.nTime <= 2592000 ==>
              !info.IsTerrible(now)
  {
  }

  /** The keyed hashes that place an address; any functions will do. */
  datatype Hashes = Hashes(tried: Service -> nat, unseen: (Service, nat) -> nat, position: (bool, int, Service) -> nat)

  datatype Slot = Slot(bucket: int, pos: int)

  function TriedSlot(h: Hashes, s: Service): Slot {
    var bucket := h.tried(s) % TRIED_BUCKET_COUNT;
    Slot(bucket, h.position(false, bucket, s) % BUCKET_SIZE)
  }

  /** The slot an address would use in a given new bucket. */
  function NewSlot(h: Hashes, s: Service, bucket: int): Slot {
    Slot(bucket, h.position(true, bucket, s) % BUCKET_SIZE)
  }

  function NewBucket(h: Hashes, s: Service, source: nat): (bucket: int)
    ensures 0 <= bucket < NEW_BUCKET_COUNT
  {
    h.unseen(s, source) % NEW_BUCKET_COUNT
  }

  type Infos = map<int, AddrInfo>

  /** A bucket table; a slot that is not a key is empty and reads as -1. */
  type Table = map<Slot, int>

  function At(t: Table, slot: Slot): int { if slot in t then t[slot] else -1 }

  // ---------------------------------------------------------------- what ties the tables together

  /** The id map, the address map and the random vector are inverse to one another. */
  ghost predicate IndexOk(infos: Infos, addrs: map<nat, int>, random: seq<int>, nIdCount: int) {
    && (forall ip :: ip in addrs ==> addrs[ip] in infos && infos[addrs[ip]].service.ip == ip)
    && (forall id :: id in infos ==>
          && 0 <= id < nIdCount
          && infos[id].service.ip in addrs && addrs[infos[id].service.ip] == id
          && 0 <= infos[id].nRandomPos < |random| && random[infos[id].nRandomPos] == id)
    && (forall i :: 0 <= i < |random| ==> random[i] in infos && infos[random[i]].nRandomPos == i)
  }

  /** Every new slot holds a known untried address, in a place its hash allows. */
  ghost predicate NewOk(h: Hashes, infos: Infos, news: Table) {
    forall slot :: slot in news ==>
      && news[slot] in infos && !infos[news[slot]].fInTried
      && 0 <= slot.bucket < NEW_BUCKET_COUNT && slot == NewSlot(h, infos[news[slot]].service, slot.bucket)
  }

  /** Every tried slot holds a known tried address in its one place, and every tried address is there. */
  ghost predicate TriedOk(h: Hashes, infos: Infos, tried: Table) {
    && (forall slot :: slot in tried ==>
          tried[slot] in infos && infos[tried[slot]].fInTried && slot == TriedSlot(h, infos[tried[slot]].service))
    && (forall id :: id in infos && infos[id].fInTried ==>
          TriedSlot(h, infos[id].service) in tried && tried[TriedSlot(h, infos[id].service)] == id)
  }

  /** The new slots an id occupies. */
  function Holders(news: Table, id: int): set<Slot> { set slot | slot in news && news[slot] == id }

  /** Reference counts are exact: none for a tried address, one to eight for the others, and possibly
      none for the `loose` ones in the middle of an operation. */
  ghost predicate RefOk(infos: Infos, news: Table, loose: set<int>) {
    forall id :: id in infos ==>
      if infos[id].fInTried then infos[id].nRefCount == 0
      else
        && infos[id].nRefCount == |Holders(news, id)| <= NEW_BUCKETS_PER_ADDRESS
        && (id !in loose ==> infos[id].nRefCount >= 1)
  }

  function TriedIds(infos: Infos): set<int> { set id | id in infos && infos[id].fInTried }

  function NewIds(infos: Infos): set<int> { set id | id in infos && !infos[id].fInTried }

  /** Every pending collision that is still known waits for a tried slot that is occupied. */
  ghost predicate CollisionsOk(h: Hashes, infos: Infos, tried: Table, collisions: set<int>, nIdCount: int) {
    forall id :: id in collisions ==> 0 <= id < nIdCount && (id in infos ==> TriedSlot(h, infos[id].service) in tried)
  }

  // ---------------------------------------------------------------- what one operation leaves alone

  /** An entry up to its random position. */
  predicate SameButPos(a: AddrInfo, b: AddrInfo) { a.(nRandomPos := b.nRandomPos) == b }

  /** `b` holds some of the entries of `a`, unchanged up to their random positions. */
  ghost predicate Kept(a: Infos, b: Infos) {
    forall id :: id in b ==> id in a && SameButPos(a[id], b[id])
  }

  lemma KeptRefl(a: Infos)
    ensures Kept(a, a)
  {
  }

  lemma KeptTrans(a: Infos, b: Infos, c: Infos)
    requires Kept(a, b) && Kept(b, c)
    ensures Kept(a, c)
  {
  }

  /** The addresses worth telling others about. */
  function GoodIds(infos: Infos, now: int): set<int> { set id | id in infos && !infos[id].IsTerrible(now) }

  lemma KeptQuality(a: Infos, b: Infos, now: int)
    requires Kept(a, b) && a.Keys == b.Keys
    ensures GoodIds(a, now) == GoodIds(b, now)
  {
    assert forall id :: id in a ==> SameButPos(a[id], b[id]);
    assert forall id :: id in a ==> a[id].IsTerrible(now) == b[id].IsTerrible(now);
  }

  lemma IsGood(infos: Infos, now: int, id: int)
    requires id in infos
    ensures id in GoodIds(infos, now) <==> !infos[id].IsTerrible(now)
  {
  }

  lemma GoodKnown(infos: Infos, now: int)
    ensures GoodIds(infos, now) <= infos.Keys
  {
  }

  lemma KeptTables(h: Hashes, a: Infos, b: Infos, news: Table, tried: Table, loose: set<int>)
    requires Kept(a, b) && a.Keys == b.Keys
    ensures NewOk(h, a, news) ==> NewOk(h, b, news)
    ensures TriedOk(h, a, tried) ==> TriedOk(h, b, tried)
    ensures RefOk(a, news, loose) ==> RefOk(b, news, loose)
    ensures TriedIds(a) == TriedIds(b) && NewIds(a) == NewIds(b)
  {
    assert forall id :: id in a ==> SameButPos(a[id], b[id]);
  }

  /** `b` holds some of the addresses of `a`, under the same ids. */
  ghost predicate SameServices(a: Infos, b: Infos) {
    forall id :: id in b ==> id in a && b[id].service == a[id].service
  }

  /** Collisions stay in order while ids keep their addresses and tried slots stay occupied. */
  lemma CollisionsKept(h: Hashes, a: Infos, b: Infos, tried: Table, tried': Table, collisions: set<int>, n: int,
                       n': int)
    requires CollisionsOk(h, a, tried, collisions, n) && SameServices(a, b) && tried.Keys <= tried'.Keys && n <= n'
    ensures CollisionsOk(h, b, tried', collisions, n')
  {
    hide TriedSlot;
  }

  lemma CollisionsAdd(h: Hashes, infos: Infos, tried: Table, collisions: set<int>, n: int, id: int)
    requires CollisionsOk(h, infos, tried, collisions, n) && 0 <= id < n
    requires id in infos && TriedSlot(h, infos[id].service) in tried
    ensures CollisionsOk(h, infos, tried, collisions + {id}, n)
  {
    hide TriedSlot;
  }

  lemma TriedPlace(h: Hashes, infos: Infos, tried: Table, id: int)
    requires TriedOk(h, infos, tried) && id in infos && infos[id].fInTried
    ensures TriedSlot(h, infos[id].service) in tried && tried[TriedSlot(h, infos[id].service)] == id
  {
  }

  lemma CollisionsDrop(h: Hashes, infos: Infos, tried: Table, collisions: set<int>, fewer: set<int>, n: int)
    requires CollisionsOk(h, infos, tried, collisions, n) && fewer <= collisions
    ensures CollisionsOk(h, infos, tried, fewer, n)
  {
  }

  /** A pending address that is still known waits for a tried slot with a known tried address in it. */
  lemma CollisionHasHolder(h: Hashes, infos: Infos, tried: Table, collisions: set<int>, n: int, id: int)
    requires CollisionsOk(h, infos, tried, collisions, n) && TriedOk(h, infos, tried) && id in collisions && id in infos
    ensures TriedSlot(h, infos[id].service) in tried
    ensures tried[TriedSlot(h, infos[id].service)] in infos && infos[tried[TriedSlot(h, infos[id].service)]].fInTried
  {
  }

  lemma SameServicesRefl(a: Infos)
    ensures SameServices(a, a)
  {
  }

  lemma SameServicesAt(a: Infos, b: Infos, id: int)
    requires SameServices(a, b)
    ensures id in b ==> id in a && b[id].service == a[id].service
  {
  }

  lemma SameServicesTrans(a: Infos, b: Infos, c: Infos)
    requires SameServices(a, b) && SameServices(b, c)
    ensures SameServices(a, c)
  {
  }

  /** A new id is never a pending one. */
  lemma CollisionsGrow(h: Hashes, a: Infos, b: Infos, tried: Table, collisions: set<int>, n: int)
    requires CollisionsOk(h, a, tried, collisions, n)
    requires forall id :: id in b && id != n ==> id in a && b[id].service == a[id].service
    ensures CollisionsOk(h, b, tried, collisions, n + 1)
  {
    hide TriedSlot;
  }

  lemma RefRange(infos: Infos, news: Table, id: int)
    requires RefOk(infos, news, {}) && id in infos && !infos[id].fInTried
    ensures 1 <= infos[id].nRefCount <= NEW_BUCKETS_PER_ADDRESS
  {
  }

  // ---------------------------------------------------------------- the random vector

  lemma SwapIndex(infos: Infos, addrs: map<nat, int>, random: seq<int>, nIdCount: int, i: nat, j: nat)
    requires IndexOk(infos, addrs, random, nIdCount) && i < |random| && j < |random| && i != j
    ensures var a, b := random[i], random[j];
            && a in infos && b in infos && a != b
            && var infos' := infos[a := infos[a].(nRandomPos := j)][b := infos[b].(nRandomPos := i)];
            IndexOk(infos', addrs, random[i := b][j := a], nIdCount) && Kept(infos, infos') && infos'.Keys == infos.Keys
  {
  }

  /** The address at the end of the vector can be dropped from all three. */
  lemma DropLast(infos: Infos, addrs: map<nat, int>, random: seq<int>, nIdCount: int, id: int)
    requires IndexOk(infos, addrs, random, nIdCount) && id in infos && infos[id].nRandomPos == |random| - 1
    ensures IndexOk(infos - {id}, addrs - {infos[id].service.ip}, random[..|random| - 1], nIdCount)
  {
  }

  lemma AppendIndex(infos: Infos, addrs: map<nat, int>, random: seq<int>, nIdCount: int, info: AddrInfo)
    requires IndexOk(infos, addrs, random, nIdCount) && nIdCount >= 0
    requires info.service.ip !in addrs && info.nRandomPos == |random|
    ensures IndexOk(infos[nIdCount := info], addrs[info.service.ip := nIdCount], random + [nIdCount], nIdCount + 1)
  {
  }

  lemma IndexAt(infos: Infos, addrs: map<nat, int>, random: seq<int>, nIdCount: int, id: int)
    requires IndexOk(infos, addrs, random, nIdCount) && id in infos
    ensures 0 <= id < nIdCount && 0 <= infos[id].nRandomPos < |random| && random[infos[id].nRandomPos] == id
    ensures infos[id].service.ip in addrs && addrs[infos[id].service.ip] == id
  {
  }

  lemma IdUnused(infos: Infos, addrs: map<nat, int>, random: seq<int>, nIdCount: int)
    requires IndexOk(infos, addrs, random, nIdCount)
    ensures nIdCount !in infos && -1 !in infos
  {
  }

  lemma IndexHas(infos: Infos, addrs: map<nat, int>, random: seq<int>, nIdCount: int, i: nat)
    requires IndexOk(infos, addrs, random, nIdCount) && i < |random|
    ensures random[i] in infos && infos[random[i]].nRandomPos == i
  {
  }

  /** An entry can change in anything but its service and its random position. */
  lemma IndexUpdate(infos: Infos, addrs: map<nat, int>, random: seq<int>, nIdCount: int, id: int, info: AddrInfo)
    requires IndexOk(infos, addrs, random, nIdCount) && id in infos
    requires info.service == infos[id].service && info.nRandomPos == infos[id].nRandomPos
    ensures IndexOk(infos[id := info], addrs, random, nIdCount)
  {
  }

  /** Every address stands in the random vector exactly once. */
  lemma {:induction false} RandomHolds(infos: Infos, addrs: map<nat, int>, random: seq<int>, nIdCount: int)
    requires IndexOk(infos, addrs, random, nIdCount)
    ensures (set id | id in random) == infos.Keys
    ensures |random| == |infos.Keys|
  {
    forall id | id in infos ensures id in random {
      assert random[infos[id].nRandomPos] == id;
    }
    assert (set id | id in random) == infos.Keys;
    assert forall i, j :: 0 <= i < j < |random| ==> random[i] != random[j];
    DistinctCount(random);
  }

  lemma RandomDistinct(infos: Infos, addrs: map<nat, int>, random: seq<int>, nIdCount: int, n: nat)
    requires IndexOk(infos, addrs, random, nIdCount) && n < |random|
    ensures random[n] in infos && random[n] !in random[..n]
  {
    forall i | 0 <= i < n ensures random[i] != random[n] {
      assert infos[random[i]].nRandomPos == i;
    }
  }

  lemma {:induction false} DistinctCount(s: seq<int>)
    requires forall i, j :: 0 <= i < j < |s| ==> s[i] != s[j]
    ensures |set x | x in s| == |s|
  {
    if s != [] {
      var rest := s[..|s| - 1];
      DistinctCount(rest);
      assert (set x | x in s) == (set x | x in rest) + {s[|s| - 1]};
    }
  }

  /** Every address is tried or new and not both. */
  lemma TriedXorNew(infos: Infos)
    ensures TriedIds(infos) + NewIds(infos) == infos.Keys && TriedIds(infos) !! NewIds(infos)
    ensures |TriedIds(infos)| + |NewIds(infos)| == |infos.Keys|
  {
    assert TriedIds(infos) + NewIds(infos) == infos.Keys;
  }

  // ---------------------------------------------------------------- the new table

  lemma HoldersDrop(news: Table, slot: Slot)
    requires slot in news
    ensures Holders(news - {slot}, news[slot]) == Holders(news, news[slot]) - {slot}
    ensures |Holders(news - {slot}, news[slot])| == |Holders(news, news[slot])| - 1
    ensures forall id :: id != news[slot] ==> Holders(news - {slot}, id) == Holders(news, id)
  {
    assert slot in Holders(news, news[slot]);
  }

  lemma HoldersPut(news: Table, slot: Slot, id: int)
    requires slot !in news
    ensures Holders(news[slot := id], id) == Holders(news, id) + {slot}
    ensures |Holders(news[slot := id], id)| == |Holders(news, id)| + 1
    ensures forall other :: other != id ==> Holders(news[slot := id], other) == Holders(news, other)
  {
    assert slot !in Holders(news, id);
  }

  /** A new entry starts loose. */
  lemma CreateTables(h: Hashes, infos: Infos, news: Table, tried: Table, id: int, info: AddrInfo)
    requires id !in infos && !info.fInTried && info.nRefCount == 0
    requires NewOk(h, infos, news) && TriedOk(h, infos, tried) && RefOk(infos, news, {})
    ensures var infos' := infos[id := info];
            && NewOk(h, infos', news) && TriedOk(h, infos', tried) && RefOk(infos', news, {id})
            && TriedIds(infos') == TriedIds(infos) && NewIds(infos') == NewIds(infos) + {id}
            && |NewIds(infos')| == |NewIds(infos)| + 1
  {
    CreateRefs(h, infos, news, id, info);
    hide RefOk, TriedSlot, NewSlot;
    var infos' := infos[id := info];
    assert id !in NewIds(infos);
    assert NewIds(infos') == NewIds(infos) + {id};
    assert TriedIds(infos') == TriedIds(infos);
  }

  lemma CreateRefs(h: Hashes, infos: Infos, news: Table, id: int, info: AddrInfo)
    requires id !in infos && !info.fInTried && info.nRefCount == 0
    requires NewOk(h, infos, news) && RefOk(infos, news, {})
    ensures RefOk(infos[id := info], news, {id})
  {
    assert forall s :: s in news ==> news[s] != id;
    assert Holders(news, id) == {};
    hide Holders, NewSlot, NewOk;
  }

  /** An entry can change its times, attempts, services and source without touching the tables. */
  lemma TouchTables(h: Hashes, infos: Infos, news: Table, tried: Table, loose: set<int>, id: int, info: AddrInfo)
    requires id in infos && info.service == infos[id].service
    requires info.fInTried == infos[id].fInTried && info.nRefCount == infos[id].nRefCount
    requires NewOk(h, infos, news) && TriedOk(h, infos, tried) && RefOk(infos, news, loose)
    ensures NewOk(h, infos[id := info], news) && TriedOk(h, infos[id := info], tried)
    ensures RefOk(infos[id := info], news, loose)
    ensures TriedIds(infos[id := info]) == TriedIds(infos) && NewIds(infos[id := info]) == NewIds(infos)
  {
    hide TriedSlot, NewSlot, Holders;
  }

  /** An address nobody refers to can be forgotten. */
  lemma ForgetTables(h: Hashes, infos: Infos, news: Table, tried: Table, loose: set<int>, id: int)
    requires id in infos && !infos[id].fInTried && infos[id].nRefCount == 0
    requires NewOk(h, infos, news) && TriedOk(h, infos, tried) && RefOk(infos, news, loose)
    ensures NewOk(h, infos - {id}, news) && TriedOk(h, infos - {id}, tried) && RefOk(infos - {id}, news, loose - {id})
    ensures TriedIds(infos - {id}) == TriedIds(infos) && NewIds(infos - {id}) == NewIds(infos) - {id}
    ensures |NewIds(infos - {id})| == |NewIds(infos)| - 1
  {
    assert Holders(news, id) == {};
    assert forall slot :: slot in news && news[slot] == id ==> slot in Holders(news, id);
    assert id in NewIds(infos);
  }

  /** Emptying a new slot takes one reference from its address. */
  lemma ClearTables(h: Hashes, infos: Infos, news: Table, tried: Table, loose: set<int>, slot: Slot)
    requires slot in news && NewOk(h, infos, news) && TriedOk(h, infos, tried) && RefOk(infos, news, loose)
    ensures var id := news[slot];
            && id in infos && infos[id].nRefCount > 0
            && var infos' := infos[id := infos[id].(nRefCount := infos[id].nRefCount - 1)];
            && NewOk(h, infos', news - {slot}) && TriedOk(h, infos', tried)
               && RefOk(infos', news - {slot}, loose + {id})
            && (infos'[id].nRefCount > 0 && id !in loose ==> RefOk(infos', news - {slot}, loose))
            && TriedIds(infos') == TriedIds(infos) && NewIds(infos') == NewIds(infos)
  {
    HoldersDrop(news, slot);
    var id := news[slot];
    assert slot in Holders(news, id);
  }

  /** What emptying a new slot does to the entries: its address loses one reference, and with the last
      one it is forgotten. */
  ghost predicate Cleared(infos: Infos, news: Table, slot: Slot, infos': Infos) {
    && (forall id :: id in infos' ==> id in infos)
    && (forall id :: id in infos ==>
          if slot in news && news[slot] == id then
            && (id in infos' <==> infos[id].nRefCount != 1)
            && (id in infos' ==> SameButPos(infos[id].(nRefCount := infos[id].nRefCount - 1), infos'[id]))
          else id in infos' && SameButPos(infos[id], infos'[id]))
  }

  lemma NoHolders(infos: Infos, news: Table, loose: set<int>, id: int)
    requires RefOk(infos, news, loose) && id in infos && !infos[id].fInTried
    requires forall slot :: slot in news ==> news[slot] != id
    ensures infos[id].nRefCount == 0
  {
    assert Holders(news, id) == {};
  }

  /** -1 marks exactly the empty slots. */
  lemma EmptyIs(h: Hashes, infos: Infos, addrs: map<nat, int>, random: seq<int>, nIdCount: int, news: Table,
                tried: Table, slot: Slot)
    requires IndexOk(infos, addrs, random, nIdCount) && NewOk(h, infos, news) && TriedOk(h, infos, tried)
    ensures At(news, slot) == -1 <==> slot !in news
    ensures At(tried, slot) == -1 <==> slot !in tried
  {
  }

  lemma Unheld(infos: Infos, news: Table, loose: set<int>, id: int, slot: Slot)
    requires RefOk(infos, news, loose) && id in infos && !infos[id].fInTried && infos[id].nRefCount == 0
    ensures slot in news ==> news[slot] != id
  {
    assert Holders(news, id) == {};
    assert slot !in Holders(news, id);
  }

  lemma Loosen(infos: Infos, news: Table, loose: set<int>, looser: set<int>)
    requires RefOk(infos, news, loose) && loose <= looser
    ensures RefOk(infos, news, looser)
  {
  }

  /** An address stands at most once in each bucket. */
  lemma HolderPlace(h: Hashes, infos: Infos, news: Table, slot: Slot)
    requires NewOk(h, infos, news) && slot in news
    ensures news[slot] in infos && !infos[news[slot]].fInTried
    ensures 0 <= slot.bucket < NEW_BUCKET_COUNT && slot == NewSlot(h, infos[news[slot]].service, slot.bucket)
  {
  }

  /** An address that is neither tried nor loose stands in some bucket. */
  lemma SomeHolder(h: Hashes, infos: Infos, news: Table, id: int) returns (slot: Slot)
    requires RefOk(infos, news, {}) && NewOk(h, infos, news) && id in infos && !infos[id].fInTried
    ensures slot in news && news[slot] == id
    ensures 0 <= slot.bucket < NEW_BUCKET_COUNT && slot == NewSlot(h, infos[id].service, slot.bucket)
  {
    assert Holders(news, id) != {};
    slot :| slot in Holders(news, id);
  }

  function Turn(n: nat, nRnd: nat): (bucket: nat)
    ensures bucket < NEW_BUCKET_COUNT
  {
    (n + nRnd) % NEW_BUCKET_COUNT
  }

  /** Counting from any start meets every bucket. */
  lemma MeetsBucket(nRnd: nat, bucket: nat) returns (n: nat)
    requires nRnd < NEW_BUCKET_COUNT && bucket < NEW_BUCKET_COUNT
    ensures n < NEW_BUCKET_COUNT && Turn(n, nRnd) == bucket
  {
    n := if bucket >= nRnd then bucket - nRnd else bucket + NEW_BUCKET_COUNT - nRnd;
  }

  /** Filling an empty slot gives a loose or under-referenced address one more reference. */
  lemma PutTables(h: Hashes, infos: Infos, news: Table, tried: Table, loose: set<int>, id: int, bucket: int)
    requires id in infos && !infos[id].fInTried && infos[id].nRefCount < NEW_BUCKETS_PER_ADDRESS
    requires 0 <= bucket < NEW_BUCKET_COUNT && NewSlot(h, infos[id].service, bucket) !in news
    requires NewOk(h, infos, news) && TriedOk(h, infos, tried) && RefOk(infos, news, loose)
    ensures var slot := NewSlot(h, infos[id].service, bucket);
            var infos' := infos[id := infos[id].(nRefCount := infos[id].nRefCount + 1)];
            && NewOk(h, infos', news[slot := id]) && TriedOk(h, infos', tried)
               && RefOk(infos', news[slot := id], loose - {id})
            && TriedIds(infos') == TriedIds(infos) && NewIds(infos') == NewIds(infos)
  {
    PutRefs(infos, news, loose, id, NewSlot(h, infos[id].service, bucket));
    hide TriedSlot, RefOk, Holders;
  }

  lemma PutRefs(infos: Infos, news: Table, loose: set<int>, id: int, slot: Slot)
    requires id in infos && !infos[id].fInTried && infos[id].nRefCount < NEW_BUCKETS_PER_ADDRESS && slot !in news
    requires RefOk(infos, news, loose)
    ensures RefOk(infos[id := infos[id].(nRefCount := infos[id].nRefCount + 1)], news[slot := id], loose - {id})
  {
    HoldersPut(news, slot, id);
    hide Holders;
  }

  // ---------------------------------------------------------------- between new and tried

  /** A loose address becomes tried in its empty slot. */
  lemma PromoteTables(h: Hashes, infos: Infos, news: Table, tried: Table, loose: set<int>, id: int)
    requires id in infos && !infos[id].fInTried && infos[id].nRefCount == 0
    requires TriedSlot(h, infos[id].service) !in tried
    requires NewOk(h, infos, news) && TriedOk(h, infos, tried) && RefOk(infos, news, loose)
    ensures var slot := TriedSlot(h, infos[id].service);
            var infos' := infos[id := infos[id].(fInTried := true)];
            && NewOk(h, infos', news) && TriedOk(h, infos', tried[slot := id]) && RefOk(infos', news, loose - {id})
            && TriedIds(infos') == TriedIds(infos) + {id} && NewIds(infos') == NewIds(infos) - {id}
            && |TriedIds(infos')| == |TriedIds(infos)| + 1 && |NewIds(infos')| == |NewIds(infos)| - 1
  {
    assert Holders(news, id) == {};
    assert forall slot :: slot in news && news[slot] == id ==> slot in Holders(news, id);
    var infos' := infos[id := infos[id].(fInTried := true)];
    assert id in NewIds(infos) && id !in TriedIds(infos);
    assert TriedIds(infos') == TriedIds(infos) + {id};
    assert NewIds(infos') == NewIds(infos) - {id};
    hide TriedSlot, NewSlot;
  }

  /** A tried address leaves its slot and becomes loose. */
  lemma DemoteTables(h: Hashes, infos: Infos, news: Table, tried: Table, loose: set<int>, slot: Slot)
    requires slot in tried
    requires NewOk(h, infos, news) && TriedOk(h, infos, tried) && RefOk(infos, news, loose)
    ensures var id := tried[slot];
            && id in infos && infos[id].fInTried && infos[id].nRefCount == 0
            && var infos' := infos[id := infos[id].(fInTried := false)];
            && NewOk(h, infos', news) && TriedOk(h, infos', tried - {slot}) && RefOk(infos', news, loose + {id})
            && TriedIds(infos') == TriedIds(infos) - {id} && NewIds(infos') == NewIds(infos) + {id}
            && |TriedIds(infos')| == |TriedIds(infos)| - 1 && |NewIds(infos')| == |NewIds(infos)| + 1
  {
    var id := tried[slot];
    var infos' := infos[id := infos[id].(fInTried := false)];
    assert forall s :: s in news ==> news[s] != id;
    assert Holders(news, id) == {};
    assert id !in NewIds(infos) && id in TriedIds(infos);
    assert TriedIds(infos') == TriedIds(infos) - {id};
    assert NewIds(infos') == NewIds(infos) + {id};
    hide TriedSlot, NewSlot;
  }

  /** A known address stands in the tried table exactly when it is tried, and in the new table otherwise. */
  lemma PlacesExact(h: Hashes, infos: Infos, news: Table, tried: Table)
    requires NewOk(h, infos, news) && TriedOk(h, infos, tried) && RefOk(infos, news, {})
    ensures forall id :: id in infos ==> (infos[id].fInTried <==> id in tried.Values)
    ensures forall id :: id in infos ==> (!infos[id].fInTried <==> id in news.Values)
  {
    forall id | id in infos
      ensures infos[id].fInTried <==> id in tried.Values
      ensures !infos[id].fInTried <==> id in news.Values
    {
      if infos[id].fInTried {
        assert tried[TriedSlot(h, infos[id].service)] == id;
      } else {
        var slot := SomeHolder(h, infos, news, id);
      }
    }
  }
}
