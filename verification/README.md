# Verified models of the node's core

This project models, in Dafny, the parts of the node where a mistake is hard to see and proves what callers rely on. Each component is one or a few modules:

| component | files | main results |
|---|---|---|
| Coins cache (`src/coins.cpp`, `src/txdb.cpp`) | `CoinsCache`, `CoinsStack` | a stack of caches of any depth refines a stack of plain maps with best blocks, for every run of operations; a database write interrupted any number of times can be completed |
| Address manager (`src/addrman.cpp`) | `AddrTables`, `AddrMan` | every run keeps the structural part of `Check_`; no internal assertion fires; occupied tried slots never become empty; every pending collision is visited and decided by the times alone |
| Event envelope (`chronik/event-envelope.cpp`) | `EventEnvelope`, `EnvelopeProofs`, `EnvelopeCalls`, `EnvelopeDrain` | no event is lost in silence; ring safety, in-order delivery, no lost wake-up, sticky failure, in every interleaving with old index reads; from every state exactly when draining is certain, and what the counters tell a caller about it |
| Check queue (`src/checkqueue.h`) | `CheckQueue`, `CheckQueueProofs` | `Wait` tells the truth and nobody is forgotten, for any number of workers |
| Query gate (`chronik/query-admission.h`, `chronik/node-observer.cpp`) | `QueryGate`, `QueryCalls` | every 200 or 404 linearizes at a step of its run and tells what the index holds there; the runtime is destroyed at most once and never used afterwards |
| Partial Merkle tree (`src/merkleblock.cpp`) | `MerkleTree`, `MerkleProof`, `MerkleBlock` | soundness against arbitrary proofs, completeness of built ones, through the wire format |
| Block tree and active chain (`src/chain.cpp`) | `BlockIndex`, `ActiveChain` | skip-list search equals the parent walk; early-stopping tip changes; forks and locators |
| 256-bit arithmetic and targets (`src/arith_uint256.cpp`) | `Limbs`, `LimbShift`, `LimbDivide`, `Compact`, `Target` | limb arithmetic is exact modulo the width; the compact format; block proof |
| Base58 (`src/base58.cpp`) | `Numerals`, `Base58`, `Base58Codec` | a bijection; the buffer sizes always suffice |
| CashAddr (`src/cashaddr.cpp`) | `CashChecksum`, `CashAddr`, `CashCodec`, `CashText`, `CashShort` | exactly which strings are accepted, in either case; created checksums verify and are unique; bursts of up to eight are detected; round trips; exactly when a string is too short for its own checksum |
| Rolling bloom filter (`src/bloom.cpp`) | `RollingBloom` | the insertions of the present generation and the 2 * ceil(n / 2) before it are always found |
| Golomb-coded set (`src/blockfilter.cpp`) | `GolombCode`, `GolombSet` | matching is exact on mapped values, through the bit encoding; what any received filter matches |
| Cuckoo cache (`src/cuckoocache.h`) | `CuckooCache` | keys stay in their own places, each once; an insertion drops at most one kept key |

`Powers` holds the facts about products, quotients and powers of two that several of them use, and `Common` the option type, word sizes and maximum they share. `dafny verify dfyconfig.toml` checks everything.

## How the parts are modelled

- Objects whose methods change fields are classes; loops over buffers are methods with loop invariants, proved against functions of the inputs. The block index has constant parent links and a mutable skip link.
- The three concurrent components are step relations. A step is one atomic load or store or one mutex section, a run is any interleaving, and the theorems are about every state of every run. In the envelope an index load may return an older value, as acquire loads may; the worker never goes back behind an index it has seen, or that was stored before it last held the mutex. Flag loads return the current value.
- Hashes (pair hash, bucket hashes, filter hashes, cache hashes) are function parameters. Where a result needs it, the pair hash is assumed injective. Clocks and random draws are parameters, so the results hold for every choice.
- Integer widths are written out where they matter: the 32-bit tree width, 64-bit products, limbs, the compact word, the sticky 64-bit change counter.

## Where the code and its comments disagree

- `chronik/event-envelope.h:81` announces that Shutdown drains. `EnvelopeDrain.DrainCanMissEvent` gives runs in which it does not, without any old load, `EnvelopeDrain.DrainExact` says for every stopped state whether it is certain to, and `EnvelopeDrain.CountersDecide` that a caller who sees only the counters can rely on it exactly when they are equal.
- `src/coins.cpp:125-136`: an add that claims not to overwrite marks the coin FRESH. `CoinsCache.AddEntryHonestIff` says exactly when that is right.
- `src/merkleblock.cpp:152-156`: the height loop covers the list only up to 2^31 ids (`MerkleTree.HeightCoversListIff`).
- `src/cuckoocache.h:465-467` says that the first displaced place is the first of the eight. The expression selects the second (`CuckooCache.NextPlace`).
- `src/cuckoocache.h:471` says that the rule never moves the element just put in. It does when the next place of the element in hand coincides with the last one (`CuckooCache.PlaceRepeatsIff`).
- `src/cashaddr.cpp:291-296` takes the last eight values of any list that verifies for its checksum. Fewer than eight can verify (`CashShort.ShortAddressExists`), and the range returned then starts outside the buffer. `CashCodec.TooShortIff` says exactly when, `CashCodec.EightCharactersSuffice` gives the test a caller can make first, and `CashShort.NetworkPrefixSuffices` shows that the prefixes of `src/chainparams.cpp` are never affected.

## Model

| member | source | states |
|---|---|---|
| `CoinsCache.FlushPassesView` | src/coins.cpp:205-268 | In a layer whose flags are honest, writing only the dirty entries to the layer below shows everything the layer showed. |
| `CoinsCache.OverlayUpdate` | src/coins.cpp:207-265 | Changing one entry changes the layer's view at that outpoint only. |
| `CoinsCache.LoadEntry` | src/coins.cpp:72-94 | Caching an unspent coin found below changes neither the view nor the honesty of the flags, and adds exactly its size to the usage. |
| `CoinsCache.AddEntry` | src/coins.cpp:113-139 | An add shows the new coin in the view, and leaves an honest layer if and only if it was declared a possible overwrite, the coin was cached, or the layer below has none. |
| `CoinsCache.AddEntryHonestIff` | src/coins.cpp:125-136 | An add marked as no overwrite leaves honest flags if and only if the layer below has no such coin; exactly then a later spend really removes it, otherwise the coin below shows again. |
| `CoinsCache.SpendEntry` | src/coins.cpp:156-172 | Erasing a FRESH entry or blanking and dirtying another one removes the coin from the view and keeps the flags honest. |
| `CoinsCache.UncacheEntry` | src/coins.cpp:277-283 | Dropping an entry without flags changes nothing visible. |
| `CoinsCache.MergeOne` | src/coins.cpp:210-264 | Merging one dirty child entry keeps the parent honest and writes the child's coin, or its absence, into the parent's view, for every combination of flags. |
| `CoinsCache.MergeNext` | src/coins.cpp:207-265 | One more merged entry advances the partly merged view by exactly that entry, whatever the order. |
| `CoinsCache.MergeEnds` | src/coins.cpp:207-265 | The partly merged view starts as the parent's and ends as the parent's overlaid with all dirty entries. |
| `CoinsCache.MergeUsage` | src/coins.cpp:223-256 | The usage counter changes by the size of what enters minus the size of what leaves. |
| `CoinsCache.ChildPromises` | src/coins.cpp:233-242 | A valid child never raises the misapplied-FRESH error in its parent. |
| `CoinsCache.CoinsViewDB.BatchWrite` | src/txdb.cpp:97-163 | However the entries are split into batches, the database ends with the old set overlaid with the dirty entries and the new block as its best one; every state written before the last carries the marker of both blocks and a part of the change. |
| `CoinsCache.RedoCompletes` | src/txdb.cpp:106-121 | From any state an interrupted write can leave, the test on the marked blocks passes, the block the first write started from is taken up again, and writing the same entries ends where an undisturbed write would. |
| `CoinsCache.RedoInterrupted` | src/txdb.cpp:106-121 | An interruption of the second write leaves a state the first one could have left, so the same holds after any number of interruptions. |
| `CoinsCache.CoinsViewCache.OnDB` | src/coins.cpp:65-66 | A new cache on a database shows the database. |
| `CoinsCache.CoinsViewCache.constructor` | src/coins.cpp:65-66 | A new cache on another cache shows that cache and leaves the rest of the stack alone. |
| `CoinsCache.CoinsViewCache.FetchCoin` | src/coins.cpp:72-94 | Loads the entry from below if there is an unspent coin; no layer's view changes; usage counters stay exact. |
| `CoinsCache.CoinsViewCache.GetCoin` | src/coins.cpp:96-103 | Answers exactly from the view, at any depth of caches. |
| `CoinsCache.CoinsViewCache.HaveCoin` | src/coins.cpp:184-187 | True exactly when the view has the coin. |
| `CoinsCache.CoinsViewCache.GetBestBlock` | src/coins.cpp:194-199 | Answers the best block of the nearest layer that knows one; the layers passed on the way remember it; no view changes. |
| `CoinsCache.LookedKnows` | src/coins.cpp:194-199 | Remembering changes the answer of no layer, now or later in the list. |
| `CoinsCache.CoinsViewCache.SetBestBlock` | src/coins.cpp:201-203 | Sets this layer's best block and nothing else. |
| `CoinsCache.CoinsViewCache.AddCoin` | src/coins.cpp:113-139 | Puts the coin into the view, skips unspendable ones, and reports an unspent cached coin that was not to be overwritten, after having already reduced the usage counter; the layer stays valid if and only if a coin claimed to be new was not visible from below. |
| `CoinsCache.CoinsViewCache.SpendCoin` | src/coins.cpp:156-172 | Removes the coin from the view, hands out what was there, and answers true also for a spent entry still cached; a fresh entry is erased and any other left as a dirty tombstone. |
| `CoinsCache.CoinsViewCache.Uncache` | src/coins.cpp:277-283 | Drops exactly an unmodified entry; the view stays. |
| `CoinsCache.CoinsViewCache.MergeEntry` | src/coins.cpp:210-264 | One round of the merge loop against the merged-entry function. |
| `CoinsCache.CoinsViewCache.MergeAll` | src/coins.cpp:207-265 | The merge loop, in any order of the child's entries, reaches the overlay of all dirty ones. |
| `CoinsCache.CoinsViewCache.BatchWrite` | src/coins.cpp:205-268 | Succeeds exactly when no FRESH promise is broken; then the view is the old one overlaid with the child's dirty entries and the layer's best block is the child's. |
| `CoinsCache.CoinsViewCache.Flush` | src/coins.cpp:270-275 | The layer below then shows what this one showed and has its best block, every other layer keeps its own, this one is empty and shows the same, and the error cannot occur. |
| `CoinsStack.Apply` | src/coins.cpp:65-283 | One operation on a stack of caches does to the views and best blocks of all layers what it does to a plain stack, with the same answer. |
| `CoinsStack.Run` | src/coins.cpp:65-283 | Any run of operations from any valid stack, at any depth, refines the run on plain maps with best blocks, answers included. |
| `CoinsStack.SetAndFlushed` | src/coins.cpp:201-275 | Setting a best block and flushing layer by layer to the bottom, from any height, leaves the database with that block and with what the top showed. |
| `CoinsStack.DatabaseHolds` | src/coins.cpp:270-275 | After any run the database holds what it held at first or, coins and best block together, what the lowest cache showed and had stored when it was last flushed. |
| `AddrTables.NewBucket` | src/addrman.cpp:24-34 | The new bucket of an address is a valid bucket. |
| `AddrTables.SwapIndex` | src/addrman.cpp:118-136 | Swapping two positions keeps the id map, address map and random vector inverse to one another. |
| `AddrTables.DropLast` | src/addrman.cpp:145-148 | The address at the end of the random vector can be dropped from all three. |
| `AddrTables.AppendIndex` | src/addrman.cpp:107-111 | A new id can be appended to all three. |
| `AddrTables.ClearTables` | src/addrman.cpp:151-163 | Emptying a new slot takes exactly one reference from its address. |
| `AddrTables.PutTables` | src/addrman.cpp:364-367 | Filling an empty new slot adds exactly one reference and keeps the tables in order. |
| `AddrTables.PromoteTables` | src/addrman.cpp:208-210 | An address without references becomes tried in its empty slot; the tried count grows and the new count shrinks by one. |
| `AddrTables.DemoteTables` | src/addrman.cpp:186-193 | A tried address leaves its slot and is new without references. |
| `AddrTables.CollisionHasHolder` | src/addrman.cpp:720-729 | A pending address that is still known waits for a slot held by a known tried address. |
| `AddrTables.RandomHolds` | src/addrman.cpp:465-467 | The random vector holds every known id exactly once. |
| `AddrTables.TriedXorNew` | src/addrman.cpp:473-492 | Every known address is tried or new and not both. |
| `AddrTables.PlacesExact` | src/addrman.cpp:511-550 | An address stands in the tried table exactly when it is tried and in the new table exactly when it is not. |
| `AddrTables.MeetsBucket` | src/addrman.cpp:246-256 | Counting from any random start visits every new bucket. |
| `AddrTables.TerribleIff` | src/addrman.cpp:44-72 | When an address counts as terrible, as one condition on its times and attempts; one with a success, no failed attempt since and a time within thirty days never does. |
| `AddrMan.Accepts` | src/addrman.cpp:334-343 | The draw passes with odds one in two to the number of references. |
| `AddrMan.Quota` | src/addrman.cpp:562-565 | At most 2500 addresses and at most 23 percent of those known, and as many as that allows. |
| `AddrMan.Draw` | src/addrman.cpp:573 | The drawn position lies between the current one and the end. |
| `AddrMan.AddrMan.constructor` | src/addrman.h:496-520 | A fresh manager satisfies the invariant with all tables empty. |
| `AddrMan.AddrMan.Find` | src/addrman.cpp:90-103 | Finds the id of a host, or tells that no entry has it. |
| `AddrMan.AddrMan.Create` | src/addrman.cpp:105-116 | Adds one entry under the next id with no bucket yet. |
| `AddrMan.AddrMan.SwapRandom` | src/addrman.cpp:118-136 | Swaps two positions and nothing else, keeping all entries. |
| `AddrMan.AddrMan.Delete` | src/addrman.cpp:138-149 | Forgets exactly one untried entry without references. |
| `AddrMan.AddrMan.ClearNew` | src/addrman.cpp:151-163 | Empties a slot; its address loses one reference and is forgotten exactly with its last one. |
| `AddrMan.AddrMan.LeaveNew` | src/addrman.cpp:165-177 | After the loop over all buckets the address stands in none and its reference count is zero, as the source asserts. |
| `AddrMan.AddrMan.EvictTried` | src/addrman.cpp:183-205 | The holder of a tried slot moves to its own new bucket with one reference; whoever stood there loses one reference and with the last one is forgotten; every other entry and slot stays. |
| `AddrMan.AddrMan.MakeTried` | src/addrman.cpp:165-211 | The address leaves every new bucket and takes its tried slot; an evicted holder is new again with one reference; apart from whoever stood in its place nothing else changes; no assertion of the source can fail. |
| `AddrMan.AddrMan.FindNewBucket` | src/addrman.cpp:246-262 | The search always finds a bucket, so the "something bad happened" exit is never taken. |
| `AddrMan.AddrMan.Good` | src/addrman.cpp:213-289 | Unknown host or other port: only the last-good time changes. Otherwise its times are set and the address becomes tried, its slot's holder new again, or it joins the pending set exactly when the slot is held and testing is asked for; the whole new state of entries and tables is stated. |
| `AddrMan.AddrMan.Place` | src/addrman.cpp:352-371 | The slot goes to the address exactly when it is its own, free, or held by one that is terrible or has other references while the address has none; the occupant loses a reference; an address left without any is forgotten; nothing else changes. |
| `AddrMan.AddrMan.Add` | src/addrman.cpp:291-373 | Unroutable addresses change nothing; the result tells whether the address was unknown; an unknown one gets the next id with the penalized time and stays exactly when its slot yields; a known one is brought up to date and gains a reference as for Known; no penalty for an address announcing itself. |
| `AddrMan.AddrMan.Known` | src/addrman.cpp:306-343 | Updates time and services of a known address, lets it gain a reference exactly under the source's conditions and draw, and changes no other entry but the one displaced. |
| `AddrMan.TimeSteps` | src/addrman.cpp:306-314 | The time of a known address never goes back, moves only by more than an hour, or a day for old announcements, and only to the announced time less the penalty. |
| `AddrMan.AnnouncedTwice` | src/addrman.cpp:306-317 | The same announcement again changes nothing more. |
| `AddrMan.AddrMan.Attempt` | src/addrman.cpp:375-398 | Changes only the addressed entry, counting the attempt once per last success. |
| `AddrMan.AddrMan.ResolveOne` | src/addrman.cpp:634-699 | An unknown or invalid pending address is forgotten; otherwise the collision is settled if and only if the holder succeeded within four hours, or was tried within four hours and has not answered for a minute, or was not tried and the pending address has waited forty minutes; the slot changes hands in the last two cases only; the branch for an empty slot is dead. |
| `AddrMan.AddrMan.ResolveNext` | src/addrman.cpp:634-699 | The same with a settled collision gone from the pending ones, and no other. |
| `AddrMan.AddrMan.ResolveCollisions` | src/addrman.cpp:627-701 | Every pending id is visited exactly once, in increasing order, each in the state the visit before it left, and resolved as ResolveOne says there; the invariant and all occupied tried slots are kept. |
| `AddrMan.WaitEnds` | src/addrman.cpp:656-689 | No collision waits forever: forty minutes after the pending address's last success and a minute after the holder's last test it is settled. |
| `AddrMan.AddrMan.SelectTriedCollision` | src/addrman.cpp:703-730 | Whenever it returns an entry it is a known tried address in the pending one's slot; id -1 is never looked up. |
| `AddrMan.AddrMan.GetAddr` | src/addrman.cpp:561-582 | Returns distinct addresses that are not terrible, at most the quota, and all of them when below it; only random positions change. |
| `AddrMan.AddrMan.Apply` | src/addrman.cpp:90-730 | Every operation keeps the whole invariant and no occupied tried slot ever becomes empty. |
| `AddrMan.Run` | src/addrman.cpp:461-558 | After any run from a fresh manager the structural tests of Check_ hold: counts, inverse maps, places, reference counts. |
| `EnvelopeProofs.PosDistinct` | chronik/event-envelope.cpp:304 | Indexes less than a capacity apart use different slots. |
| `EnvelopeProofs.StepInv` | chronik/event-envelope.cpp:63-333 | Every atomic step of worker and callers keeps the invariant, index loads being allowed to return old values. |
| `EnvelopeProofs.RunInv` | chronik/event-envelope.cpp:63-333 | The invariant holds in every state of every interleaving. |
| `EnvelopeProofs.RingSafety` | chronik/event-envelope.cpp:277-326 | Write minus read stays within capacity, the slots between hold exactly the accepted unread events in order, worker and producer never touch one slot at once, and two producers are never inside together. |
| `EnvelopeProofs.SlotChecksNeverFire` | chronik/event-envelope.cpp:109-113 | Neither the worker's nor the producer's slot check ever finds the wrong state. |
| `EnvelopeProofs.DeliveryInOrder` | chronik/event-envelope.cpp:119-142 | Consumer calls form a prefix of the accepted events and see 1, 2, 3, ... without gap or repeat; the counters follow. |
| `EnvelopeProofs.NoLostWakeup` | chronik/event-envelope.cpp:86-107 | A sleeping worker whose wake condition holds always has a notify on its way. |
| `EnvelopeProofs.FailureAndStopAreFinal` | chronik/event-envelope.cpp:48-61 | Failure sets both flags at once and stays, stopping stays, and after either nothing is accepted. |
| `EnvelopeProofs.AfterFailure` | chronik/event-envelope.cpp:74-133 | After a failure at most one more consumer call begins, however long the run goes on. |
| `EnvelopeProofs.AfterStop` | chronik/event-envelope.cpp:312-326 | After the stop store nothing more is accepted in any continuation. |
| `EnvelopeCalls.SubmitAccounted` | chronik/event-envelope.cpp:262-333 | For every call of Submit in every run: when it has returned, its own step has appended the event to the accepted ones, or the envelope has failed, or it is stopping; without a sequence number it has failed. So a full ring, a busy producer, an occupied slot or a failed copy never loses an event in silence. |
| `EnvelopeCalls.CallsTakeEffect` | chronik/event-envelope.cpp:335-413 | When MarkDegraded has returned the envelope has failed; when Shutdown has, it is stopping and the worker has left or the envelope has failed. |
| `EnvelopeCalls.RefusalFails` | chronik/event-envelope.cpp:119-142 | An event with a wrong number or not accepted by the consumer, or the last number, is not counted, no other is begun, and the worker only leaves after failing the envelope. |
| `EnvelopeCalls.FailureLeads` | chronik/event-envelope.cpp:48-61 | A worker about to fail the envelope has failed it after one step and left after two. |
| `EnvelopeCalls.ExpectedFits` | chronik/event-envelope.cpp:138-142 | The expected number never leaves 64 bits. |
| `EnvelopeCalls.IdleWorkerSleeps` | chronik/event-envelope.cpp:81-105 | With nothing to do every step of the worker brings it one nearer to sleeping, and nothing else ends its round. |
| `EnvelopeCalls.WakeLeadsToWork` | chronik/event-envelope.cpp:75-109 | A sleeping worker with something to do, once woken, leaves or takes the next event within five steps. |
| `EnvelopeCalls.ProcessedWasAccepted` | chronik/event-envelope.cpp:124-137 | In every run, every event counted as processed was accepted by the consumer in a call of its own. |
| `EnvelopeDrain.RunSeen` | chronik/event-envelope.cpp:81-106 | In every state of every run the newest write index the worker has seen lies between the two indexes, and a worker that left without a failure has processed exactly what it had seen. |
| `EnvelopeDrain.ChainKeepsDraining` | chronik/event-envelope.cpp:78-142 | Once draining is certain it stays certain in every continuation until something fails. |
| `EnvelopeDrain.LeavesShort` | chronik/event-envelope.cpp:81-88 | When it is not, there is a way out without a failure that leaves events behind. |
| `EnvelopeDrain.DrainExact` | chronik/event-envelope.cpp:359-377 | From every stopped, undegraded state of every run, wherever the worker is: each way to leave without a failure has processed all that was accepted, if and only if the worker has seen the last index, is asleep or at its locked test, is failing, or has seen an event with a wrong number that it must take first. |
| `EnvelopeDrain.DrainOfCounted` | chronik/event-envelope.cpp:341-357 | When the accepted and processed counters agree at the stop, nothing can be left behind. |
| `EnvelopeDrain.DrainExactWhenCurrent` | chronik/event-envelope.cpp:81-88 | If every index load returns the current value, draining is certain if and only if the worker is not, with something unread, between comparing the indexes and looking at the stop flag, or already gone. |
| `EnvelopeDrain.DrainCanMissEvent` | chronik/event-envelope.cpp:78-88 | For every capacity, every number p of processed events and every n that fit: a run with current loads in which p + n events are accepted and every Submit has returned before Shutdown is called, and the worker leaves without a failure having processed p, against the drain that chronik/event-envelope.h announces. |
| `EnvelopeDrain.StopsBehindFullRing` | chronik/event-envelope.cpp:81-88 | With the largest possible difference, one event in the worker's hands and the ring full behind it, there is a stopped state from which the worker can leave events behind. |
| `EnvelopeDrain.CountersPossible` | chronik/event-envelope.cpp:341-357 | In every state of every run accepted exceeds processed by at most the capacity and one. |
| `EnvelopeDrain.CountersDecide` | chronik/event-envelope.cpp:341-357 | For every pair of counters a state can show: all stopped states that show them are certain to drain if and only if the two are equal. |
| `CheckQueueProofs.BatchFits` | src/checkqueue.h:108-110 | The batch size is between one and the queue's length, also while threads wait or the master helps. |
| `CheckQueueProofs.BatchIsShare` | src/checkqueue.h:108-110 | Beyond one it is the largest size within the limit that leaves equal shares for all threads, idle ones counted twice, and one more. |
| `CheckQueueProofs.ReportInv` | src/checkqueue.h:74-85 | Reporting a batch keeps the counters equal to what is queued and held. |
| `CheckQueueProofs.ReturnInv` | src/checkqueue.h:88-95 | When the master returns no thread holds a check, the flag is the verdict of the whole session, and the next session starts clean. |
| `CheckQueueProofs.AddInv` | src/checkqueue.h:149-161 | Adding checks keeps the invariant, whichever waiting workers are woken. |
| `CheckQueueProofs.StepInv` | src/checkqueue.h:63-161 | Every section, wake-up, batch run, Add and Wait of any number of threads keeps the invariant. |
| `CheckQueueProofs.RunInv` | src/checkqueue.h:63-161 | The invariant holds in every state of every interleaving. |
| `CheckQueueProofs.WaitTellsTheTruth` | src/checkqueue.h:146 | nTodo is always queued plus held checks, and every verdict returned is true exactly when all checks added since the previous return would be true. |
| `CheckQueueProofs.NobodyIsForgotten` | src/checkqueue.h:77-98 | While the master sleeps un-notified some worker holds a non-empty batch, and queued work never waits for workers that all sleep un-notified. |
| `CheckQueueProofs.SectionsAreProper` | src/checkqueue.h:108-118 | No section divides by zero or pops more than there is. |
| `QueryGate.StepInv` | chronik/node-observer.cpp:183-310 | Every step of queries, mutations, closing and destruction keeps mutual exclusion, handle ownership and the tips that queries have read in order. |
| `QueryGate.RunInv` | chronik/node-observer.cpp:183-310 | The invariant holds in every state of every interleaving, with the active tip moving freely. |
| `QueryGate.AnswersLinearize` | chronik/node-observer.cpp:195-285 | Every answer other than 503 has steps of its thread in the run that read the tip, match it before reading and match it again; at the last one the gate is open, active and indexed tip are the same, and the index is untouched in every state since the first. It is 200 if the index then holds what was asked for and 404 if not; 404 if and only if the runtime reported nothing at the first stage, 200 if and only if every stage of its kind was passed. |
| `QueryGate.IndexStandsStill` | chronik/node-observer.cpp:187-193 | While a query is between its first tip read and its answer no step changes the index. |
| `QueryGate.RuntimeIsSafe` | chronik/node-observer.cpp:288-299 | The runtime is destroyed at most once and never called without a live handle. |
| `QueryGate.ClosedIsFinal` | chronik/query-admission.h:34-36 | Closing is irreversible, and an answer other than 503 found at any later state was already decided when the gate closed. |
| `QueryGate.LateQueriesTurnedAway` | chronik/node-observer.cpp:198-201 | A query that finds the gate closed before its tip read never reaches the runtime and is answered 503. |
| `QueryGate.ClosingEndsMutations` | chronik/node-observer.cpp:187-193 | Once Destroy has announced itself no mutation begins; at most the one under way still takes effect. |
| `QueryGate.ClosingIsDone` | chronik/node-observer.cpp:288-299 | After CloseQueries the gate is closed, after Destroy also mutations and the handle; a runtime that was there is with the handle, with a destroying thread, or destroyed, and never lost. |
| `QueryGate.QueriesNeverWait` | chronik/query-admission.h:18-24 | A query never waits for another thread and every step of its own brings it nearer to its answer. |
| `QueryCalls.CallsGoOn` | chronik/node-observer.cpp:183-300 | Every own step of any call, query, mutation, destruction or closing, brings it nearer to the end of its own kind. |
| `QueryCalls.OnlyHoldersBlock` | chronik/node-observer.cpp:187-188 | Whoever waits for the mutex waits for a thread that can go on. |
| `QueryCalls.UsesAreLive` | chronik/node-observer.cpp:195-285 | At every tip read, reading stage and mutation the handle is set and nothing was destroyed. |
| `QueryCalls.MutationAccounted` | chronik/node-observer.cpp:187-193 | A mutation that has returned has changed the index once, or was refused because the runtime is closing or gone. |
| `MerkleTree.WidthIsCeiling` | src/merkleblock.h:70-72 | The level-by-level width is the rounded-up quotient. |
| `MerkleTree.HeightCoversListIff` | src/merkleblock.cpp:152-156 | The counted height covers the list if and only if it has at most 2^31 ids; above that the 32-bit sum wraps. |
| `MerkleTree.SiblingsDiffer` | src/merkleblock.cpp:131-136 | With an injective pair hash and distinct ids no two nodes of a level are equal, so the duplicate test never rejects an honest proof. |
| `MerkleTree.MatchedInIsExact` | src/merkleblock.cpp:73-82 | The listed matches are exactly the set mask positions of a range, in increasing order. |
| `MerkleProof.BuildSize` | src/merkleblock.cpp:73-95 | A subtree's proof has no more hashes than leaves and a bit for each hash. |
| `MerkleProof.BuildHashBound` | src/merkleblock.cpp:73-95 | At most one hash plus one per match and level. |
| `MerkleProof.ExtractSound` | src/merkleblock.cpp:97-144 | A consistent traversal that arrives at a node's true hash extracts only genuine entries under that node. |
| `MerkleProof.Soundness` | src/merkleblock.cpp:165-216 | Whatever bits and hashes a proof carries, if it is accepted and leads to the root of a list of that length, every extracted pair is the list's entry at that index and the indices increase. |
| `MerkleProof.ExtractComplete` | src/merkleblock.cpp:97-144 | A subtree's own proof, wherever it stands in the data, reads back to the node's hash, its matches and its end. |
| `MerkleProof.Completeness` | src/merkleblock.cpp:146-216 | For distinct ids and any mask the built proof is accepted, leads to the root and gives exactly the matches; all size and padding tests pass. |
| `MerkleProof.RootMatchesAll` | src/merkleblock.cpp:152-156 | Up to 2^31 ids the matches under the root are all matches. |
| `MerkleProof.AcceptsIffNothingLeft` | src/merkleblock.cpp:202-215 | A built proof with anything after it is accepted if and only if no hash and no whole byte of flags is left over. |
| `MerkleBlock.PackBits` | src/merkleblock.h:114-118 | Byte p / 8, bit p % 8 is flag p; padding bits are zero. |
| `MerkleBlock.UnpackBits` | src/merkleblock.h:107-112 | Flag p is bit p % 8 of byte p / 8. |
| `MerkleBlock.TreeHeight` | src/merkleblock.cpp:152-156 | The counting loop computes the height function. |
| `MerkleBlock.PartialMerkleTree.constructor` | src/merkleblock.cpp:146-161 | The recursive builder appends exactly the specified proof. |
| `MerkleBlock.PartialMerkleTree.FromWire` | src/merkleblock.h:101-121 | A received tree holds the wire's hashes and flags. |
| `MerkleBlock.PartialMerkleTree.ScanForMatch` | src/merkleblock.cpp:76-82 | The scan finds a match below the node exactly when there is one. |
| `MerkleBlock.PartialMerkleTree.TraverseAndBuild` | src/merkleblock.cpp:73-95 | Appends the specified bits and hashes. |
| `MerkleBlock.PartialMerkleTree.TraverseAndExtract` | src/merkleblock.cpp:97-144 | Consumes bits and hashes, appends matches and raises the bad flag exactly as specified. |
| `MerkleBlock.PartialMerkleTree.ExtractMatches` | src/merkleblock.cpp:165-216 | Root or null hash, ids and appended indices for every input, on each rejection path too. |
| `MerkleBlock.ProveAndVerify` | src/merkleblock.cpp:146-216 | Building, packing, unpacking and extracting returns the root and exactly the matched ids and indices. |
| `MerkleBlock.ReadWithMore` | src/merkleblock.cpp:165-216 | Extracting from a built proof with hashes or bytes added gives the null root unless nothing was added. |
| `MerkleBlock.ReadProof` | src/merkleblock.cpp:165-216 | Whatever arrives over the wire: if the root returned is not null and is the root of a list of the claimed length, every extracted pair is that list's entry at that index. |
| `BlockIndex.LowestOneCleared` | src/chain.cpp:84-86 | n & (n - 1) takes away the largest power of two that divides n. |
| `BlockIndex.SkipGoesDown` | src/chain.cpp:89-99 | The skip height is always below the height. |
| `BlockIndex.SkipExact` | src/chain.cpp:89-99 | An even height loses its lowest one bit, an odd height keeps its last and loses the next two, as far as there are any. |
| `BlockIndex.AncestorTrans` | src/chain.cpp:101-125 | An ancestor's ancestor is the block's own. |
| `BlockIndex.Block.GetAncestor` | src/chain.cpp:101-125 | Following skip links finds the same block as walking parents, for every height including those out of range. |
| `BlockIndex.Block.BuildSkip` | src/chain.cpp:132-136 | The link leads to the ancestor at the skip height, and every other link of the tree stays right. |
| `BlockIndex.AddBlock` | src/chain.cpp:132-136 | Any tree grown block by block has right skip links. |
| `BlockIndex.StaysApart` | src/chain.cpp:184-193 | Two blocks that differ at one height differ at every height above it. |
| `BlockIndex.LastCommonAncestor` | src/chain.cpp:176-198 | Returns the highest common ancestor, or null exactly when there is none; the height assertion holds. |
| `ActiveChain.SameGenerationSameTip` | src/util/source_generation.h:15-31 | Two equal nonzero readings mean that the tip never moved between them, not even there and back. |
| `ActiveChain.CountsUntilFull` | src/util/source_generation.h:16-30 | The counter counts the tip changes exactly while they fit in 64 bits and then stays zero. |
| `ActiveChain.LocatorLength` | src/chain.cpp:29-58 | A locator has at most eleven entries more than the rounded-up logarithm of the height, and its step stays below twice the height. |
| `ActiveChain.Chain.SetTip` | src/chain.cpp:11-27 | Stopping early still leaves every height holding the tip's ancestor; the change counter advances exactly when the tip moves. |
| `ActiveChain.Chain.SetTips` | src/chain.cpp:11-27 | The same after any run of tip changes. |
| `ActiveChain.Chain.FindFork` | src/chain.cpp:60-71 | Returns the highest block shared with the active chain, or null when there is none. |
| `ActiveChain.Chain.Earlier` | src/chain.cpp:45-51 | The chain index and the skip list give the same ancestor. |
| `ActiveChain.Chain.GetLocator` | src/chain.cpp:29-58 | Entry k is the ancestor at its exact distance, heights strictly fall, the first is the block and the last is genesis, within the length bound. |
| `Base58.LetterInverse` | src/base58.cpp:16-33 | The table maps each letter of the alphabet back to its digit. |
| `Base58.MapInverse` | src/base58.cpp:16-33 | Every character the table accepts is the letter of its value. |
| `Base58.EncodeBufferSuffices` | src/base58.cpp:102-105 | 138/100 digits and one more always hold the number. |
| `Base58.DecodeBufferSuffices` | src/base58.cpp:47-50 | 733/1000 bytes and one more always hold the number. |
| `Numerals.ValDigits` | src/base58.cpp:122-134 | A number's shortest digits read back as the number. |
| `Numerals.DigitsVal` | src/base58.cpp:122-134 | Digits without leading zero are the shortest digits of their number. |
| `Numerals.MultiplyAdd` | src/base58.cpp:108-119 | One pass over the buffer multiplies and adds exactly; the carry is zero at the end whenever the result fits. |
| `Base58Codec.EncodeBase58` | src/base58.cpp:94-135 | Returns a 1 for each leading zero byte and the number in base 58; the carry assertion holds. |
| `Base58Codec.DecodeBase58` | src/base58.cpp:35-92 | Accepts exactly valid text between optional spaces and returns a zero byte for each leading 1 and the number in base 256; the carry assertion holds. |
| `Base58Codec.ToBase58` | src/base58.cpp:102-121 | The digit buffer holds the bytes' number. |
| `Base58Codec.ToBase256` | src/base58.cpp:47-72 | The byte buffer holds the characters' number, or an invalid character was found. |
| `Base58Codec.SkipLeading` | src/base58.cpp:122-126 | What follows the leading zeros are the number's shortest digits. |
| `Base58Codec.DecodeEncode` | src/base58.cpp:35-135 | Decoding undoes encoding for every byte string. |
| `Base58Codec.EncodeDecode` | src/base58.cpp:35-135 | Encoding undoes decoding for every accepted string, up to surrounding spaces. |
| `Base58Codec.EncodeDecodePlain` | src/base58.cpp:35-135 | On text without spaces decoding succeeds exactly for valid characters and encoding is its inverse. |
| `CashChecksum.PolyMod` | src/cashaddr.cpp:42-147 | The loop computes the folded residue. |
| `CashChecksum.StepLinear` | src/cashaddr.cpp:107-140 | One step is linear over exclusive or. |
| `CashChecksum.StepZero` | src/cashaddr.cpp:107-140 | Multiplying by x keeps nonzero residues nonzero. |
| `CashChecksum.FoldLinear` | src/cashaddr.cpp:78-141 | Adding two lists of equal length adds their residues. |
| `CashChecksum.BurstDetected` | src/cashaddr.cpp:42-147 | Two lists of any length that differ only inside a window of at most eight positions never both verify. |
| `CashChecksum.ChecksumVerifies` | src/cashaddr.cpp:183-197 | Appending the eight groups of the residue of eight zeros makes any list verify. |
| `CashChecksum.VerifiesIff` | src/cashaddr.cpp:176-178 | A list verifies if and only if its last values, read from zero, equal the residue the rest has with zeros in their place. |
| `CashChecksum.TailVerifiesIff` | src/cashaddr.cpp:176-197 | Up to eight values after any list verify if and only if they are the low groups of its residue and the groups above them are zero. |
| `CashChecksum.TailExistsIff` | src/cashaddr.cpp:176-197 | Some k values do if and only if the upper 8 - k groups are zero, and never two different lists. |
| `CashAddr.ValueOfChar` | src/cashaddr.cpp:14-31 | Each value's character reads back as the value. |
| `CashAddr.CharOfValue` | src/cashaddr.cpp:14-31 | Each accepted character is the character of its value, a lower-case letter or a digit. |
| `CashCodec.CreatedVerifies` | src/cashaddr.cpp:176-197 | For every prefix and payload the created checksum verifies. |
| `CashCodec.ChecksumUnique` | src/cashaddr.cpp:176-197 | And no other checksum does. |
| `CashCodec.ScanSound` | src/cashaddr.cpp:223-257 | A string that passes the scan has letters and digits only, at most one colon, and only letters before it. |
| `CashCodec.VerifyChecksum` | src/cashaddr.cpp:176-178 | Tests the residue of prefix and values. |
| `CashCodec.CreateChecksum` | src/cashaddr.cpp:183-197 | The loop extracts the eight groups. |
| `CashCodec.Encode` | src/cashaddr.cpp:205-216 | Prefix, colon and the characters of payload and checksum. |
| `CashCodec.Decode` | src/cashaddr.cpp:221-297 | Accepts and refuses exactly as specified, on every refusal path; leaves the defined range exactly for short addresses, and never with eight characters after the colon. |
| `CashCodec.TooShortIff` | src/cashaddr.cpp:291-296 | The result is a range that starts outside the buffer if and only if the string passes every test up to the checksum, has fewer than eight values, and these are the low groups of its prefix's residue with zero groups above. |
| `CashCodec.EightCharactersSuffice` | src/cashaddr.cpp:291-296 | With at least eight characters after the last colon, or in all without one, the result is always defined. |
| `CashShort.ShortListIff` | src/cashaddr.cpp:291-296 | A prefix has a verifying list of k < 8 values if and only if the upper 8 - k groups of its residue are zero, and then only one. |
| `CashShort.ShortAddressExists` | src/cashaddr.cpp:291-296 | There is such a string. |
| `CashShort.NetworkPrefixSuffices` | src/cashaddrenc.cpp:113-119 | For the prefixes of the networks, written or left out, no string leads outside the defined range. |
| `CashCodec.DecodeEncode` | src/cashaddr.cpp:205-297 | Decoding undoes encoding for non-empty lower-case prefixes and every payload. |
| `CashCodec.EncodeDecode` | src/cashaddr.cpp:205-297 | Encoding an accepted result gives the string back in lower case, with the default prefix put in where there was none. |
| `CashText.ScanIff` | src/cashaddr.cpp:223-257 | The scan passes exactly the strings of letters, digits and at most one colon that is not first and has no digit before it. |
| `CashText.AcceptedIff` | src/cashaddr.cpp:221-297 | A string is accepted with a prefix and payload if and only if it is well formed and in one case, the prefix is the text before the colon in lower case or else the default, and what follows is spelled with the alphabet and is the payload with the checksum created for it. |
| `CashText.MixedRefused` | src/cashaddr.cpp:259-262 | Both cases in one string are refused. |
| `CashText.CapitalsDecode` | src/cashaddr.cpp:233-275 | A string without lower-case letters decodes like the same string in lower case. |
| `CashText.DecodeCapitals` | src/cashaddr.cpp:205-297 | Encoding, writing the result in capitals and decoding gives prefix and payload back. |
| `Limbs.AddTo` | src/arith_uint256.h:136-144 | The sum modulo the width, for any number of limbs. |
| `Limbs.FlipValue` | src/arith_uint256.h:72-78 | The complement is the distance to the largest number. |
| `Limbs.Increment` | src/arith_uint256.h:169-176 | One more, modulo the width. |
| `Limbs.Negate` | src/arith_uint256.h:80-87 | The negative, modulo the width. |
| `Limbs.SubFrom` | src/arith_uint256.h:146-149 | The difference, modulo the width. |
| `Limbs.CompareTo` | src/arith_uint256.cpp:121-132 | The order of the numbers. |
| `LimbShift.ShiftLeft` | src/arith_uint256.cpp:23-40 | The product with a power of two, modulo the width, for every shift. |
| `LimbShift.ShiftRight` | src/arith_uint256.cpp:42-59 | The quotient by a power of two, for every shift. |
| `LimbShift.Bits` | src/arith_uint256.cpp:176-188 | The position just above the highest set bit. |
| `LimbDivide.MultiplyBy` | src/arith_uint256.cpp:72-85 | The product modulo the width; no partial product overflows 64 bits. |
| `LimbDivide.AddRow` | src/arith_uint256.cpp:76-82 | One row of the schoolbook product. |
| `LimbDivide.DivideBy` | src/arith_uint256.cpp:87-119 | The exact quotient, with the exact remainder left in num; division by zero is reported with the dividend cleared. |
| `LimbDivide.SetBit` | src/arith_uint256.cpp:110 | Setting the next lower bit of the quotient adds its weight. |
| `LimbDivide.DivRound` | src/arith_uint256.cpp:107-116 | One round keeps quotient times divisor plus remainder, and the remainder below twice the shifted divisor. |
| `Compact.OverflowExact` | src/arith_uint256.cpp:223-227 | The overflow flag is set exactly when the number does not fit in 256 bits. |
| `Compact.RoundedBound` | src/arith_uint256.cpp:230-251 | Writing and reading rounds down, by less than one unit of the kept mantissa. |
| `Compact.RoundedAgain` | src/arith_uint256.cpp:230-251 | The rounded number has the same size and mantissa. |
| `Compact.RoundedMonotone` | src/arith_uint256.cpp:208-251 | Rounding keeps the order. |
| `Compact.PartsReadBack` | src/arith_uint256.cpp:208-251 | Size and mantissa of a written word read back, with the sign bit clear. |
| `Compact.CompactRoundTrip` | src/arith_uint256.cpp:208-251 | For every 256-bit number: no flag, rounded down within a unit, and the same word when written again. |
| `Target.AssignLow` | src/arith_uint256.h:91-98 | Assignment from 64 bits. |
| `Target.GetLow64` | src/arith_uint256.h:279-283 | The lowest 64 bits. |
| `Target.SetCompact` | src/arith_uint256.cpp:208-228 | The word's number modulo 2^256, with the sign and overflow flags. |
| `Target.GetCompact` | src/arith_uint256.cpp:230-251 | The compact word of the number, with the sign only on a nonzero mantissa; both assertions hold. |
| `Target.TargetBelowTop` | src/chain.cpp:138-151 | A target never is 2^256 - 1, so adding one does not wrap and nothing divides by zero. |
| `Target.ProofQuotient` | src/chain.cpp:146-150 | ~t / (t + 1) + 1 is 2^256 / (t + 1). |
| `Target.GetBlockProof` | src/chain.cpp:138-151 | The limb computation gives floor(2^256 / (target + 1)), or zero for a negative, overflowing or zero word. |
| `RollingBloom.FastModBelow` | src/bloom.cpp:262-264 | The multiply-and-shift reduction stays below the size. |
| `RollingBloom.EveryCellReached` | src/bloom.cpp:285-292 | Every cell is selected by some hash value. |
| `RollingBloom.PutGet` | src/bloom.cpp:293-296 | Writing a generation into a position changes that two-bit cell only. |
| `RollingBloom.WipeStep` | src/bloom.cpp:277-280 | The mask trick clears exactly the cells that hold the new generation's number. |
| `RollingBloom.WipeKeeps` | src/bloom.cpp:273-281 | The wipe spares every mark of the two groups before the new one. |
| `RollingBloom.RecentGroups` | src/bloom.cpp:223-224 | The insertions of the present generation and the 2m before them lie in the last three groups. |
| `RollingBloom.RollingBloomFilter.constructor` | src/bloom.cpp:215-251 | An empty filter of the right sizes. |
| `RollingBloom.RollingBloomFilter.Reset` | src/bloom.cpp:314-319 | All cells empty, first generation. |
| `RollingBloom.RollingBloomFilter.Insert` | src/bloom.cpp:266-298 | Every cell after the insertion, the counters and the generation, through wrap-around. |
| `RollingBloom.RollingBloomFilter.Wipe` | src/bloom.cpp:273-281 | The loop over word pairs. |
| `RollingBloom.RollingBloomFilter.Mark` | src/bloom.cpp:285-297 | Exactly the item's cells get the current generation. |
| `RollingBloom.RollingBloomFilter.Contains` | src/bloom.cpp:300-312 | True exactly when all cells are set, hence for every item inserted in the present generation or among the 2 * ceil(nElements / 2) insertions before it. |
| `GolombCode.GolombRiceEncode` | src/blockfilter.cpp:22-37 | Appends the unary quotient, a zero and the low P bits. |
| `GolombCode.GolombRiceDecode` | src/blockfilter.cpp:39-51 | Reads the code at a position, or reports the end of the data. |
| `GolombCode.DecodeCode` | src/blockfilter.cpp:22-51 | Decoding a code gives the number and the code's length, whatever follows. |
| `GolombCode.MapIntoRange` | src/blockfilter.cpp:59-84 | The four 32-bit products give floor(x * n / 2^64), and no intermediate value overflows. |
| `GolombSet.BuildHashedSet` | src/blockfilter.cpp:93-102 | Sorted, and exactly the mapped values of the elements. |
| `GolombSet.Build` | src/blockfilter.cpp:130-157 | The stream holds the sorted values' differences, padded to a byte; refused from 2^32 elements. |
| `GolombSet.ReadsNext` | src/blockfilter.cpp:171-173 | The decoder reads the i-th difference at the i-th place. |
| `GolombSet.MatchInternal` | src/blockfilter.cpp:159-189 | For any filter either constructor can have made: the data never ends too early, and the result is true if and only if some query equals a running 64-bit sum that is not below any before it. |
| `GolombSet.MatchAny` | src/blockfilter.cpp:196-199 | The same for the mapped values of the queries. |
| `GolombSet.Verify` | src/blockfilter.cpp:107-128 | Accepts exactly streams of n codes with no byte left. |
| `GolombSet.BuiltVerifies` | src/blockfilter.cpp:107-128 | Every built filter passes that test and reads back as the values it was built from. |
| `GolombSet.BuildAndMatch` | src/blockfilter.cpp:130-199 | Building and matching end to end: true if and only if some element and some query map to the same value; a member is never missed. |
| `GolombSet.SortedIffFits` | src/blockfilter.cpp:171-173 | The running sums of a received filter stay sorted if and only if the whole of its differences fits in 64 bits. |
| `GolombSet.ReceiveAndMatch` | src/blockfilter.cpp:107-199 | Receiving and matching end to end: what passes the test can be read to the end, and when the differences fit in 64 bits the match is exact on the stored values. |
| `CuckooCache.Locs` | src/cuckoocache.h:263-288 | Eight places inside the table, never the invalid index of a table below 2^32. |
| `CuckooCache.EveryPlaceReached` | src/cuckoocache.h:263-288 | Every place is reached by some hash value. |
| `CuckooCache.FillKeeps` | src/cuckoocache.h:452-459 | Filling a discardable place adds one kept key and keeps all keys in their own places, each once. |
| `CuckooCache.SwapKeeps` | src/cuckoocache.h:476-484 | Swapping the element in hand with a kept one loses no key between table and hand. |
| `CuckooCache.SwapMarks` | src/cuckoocache.h:480-485 | A swap takes the mark of what comes out along and leaves that of what goes in. |
| `CuckooCache.Cache.constructor` | src/cuckoocache.h:376-390 | All places discardable and of no epoch, nothing kept, the epoch size and its counter as computed. |
| `CuckooCache.Cache.EpochCheck` | src/cuckoocache.h:320-355 | Ages exactly when the counter has run out and the current epoch is large enough; then gives up exactly the old epoch; and sets the counter to when to look again. |
| `CuckooCache.Cache.Find` | src/cuckoocache.h:545-556 | Finds a key exactly when it is in the table; erasing only marks, and removes exactly that key from the kept ones. |
| `CuckooCache.Cache.Insert` | src/cuckoocache.h:433-489 | After aging at most one kept key is dropped for the new one, none if the key is there or has a free place; the new key gets the current epoch's mark, displaced keys take theirs along, and no other mark changes. |
| `CuckooCache.Cache.Displace` | src/cuckoocache.h:450-488 | The eviction chain, up to the depth limit, with keys and marks. |
| `CuckooCache.NextPlace` | src/cuckoocache.h:476-479 | The place after the first occurrence of the last one tried, wrapping around; the second place when none was tried. |
| `CuckooCache.DistinctPlacesMoveOn` | src/cuckoocache.h:461-479 | As long as the eight places differ the element just put in is not moved again. |
| `CuckooCache.PlaceRepeatsIff` | src/cuckoocache.h:461-479 | In general it is moved again if and only if the place after the first occurrence of the last one is that place again, with eight places for which it is. |

## Left out

- Merkle tree: the comment on the number of flag bits, serialization of the other fields, and the filtered block around the tree.
- Coins cache: the replay of blocks after an interrupted database write, memory usage of the hash map itself, and the copy, access and input-sum helpers.
- CoinsCache.CoinsViewCache.BatchWrite: requires that a FRESH promise about a coin not cached in this layer is true, which the source cannot test either.
- CoinsStack.Run: adds in a run keep the promises the source asks of callers, and what is flushed to the database has a best block, as the source asserts.
- Address manager: the bucket tables are maps from slots to ids and not two-dimensional arrays, so their bounds are the bounds of the slots; Select_, Connected_, SetServices_, serialization, the timestamp tests of Check_, the truncation of times to 32 bits, and Clear on a used manager.
- Event envelope: lock failures, thread creation and detaching, test hooks, and real time; a timeout is a choice of the step.
- Check queue: the control object and thread start; the checks themselves are booleans.
- Query gate: payload sizes and encodings; a stage of reading fails by choice, and what the index holds is any function of how often it was changed.
- Block tree: the search by time, validity flags, chain work, and 32-bit overflow of the locator step, which needs more than a thousand million blocks.
- BlockIndex.And: is the bitwise operator on non-negative numbers.
- 256-bit arithmetic: multiplication by a single word, bitwise operators between numbers, hexadecimal and floating-point conversions, and the equivalent-time computation.
- Base58: the check variant with its hash, and the truncation of buffer sizes to 32 bits.
- CashAddr: the packing of address contents into 5-bit values, and the guarantees on scattered errors.
- Rolling bloom filter: the choice of sizes by floating-point logarithms, and false-positive rates.
- RollingBloom.RollingBloomFilter.constructor: takes the number of hash functions and filter bits as parameters, and requires at least one element, because the source makes an empty table for none and its operations then have no cell to use.
- Golomb-coded set: compact sizes, bytes as such (streams are bit sequences) and block content; the iteration order of the element set is any order.
- Cuckoo cache: relaxed atomic flags are plain booleans and erasing is not concurrent with reads; the depth limit is a parameter.
- Networking, RPC, wallets, consensus rules, storage engines and the foreign runtime are not part of this model.
