# JayDB: a verified model

JayDB puts caching nodes in front of one cold store. A sharding ring gives every key one owner,
requests travel to the owner over pooled TCP connections, only the owner caches, and all caches of a
process share one byte budget. This project models that machinery in Dafny and proves that the whole
behaves like the bare store, within one memory ceiling, under every sequence or interleaving of the
steps it models.

Check everything with `dafny verify dfyconfig.toml`.

## How the model is laid out

| file | what it models |
|---|---|
| `Base.dfy`, `Order.dfy` | byte strings, finite sums, Go's string order and `sort.Strings` |
| `Sharding.dfy` | partition keys and the ring |
| `Storage.dfy`, `Cas.dfy` | the memory driver; conditional writes over whole runs |
| `Listing.dfy` | `DB.List` over any driver that meets a page contract |
| `PageCache.dfy`, `ListCache.dfy`, `PageFlight.dfy` | list pages: coherence, the code that keeps them, singleflight |
| `Coherence.dfy`, `Reconcile.dfy` | ownership routing over many nodes; the purge racing with a moving ring |
| `Lru.dfy`, `Ledger.dfy`, `BudgetedCache.dfy` | sharded LRU, the shared budget as values, both as objects |
| `BudgetSteps.dfy`, `Locks.dfy`, `ObjectFlight.dfy` | budget accounting, lock order and object singleflight under interleaving |
| `Framing.dfy`, `Responses.dfy`, `Exchange.dfy` | binary frames in reused buffers, and the pooled request/response protocol |

Code that changes things step by step is a class or a method with the loop it has in Go, proved
against a function of its old state; the theorems are then about those functions. Protocols whose
point is interleaving are transition systems: a state, events, `Enabled`, `Step`, an invariant and a
theorem over every run.

## Assumptions

- One ring view is shared by all nodes, the ring is never empty and no address is the empty string
  (`pkg/cluster/mesh.go:291` adds the node itself). `Coherence.EmptyRingServesStale` shows why.
- Nobody writes cold storage from outside. In `Coherence` a database operation - reconcile, route,
  serve, retry - is one atomic step; in `Reconcile` a local operation is one step, while the purge,
  the ring and all other nodes move key by key around it.
- Callers do not modify the objects the database hands them (`pkg/cache/cache.go:31-36`): in
  `Coherence` and `ObjectFlight` a cached object is a value. `BudgetSteps` does model the mutation.
- Strings are byte sequences; byte counts and generations are unbounded integers. FNV-1a is an arbitrary function;
  ETags, clocks, expiry, admission, eviction and driver faults are parameters of the events, so each
  theorem holds for every choice of them. Where ETags must be fresh, a hypothesis says so.

## What turned out not to hold, and exactly when it does

- A list-cache map key `prefix|cursor|limit` does not identify its query: `PageCache.BarCollision`
  has two queries with one key and different answers. `PageCache.UnambiguousIff`: a key identifies
  its query if and only if neither prefix nor cursor contains a bar. Queries without a bar in the
  prefix never collide with one another (`PageCache.KeyStringInjective`).
- A create-only put is not applied at most once when the transport retries it
  (`Cas.RetriedCreateResurrects`); it is applied again if and only if the last successful write to
  the key in between was a delete (`Cas.RetriedCreateAppliesTwiceIff`). A put naming a real ETag is.
- Without interference between the two deliveries, a routed call is applied twice if and only if both
  reach a working driver and it is an unconditional put, or a put naming a version that the driver
  issues again (`Coherence.AppliedTwiceIff`). A caller can be told "refused" about a write that was
  applied; `Coherence.RefusedYetAppliedIff` says exactly when.
- A read can fail with nothing broken. A ring member that has not opened the database, or has closed
  it, answers with an error, and the reader takes it as final where it would have gone to cold storage
  had there been no answer at all (`Coherence.UnopenedOwnerFailsRead`, a run from a fresh cluster;
  `pkg/integration/cluster_namespace_test.go:133-168` wants it so). `Coherence.ExecuteOk`: without
  driver faults and missed deadlines, a read fails if and only if the owner's process turns it away
  like this or as unauthentic; `Coherence.ServedRingReadsExactly`: never, once all members serve.
- A response does not always survive the wire: the writer never checks its 16-bit lengths.
  `Responses.ReadsBackIff` gives the condition, and `Responses.OversizeErrorLeavesResidue` what a
  longer error text leaves in the connection. `Exchange.LongNamespacePoisonsPool` is a run that ends
  with such a connection in the pool: one request for an unserved namespace with a name of 65 480
  bytes or more. `Exchange.ResponsesAnswerTheirRequests` confines the damage to that connection, from
  that answer on; `Exchange.FittingAnswersNeverStray` is the case without such answers.
- `Unregister` is described as idempotent; `Ledger.UnregisterIdempotentIff`: if and only if the
  evictor was not registered twice.
- A driver whose cursors are keys and whose pages hold one key lists the empty key alone when others
  follow it (`Listing.ListStopsAtEmptyKey`), because that page's cursor reads as "nothing left". It is
  the only exception (`Listing.CappedDriverMeetsContractIff`); the memory driver and drivers with
  tokens of their own have none.
- A write whose driver call fails after taking effect skips the invalidation. A cached page then goes
  wrong if and only if the key lies in the stretch the page covers - below its prefix, past its cursor
  and, if the page is full, not past its last key - and the write changed what a listing reports of
  the key (`PageCache.PageChangesIff`). `PageCache.LostWriteServedStaleIff` says when it is served,
  `PageCache.LostWriteLeavesStalePage` is a run. The object cache stays exact (`Coherence`), and the
  memory driver never fails that way.
- `pkg/db/db.go:66` gives the default list TTL as 30 s; the code (`pkg/cache/list_cache.go:19`) uses
  24 h. Neither value matters to what is proved.
- The driver treats `*` as create-only for Put and as "any version" for Delete; sections 13.1.1 and
  13.1.2 of RFC 9110 give `If-Match: *` another meaning, and none of it is claimed here.

## Model

| member | source | states |
|---|---|---|
| `Sharding.DirectoryIsOnePartition` | pkg/sharding/sharding.go:13-23 | a directory of `depth` components and every key below it have that directory as their partition key, whatever follows and however many slashes lead or trail |
| `Sharding.ShallowKeyIsItsPartition` | pkg/sharding/sharding.go:14-21 | with no depth, or no more components than the depth, the partition key is the key without its outer slashes |
| `Sharding.DeepKeyIsCut` | pkg/sharding/sharding.go:14-23 | with more components it is everything before the slash that follows the `depth`-th; together with the row above this covers every key |
| `Sharding.Ring.AddNode` | pkg/sharding/sharding.go:63-77 | the member set is the old one plus the address, the list stays its sorted listing, the generation rises by one exactly if the address was new |
| `Sharding.Ring.RemoveNode` | pkg/sharding/sharding.go:80-99 | the member set is the old one minus the address, by the filtering loop; the generation rises by one exactly if it was a member |
| `Sharding.Ring.SetNodes` | pkg/sharding/sharding.go:104-138 | the members are exactly the non-empty addresses given; the generation rises by one exactly if that changed the set |
| `Sharding.Ring.GetNode` | pkg/sharding/sharding.go:165-177 | the owner is the member that the hash of the partition key picks from the sorted list, so it depends on the member set alone; none exactly for an empty ring |
| `Sharding.Ring.ShardFor` | pkg/sharding/sharding.go:150-161 | the shard number is the hash of the partition key modulo the member count and indexes the owner; -1 exactly for an empty ring |
| `Sharding.Ring.DirectoryHasOneOwner` | pkg/sharding/sharding.go:165-177 | every key below a directory of `partitionDepth` components is owned by the member that the hash of the directory picks, with that index as shard |
| `Sharding.Ring.SameDirectorySameOwner` | pkg/sharding/sharding.go:165-177 | so any two keys below one directory have one owner |
| `Sharding.Ring.ShallowKeyHasOwnOwner` | pkg/sharding/sharding.go:165-177 | a key with fewer components, or any key without a depth, goes where the hash of the trimmed key points |
| `Sharding.Ring.NodeIndex` | pkg/sharding/sharding.go:181-190 | binary search finds a member's index, and -1 exactly for a non-member |
| `Sharding.Ring.IndexOfOwner` | pkg/sharding/sharding.go:148-190 | the index of a key's owner is the key's shard number |
| `Sharding.SameMembersSameOwners` | pkg/sharding/sharding.go:25-33 | two rings with the same members hold the same list and name the same owner for every key |
| `Sharding.GenerationCountsChanges` | pkg/sharding/sharding.go:35-39 | over any calls, the generation counts exactly those that changed the membership |
| `Sharding.OwnerIsMember` | pkg/sharding/sharding.go:165-177 | the owner is a member, and with non-empty addresses "no owner" means "no members" |
| `Storage.Driver.Get` | pkg/storage/memory/memory.go:43-59 | the stored object, field by field, or not-found |
| `Storage.Driver.Put` | pkg/storage/memory/memory.go:61-100 | accepted exactly without a tag, with `*` on a new key or with the current tag; then exactly the given value and stamp are stored and returned; otherwise the right error and no change |
| `Storage.Driver.Delete` | pkg/storage/memory/memory.go:102-119 | accepted exactly for a stored key with no tag, `*` or the current tag, and then removed; otherwise the right error and no change |
| `Storage.Driver.List` | pkg/storage/memory/memory.go:121-176 | true reports of the stored keys below the prefix and past the cursor, in order, none left out up to the limit, and the last key as next cursor exactly when the limit is reached |
| `Storage.PutRules` | pkg/storage/memory/memory.go:67-80 | which error a put is refused with, for every tag and store |
| `Storage.DeleteRules` | pkg/storage/memory/memory.go:106-115 | the same for a delete |
| `Storage.WrittenReadsBack` | pkg/storage/memory/memory.go:83-99 | a written value is read back with its stamp, and every other key reads as before |
| `Storage.PageIsListing` | pkg/storage/memory/memory.go:121-176 | a page meets the description of a listing that does not mention how it is made |
| `Cas.NextKeepsInv` | pkg/storage/memory/memory.go:61-119 | each accepted write extends the chain and spends the version it replaced |
| `Cas.WinsFormChain` | pkg/storage/memory/memory.go:61-119 | in every run with fresh tags the successful writes of a key chain, a conditional write names what it replaced, and each tag is won at most once |
| `Cas.RetriedPutAppliesOnce` | pkg/cluster/mesh.go:476-500 | a put naming a version, delivered twice with any traffic in between, changes the store at most once |
| `Cas.RetriedCreateAppliesTwiceIff` | pkg/cluster/mesh.go:488-493 | a retried create-only put applies again if and only if the key's last win in between was a delete |
| `Cas.RetriedCreateResurrects` | pkg/storage/memory/memory.go:67-71 | a concrete run in which it does |
| `Listing.ResumeAfter` | pkg/storage/memory/memory.go:125-133 | resuming after the i-th key lists exactly the keys from the i-th on |
| `Listing.List` | pkg/db/db.go:559-593 | for any driver meeting the page contract, whatever its cursors look like and even if its pages come up short: terminates with true reports of the keys below the prefix, sorted, complete and without duplicates, cut to a positive limit |
| `Listing.ListPages` | pkg/db/db.go:559-593 | the loop: each page continues where the cursor of the last one stands, and it stops only with the limit reached or nothing left |
| `Listing.TokenDriverMeetsContract` | pkg/storage/s3/s3.go:235-292 | a driver that caps its pages and hands out opaque tokens meets the contract, whatever the tokens, as long as they are not empty and tell positions apart |
| `Listing.KeyedDriverMeetsContract` | pkg/storage/memory/memory.go:121-176 | so does a driver that lists the keys after the cursor and returns the last key of the page as the next one |
| `Listing.MemoryDriverMeetsContract` | pkg/storage/memory/memory.go:121-176 | the memory driver meets the contract on every store |
| `Listing.CappedDriverMeetsContractIff` | pkg/db/db.go:549-591 | a capping driver with keys as cursors meets it if and only if pages may hold two keys or no empty key precedes others |
| `Listing.ListStopsAtEmptyKey` | pkg/db/db.go:586-590 | in the remaining case List returns the empty key alone, at every limit |
| `PageCache.KeyStringInjective` | pkg/cache/list_cache.go:37-39 | queries without a bar in the prefix have distinct map keys, signed decimal limit included |
| `PageCache.UnambiguousIff` | pkg/cache/list_cache.go:37-39 | a map key identifies its query among all queries if and only if prefix and cursor have no bar |
| `PageCache.BarCollision` | pkg/cache/list_cache.go:37-39 | two queries with one map key and different pages |
| `PageCache.UntouchedPage` | pkg/cache/list_cache.go:213-226 | a write leaves every page whose prefix it does not extend exactly as it was |
| `PageCache.PageChangesIff` | pkg/cache/list_cache.go:213-226 | a write changes a page if and only if the page covers its key and what a listing reports of the key changes |
| `PageCache.NewKeyChangesPageIff` | pkg/storage/memory/memory.go:121-176 | for a new key: below the prefix, past the cursor, and the page not full or the key below its next cursor |
| `PageCache.StoredKeyChangesPageIff` | pkg/storage/memory/memory.go:121-176 | for a replaced or deleted key: the page lists it, and a replacement changes size, tag or time |
| `PageCache.WriteKeepsCoherent` | pkg/db/db.go:440-446 | invalidating the touched pages after a write restores agreement of all cached pages with the store |
| `PageCache.CoherentAnswer` | pkg/cache/list_cache.go:108-119 | a hit answers its own query as the driver would now |
| `PageCache.RunsAnswerExactly` | pkg/cache/list_cache.go:98-234 | in every run of puts, deletes, listings, expiries and evictions, with no lost write but those no cached page shows, each page returned is the driver's page for the store of that moment |
| `PageCache.LostWriteKeepsCoherentIff` | pkg/db/db.go:440-446 | a write that happened and reported failure leaves all cached pages right if and only if no cached page shows it |
| `PageCache.LostWriteServedStaleIff` | pkg/db/db.go:440-446 | listing a page, losing a write and listing it again serves a stale page if and only if the page covers the key and its report changed |
| `PageCache.LostWriteLeavesStalePage` | pkg/db/db.go:440-446 | a run from the empty database that serves a stale page of 1000 keys after a put that happened and reported failure |
| `ListCaching.ListCache.ListPage` | pkg/cache/list_cache.go:98-209 | served from the cache exactly while the page is fresh, which it then is for another TTL and at the front of the list; otherwise the answer is the driver's current page, admitted at the front in place of what must go; coherent caches stay coherent for prefixes without a bar |
| `ListCaching.ListCache.Lookup` | pkg/cache/list_cache.go:108-123 | hits exactly a page not idle for the TTL, stamps it and moves it to the front; an expired page goes |
| `ListCaching.ListCache.MakeRoom` | pkg/cache/list_cache.go:186-196 | capacity eviction drops pages from the old end, and no more than needed for one to fit |
| `ListCaching.ListCache.InvalidateKey` | pkg/cache/list_cache.go:213-234 | scan then removal leaves exactly the pages whose prefix is not empty and does not begin the key, unchanged |
| `ListCaching.ListCache.Purge` | pkg/cache/list_cache.go:260-266 | no page is left |
| `ListCaching.Embedded.Put` | pkg/db/db.go:440-446 | driver put plus invalidation is one step of the abstract database, and keeps it coherent |
| `ListCaching.Embedded.Delete` | pkg/db/db.go:490-494 | the same for delete |
| `PageFlight.NothingLeft` | pkg/cache/list_cache.go:148-164 | after a failed re-check under leadership every earlier copy of the page is gone, because the only leader is the one re-checking |
| `PageFlight.ListsKeepsInv` | pkg/cache/list_cache.go:166-206 | between fetch and admission the page is in its leader's hands |
| `PageFlight.PagesFetchedOnlyWhenGone` | pkg/cache/list_cache.go:108-209 | in every interleaving, between two successful driver listings of a page the copy of the first expired or was evicted, invalidated or purged |
| `PageFlight.PagesServedAreLive` | pkg/cache/list_cache.go:98-209 | in every interleaving, each page returned was listed by the driver for that query and still usable at the instant of the hit or at one since the call began; all who return through a call get the same page |
| `PageFlight.MissLists` | pkg/cache/list_cache.go:124-166 | undisturbed, a miss has the driver list the page |
| `PageFlight.ListedIsServed` | pkg/cache/list_cache.go:178-209 | undisturbed, the listing is kept and returned, and the next caller hits it |
| `Coherence.ReconcileRestores` | pkg/db/db.go:227-249 | reconciling turns "current unless two changes were missed" into "owned and current", for every entry |
| `Coherence.ManagedAtOwner` | pkg/cache/cache.go:201-256 | serving at the reconciled owner keeps its cache current under hits, expiry, eviction, refused admission and driver faults, and answers as the driver |
| `Coherence.OthersUndisturbed` | pkg/db/db.go:364-378 | a write at the owner breaks no promise to any other node |
| `Coherence.RawAtOwner` | pkg/db/db.go:503-530 | the same for the forwarded entry points, reconcile included |
| `Coherence.ExecuteOk` | pkg/db/db.go:283-386 | any routed call keeps the invariant; a read returns the store's content or fails; without driver faults and missed deadlines it fails if and only if the owner's process answers without serving it |
| `Coherence.FaultFreeCallIsDriverCall` | pkg/db/db.go:388-495 | without faults a call has the driver's effect and the driver's reply |
| `Coherence.CallCatchesUp` | pkg/db/db.go:283-390 | after any call the node that made it has reconciled for the current generation |
| `Coherence.UnansweredFails` | pkg/cluster/mesh.go:488-500 | a missed deadline ends a forwarded call at once, and a write without an answer is reported failed, never served elsewhere |
| `Coherence.PutIsReadBack` | pkg/db/db.go:388-453 | without faults, a put accepted under the version rules is read back at every node, field by field; a refused one changes nothing; other keys read as before |
| `Coherence.DeleteIsReadBack` | pkg/db/db.go:455-495 | without faults, a deleted key is missing at every node, and exactly the right deletes go through |
| `Coherence.WroteIsStored` | pkg/db/db.go:388-453 | with any faults, a put that reports success is stored exactly as put and as reported |
| `Coherence.LastWriteIsRead` | pkg/db/db.go:173-189 | over every run: after a put reported success, each read of the key anywhere returns that very object until the key is written again, or fails, and without driver faults and missed deadlines fails exactly when turned away |
| `Coherence.OwnerServesFromMemory` | pkg/db/db.go:503-519 | an object found or written and admitted is served again without the driver, also after a membership change that leaves the key with its owner |
| `Coherence.StoreChangesOnlyAsDriver` | pkg/cluster/mesh.go:476-500 | with faults the store changes by writes the driver accepts, one after the other, at most two per call, and at least one if the call reports success |
| `Coherence.AppliedTwiceIff` | pkg/cluster/mesh.go:488-493 | a call is applied twice if and only if both deliveries reach a working driver and it is an unconditional put, or one naming a version issued again; never for a create-only put or a delete |
| `Coherence.ForwardedConditionalPutOnce` | pkg/cluster/mesh.go:476-500 | a put naming a version is applied at most once, retry included, unless the driver issues that version again |
| `Coherence.RefusedYetAppliedIff` | pkg/cluster/mesh.go:488-500 | a caller is told "refused" about an applied write if and only if the first answer was lost and the retry found the write's own result in its way |
| `Coherence.MemberKeepsInv` | pkg/sharding/sharding.go:63-138 | a membership change ages every promise by a generation and breaks none |
| `Coherence.RunsReadExactly` | pkg/db/db.go:191-386 | in every run over any number of nodes, openings, closings and membership changes, each read returns exactly the store's content of that moment or fails, and without a driver fault or a missed deadline it fails if and only if it is turned away |
| `Coherence.FreshClusterReadsExactly` | pkg/db/db.go:148-189 | in particular from any store and non-empty ring with no database opened |
| `Coherence.UnopenedOwnerFailsRead` | pkg/cluster/mesh.go:407-415 | a run without faults whose read fails: the owner is up and has not opened the database |
| `Coherence.ServedRingReadsExactly` | pkg/db/db.go:283-345 | with every ring member serving and requests authentic, a read without driver faults and missed deadlines always returns the store's content |
| `Coherence.EmptyRingServesStale` | pkg/db/db.go:244-249 | with an empty ring a node serves an object another node has overwritten |
| `Reconcile.SteppingBackIsSafe` | pkg/db/db.go:268-270 | recording an older generation than the current record keeps the promise |
| `Reconcile.SectionKeepsInv` | pkg/db/db.go:213-266 | entering, examining keys against the live ring, checking and wiping keep the invariant |
| `Reconcile.RecordKeepsInv` | pkg/db/db.go:263-270 | recording does too, whether the purge was selective, overtaken or full |
| `Reconcile.FinishedReconcileSettles` | pkg/db/db.go:206-271 | what survives a reconcile is owned at the recorded generation with the ring unmoved at the check, or was admitted meanwhile, which needs a record stepping back |
| `Reconcile.RunsSettle` | pkg/db/db.go:206-271 | every reconcile that finishes along a run settles so |
| `Reconcile.OneChangeKeepsOwned` | pkg/db/db.go:221-266 | a reconcile for one membership change, racing only with other nodes, keeps every entry the node still owns |
| `Reconcile.LocalOperationCaches` | pkg/cache/cache.go:201-378 | a local operation caches the object as stored, or nothing, and touches no other key |
| `Reconcile.RunsHitExactly` | pkg/db/db.go:201-271 | in every interleaving of ring moves, racing reconciles, purges, foreign writes and local operations, whatever the fast path can hit is the store's content |
| `Reconcile.FreshNodeHitsExactly` | pkg/db/db.go:201-271 | in particular for a new node under the real ring |
| `Reconcile.Database.PurgeNotOwned` | pkg/cache/cache.go:392-432 | the purge loop keeps exactly the entries the ring still assigns to the node |
| `Reconcile.Database.ReconcileOwnership` | pkg/db/db.go:201-281 | with the ring standing still, cache and recorded generation become what `Coherence.Reconciled` says, and list pages do not survive a change |
| `Reconcile.Database.GetRaw` | pkg/db/db.go:503-508 | reconcile, then cache or driver, exactly as `Coherence.Managed` |
| `Reconcile.Database.PutRaw` | pkg/db/db.go:510-519 | the same for writes, dropping the object on every error and the list pages the key touches on success |
| `Reconcile.Database.DeleteRaw` | pkg/db/db.go:521-530 | the same for deletes, dropping the object always and the list pages on success |
| `Lru.OnlyDrop` | pkg/cache/cache.go:86-96 | removal commutes with sharding |
| `Lru.DroppedOk` | pkg/cache/cache.go:78-96 | dropping keeps a shard's map and list in bijection and its byte count exact; the clamp is idle |
| `Lru.ScanFindsOldest` | pkg/cache/cache.go:326-338 | the scan of the shards' last elements finds the globally oldest entry |
| `Lru.StepSimulates` | pkg/cache/cache.go:201-356 | each operation on the shards is that operation on one list, with the same victim |
| `Lru.RunEvictsAsOneList` | pkg/cache/cache.go:284-356 | for any hash, a run over 64 shards evicts the same entries in the same order as one unsharded list |
| `Lru.TouchRefreshes` | pkg/cache/cache.go:208-216 | a hit stamps its entry and puts it first, changes nothing else about it and keeps the others in order; a miss changes nothing |
| `Lru.TouchRefreshesShard` | pkg/cache/cache.go:208-216 | the same of the shard it happens in, list and map |
| `Lru.UsedIsSpared` | pkg/cache/cache.go:318-356 | an entry just used is not the next victim while there is another: the shards evict the oldest of the rest |
| `Ledger.FullLapIsEmpty` | pkg/cache/budget.go:176-180 | as many consecutive refusals as evictors means nothing is held anywhere |
| `Ledger.EvictUntilFits` | pkg/cache/budget.go:176-199 | the eviction loop makes a request within the limit fit, and its last eviction was needed |
| `Ledger.ReserveExact` | pkg/cache/budget.go:152-202 | from balanced books Reserve succeeds if and only if the limit is off or large enough; refusal changes nothing; success evicts only oldest entries and keeps the books balanced |
| `Ledger.LogCyclic` | pkg/cache/budget.go:181-182 | across reservations, evictors are asked strictly in turn |
| `Ledger.EvictionIsFair` | pkg/cache/budget.go:34-38 | two evictors that never came up empty lost the same number of entries, give or take one |
| `Ledger.UnregisterExact` | pkg/cache/budget.go:89-143 | exactly the evictor's bytes leave the books, other queues stay, and the rotation loses one place and nothing else |
| `Ledger.UnregisterIdempotentIff` | pkg/cache/budget.go:66-67 | unregistering twice is unregistering once if and only if the evictor was not registered twice |
| `Ledger.AdmittedBalanced` | pkg/cache/cache.go:267-315 | admission keeps the books balanced and under the ceiling, evicts only from old ends, and caches the object in front if and only if cap and ceiling allow; if not, the older entry of the key is gone and nothing else changed |
| `Ledger.PurgedBalanced` | pkg/cache/cache.go:402-429 | so does a purge with its single release |
| `Ledger.InvalidatedBalanced` | pkg/cache/cache.go:380-389 | invalidation drops exactly that entry and keeps them balanced too |
| `BudgetedCache.Manager.Lookup` | pkg/cache/cache.go:203-223 | hits exactly an entry not idle for the TTL, returns its object, stamps it and puts it first with the others in order; otherwise nothing changes |
| `BudgetedCache.Manager.EvictOldest` | pkg/cache/cache.go:318-356 | the loop over the shards removes the last entry of the one list and reports its size |
| `BudgetedCache.Manager.Place` | pkg/cache/cache.go:284-310 | insert or replace puts the entry first and reports what it replaced |
| `BudgetedCache.Manager.PurgeIf` | pkg/cache/cache.go:392-432 | exactly the entries whose keys match go, in one release of exactly their bytes |
| `BudgetedCache.Manager.Invalidate` | pkg/cache/cache.go:380-389 | the entry and its bytes are gone from cache and books |
| `BudgetedCache.Manager.Admit` | pkg/cache/cache.go:267-315 | the books become what `Ledger.Admitted` says, across all managers of the budget |
| `BudgetedCache.Budget.Register` | pkg/cache/budget.go:49-56 | the evictor joins the end of the rotation |
| `BudgetedCache.Budget.Reserve` | pkg/cache/budget.go:152-202 | answer and books are those of `Ledger.Reserve` |
| `BudgetedCache.Budget.EvictFor` | pkg/cache/budget.go:176-199 | the round-robin loop over real managers terminates as `Ledger.EvictUntil` says |
| `BudgetedCache.Budget.Release` | pkg/cache/budget.go:208-218 | the account falls by the amount, not below zero; caches are untouched |
| `BudgetedCache.Budget.Unregister` | pkg/cache/budget.go:89-143 | search, drain, removal and cursor give the books of `Ledger.Unregister` |
| `BudgetSteps.NeverOverdrawn` | pkg/cache/budget.go:117-120 | no settlement or release takes more than is on the account, so the clamps never fire |
| `BudgetSteps.StepKeepsInv` | pkg/cache/cache.go:267-432 | every step keeps the account equal to cached bytes plus bytes in hand |
| `BudgetSteps.BytesAreConserved` | pkg/cache/budget.go:28-38 | in every interleaving of reserving, evicting, inserting, purging, releasing, registering, draining and callers mutating objects; with a positive limit cached bytes never exceed it |
| `BudgetSteps.QuietBudgetIsExact` | pkg/cache/cache.go:28-34 | with nobody in mid-operation the account is exactly the cached bytes |
| `BudgetSteps.FittingAdmission` | pkg/cache/cache.go:267-315 | undisturbed, an object that fits is cached with its bytes on the account in place of what it replaced |
| `BudgetSteps.EvictingReservation` | pkg/cache/budget.go:176-199 | undisturbed, one that fits after the next evictor in turn gave up an entry gets its bytes at that price |
| `BudgetSteps.InsertThenRelease` | pkg/cache/cache.go:284-315 | and they end up in the cache |
| `BudgetSteps.RefusedAdmission` | pkg/cache/budget.go:165-174 | one beyond the limit evicts nothing, and the entry it would have replaced goes |
| `BudgetSteps.DrainTakes` | pkg/cache/budget.go:104-121 | a drained entry's bytes come off the account |
| `BudgetSteps.UnregisterEmpty` | pkg/cache/budget.go:122-143 | a manager with nothing left loses its first place in the rotation and nothing else happens |
| `Locks.PathNeutral` | pkg/cache/budget.go:22-27 | every locking path of the code takes its locks in rank order and returns them |
| `Locks.ProgramClimbs` | pkg/cache/budget.go:22-27 | so does any sequence of them |
| `Locks.NoWaitCycle` | pkg/cache/budget.go:22-27 | waiting always points to a higher lock or an earlier place in line, so it never closes a cycle |
| `Locks.NoDeadlock` | pkg/db/db.go:213-249 | no reachable state of any number of goroutines has a cycle of waiters |
| `Locks.AlwaysProgress` | pkg/cache/budget.go:152-202 | and while anybody has work left, some goroutine can move |
| `ObjectFlight.StepKeepsInv` | pkg/cache/cache.go:201-265 | every step keeps one leader per call and one call per key |
| `ObjectFlight.ReadsAreCoalesced` | pkg/cache/cache.go:201-265 | in every interleaving one driver read per key is in flight, all who return through a call return the same result, and every answer is true: a hit was stored under the key at some instant; through a call, found or absent was the truth of an instant between its beginning and the driver's return, and a failure means the driver failed |
| `ObjectFlight.StoredThroughoutIsFound` | pkg/cache/cache.go:225-265 | a key stored throughout a call is found by all who return through it unless the driver failed, and unchanged meanwhile it is returned exactly; absent throughout, it is reported absent |
| `ObjectFlight.KeptIsCached` | pkg/cache/cache.go:246-256 | a result or write that is kept is cached as it is; anything else leaves the key uncached, and no other key is affected |
| `Framing.Int64RoundTrip` | pkg/cluster/binary.go:89 | signed 64-bit values survive the unsigned encoding in both directions |
| `Framing.FieldsUnique` | pkg/cluster/binary.go:91-114 | length-prefixed fields followed by anything determine the fields and what follows |
| `Framing.RequestFrameUnique` | pkg/cluster/binary.go:32-118 | no request frame is a prefix of another, and a frame determines its request |
| `Framing.RequestLayout` | pkg/cluster/binary.go:84-115 | the bytes of a request one by one: magic, version, operation, time, four short fields and the value |
| `Framing.Copy` | pkg/cluster/binary.go:94 | copying leaves exactly the earlier bytes followed by the new ones |
| `Framing.WriteRequest` | pkg/cluster/binary.go:32-118 | refuses exactly the oversized requests; otherwise the wire is the frame, whatever the reused buffer held |
| `Framing.Stream.ReadFields` | pkg/cluster/binary.go:135-204 | reads the fields there are, or there are none to read |
| `Framing.ReadRequest` | pkg/cluster/binary.go:121-215 | what it accepts re-encodes to the bytes consumed; what it rejects starts with no request frame |
| `Framing.ReadBack` | pkg/cluster/binary.go:121-215 | a frame followed by anything reads back as its request and leaves what followed |
| `Framing.TruncatedRequestRejected` | pkg/cluster/binary.go:121-215 | every proper prefix of a frame fails to read |
| `Responses.WireUnique` | pkg/cluster/binary.go:218-278 | no response is a prefix of another, even in the looser grammar the reader accepts |
| `Responses.ResponseLayout` | pkg/cluster/binary.go:218-278 | the bytes of a response one by one, in its three forms |
| `Responses.TruncatedWireRejected` | pkg/cluster/binary.go:281-364 | a response cut short anywhere fails to read |
| `Responses.ReadResponse` | pkg/cluster/binary.go:281-364 | consumes exactly one response, or none was there |
| `Responses.WriteResponse` | pkg/cluster/binary.go:218-278 | the wire is the response's, whatever the reused buffer held |
| `Responses.ReadsBackIff` | pkg/cluster/binary.go:218-229 | a response survives the wire if and only if its lengths fit and no object hides behind an error |
| `Responses.OversizeErrorLeavesResidue` | pkg/cluster/binary.go:225 | a longer error text is read short and the rest stays in the stream |
| `Exchange.OversizeAnswerPoisonsPool` | pkg/cluster/mesh.go:523-530 | an answer too long for its length prefix completes a round trip and leaves a pooled connection with bytes in it |
| `Exchange.LongNamespacePoisonsPool` | pkg/cluster/mesh.go:412-415 | a run from a fresh mesh that gets there: one request for an unserved namespace with a long name |
| `Exchange.OnlyTheAnswer` | pkg/cluster/mesh.go:523-527 | reading from whatever part of an answer has arrived succeeds only on the whole answer, exactly |
| `Exchange.ServeKeepsInv` | pkg/cluster/mesh.go:389-405 | the handler loop answers the request on a connection once, whole or cut short, with whatever answer |
| `Exchange.ReceiveDelivers` | pkg/cluster/mesh.go:502-532 | a completed round trip on a connection whose answers fit hands its caller the answer to its own request and empties the connection |
| `Exchange.ResponsesAnswerTheirRequests` | pkg/cluster/pool.go:70-192 | over any run with failures anywhere and any answers: up to the first answer on a connection that does not fit its length prefix, each response answers the request its caller sent and none goes to two callers; other pooled connections are empty, and there are at most `poolSize` |
| `Exchange.FittingAnswersNeverStray` | pkg/cluster/pool.go:70-192 | with all answers fitting: every response answers its request, none goes to two callers, every pooled connection is empty |

## Left out

- `Storage.Driver.List`: no delimiter, because the database never passes one and paging with one is not guaranteed by the code.
- `Reconcile.Database.ReconcileOwnership`: the ring stands still; the moving ring is the transition system in the same module, where the list cache, purged in both branches, is not repeated.
- `Reconcile.RunsHitExactly`: an operation whose own reconcile is overtaken by another membership change before it routes is not modelled; operations there start on the fast path.
- `Reconcile.Database.GetRaw`: without metrics; singleflight is in `ObjectFlight`.
- `ObjectFlight.ReadsAreCoalesced`: callers that modify an object they were handed are excluded, as the code asks of them.
- `Coherence.AppliedTwiceIff`: nothing happens between the two deliveries; what other clients' writes in between can do is `Cas.RetriedPutAppliesOnce` and `Cas.RetriedCreateAppliesTwiceIff`.
- `Listing.List`: a driver that returns an empty page with a cursor while keys remain is outside the contract; the code stops there by design (`pkg/db/db.go:586-590`).
- `BudgetedCache.Manager.EvictOldest`: run alone, so one of the three attempts suffices; failing attempts under interleaving are the `EvictNone` steps of `BudgetSteps`.
- `BudgetedCache.Manager.Admit`: for a manager registered with a budget; a nil budget only skips the accounting.
- `Framing.WriteRequest`: without the guard against a total length beyond the largest int, which the five checked lengths cannot reach.
- `ListCaching.ListCache.ListPage`: run alone, so the re-check after winning leadership cannot hit; it is a step of `PageFlight`.
- The routing in `Get`, `Put` and `Delete` and the mesh client are functions and steps on values rather than methods on objects: what matters there is their interleaving, and update in place by aliased nodes is not captured.
- Pool connections are a bounded set, not a channel: the order in which idle connections are reused is not captured.
- Freshness of overlapping Get and Put on one key, operations spanning a membership change between routing and serving, differing ring views and cluster-wide list coherence: the code does not provide them.
- `ListCache.InvalidatePrefix`: nothing in the database calls it.
- How `serve` authenticates, unknown operations, `mapErrorString`: straight-line code that would add easy members. That a request may be refused there is an outcome in `Coherence`.
- HTTP server, S3 and file-system drivers, gossip, dialing and deadlines, codecs, metrics, memory detection and trace regions: external or easy.
