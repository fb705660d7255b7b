/** reconcileOwnership while the ring moves under it and other goroutines race into it. */
module Reconcile {
  import opened Base
  import opened Sharding
  import opened Storage
  import Coherence
  import PageCache
  import opened ListCaching

  /** Where the one goroutine holding the reconcile mutex is. `pending` are the keys its purge has
      yet to look at; `recent` the keys admitted by others since it took the mutex. */
  datatype Section =
    | Free
    | Selecting(gen: nat, pending: set<Str>, recent: set<Str>)
    | Passed(gen: nat, recent: set<Str>)
    | Purging(gen: nat, pending: set<Str>, recent: set<Str>)

  /** One node among others. `history[g]` is the membership at generation g, so the last one is
      current; `waiting` maps goroutines queued on the mutex to the generation they observed. */
  datatype World = World(store: Store, history: seq<set<Str>>, cache: map<Str, Object>,
                         reconciledGen: nat, waiting: map<nat, nat>, section: Section)

  datatype Event =
    | RingMoves(members: set<Str>)
    | OthersWrite(key: Str, entry: Option<Entry>)          // through the key's owner, another node
    | LocalRead(key: Str, keep: bool)                      // an operation on the fast path
    | LocalWrite(key: Str, entry: Option<Entry>, keep: bool)
    | Evict(keys: set<Str>)
    | Observe(t: nat)
    | Enter(t: nat)
    | Examine(key: Str)
    | Check
    | Wipe(key: Str)
    | Record

  ghost function Gen(w: World): nat
    requires w.history != []
  {
    |w.history| - 1
  }

  /** Whether this node owns a key under a membership. */
  type Owns = (set<Str>, Str) -> bool

  ghost function OwnsBy(place: Str -> nat, self: Str): Owns {
    (members: set<Str>, key: Str) => Owner(members, place, key) == self
  }

  ghost predicate Mine(owns: Owns, w: World, gen: nat, key: Str)
    requires gen < |w.history|
  {
    owns(w.history[gen], key)
  }

  function Updated(store: Store, key: Str, entry: Option<Entry>): Store {
    if entry.Some? then store[key := entry.value] else store - {key}
  }

  /** The cache after an operation that ended with `key` cached as the store has it, or not at all. */
  function Refreshed(store: Store, cache: map<Str, Object>, key: Str, keep: bool): map<Str, Object> {
    if keep && key in store then cache[key := ObjectAt(store, key)] else cache - {key}
  }

  function WithRecent(s: Section, key: Str): Section {
    match s
    case Free => Free
    case Selecting(g, p, f) => Selecting(g, p, f + {key})
    case Passed(g, f) => Passed(g, f + {key})
    case Purging(g, p, f) => Purging(g, p, f + {key})
  }

  ghost predicate Enabled(owns: Owns, w: World, e: Event)
    requires w.history != []
  {
    match e
    case RingMoves(members) => members != {} && [] !in members
    case OthersWrite(key, _) => !Mine(owns, w, Gen(w), key)
    case LocalRead(key, _) => w.reconciledGen == Gen(w) && Mine(owns, w, Gen(w), key)
    case LocalWrite(key, _, _) => w.reconciledGen == Gen(w) && Mine(owns, w, Gen(w), key)
    case Evict(_) => true
    case Observe(t) => t !in w.waiting && w.reconciledGen != Gen(w)
    case Enter(t) => t in w.waiting && w.section.Free?
    case Examine(key) => w.section.Selecting? && key in w.section.pending
    case Check => w.section.Selecting? && w.section.pending == {}
    case Wipe(key) => w.section.Purging? && key in w.section.pending
    case Record => w.section.Passed? || (w.section.Purging? && w.section.pending == {})
  }

  ghost function Step(owns: Owns, w: World, e: Event): World
    requires w.history != [] && Enabled(owns, w, e)
  {
    match e
    case RingMoves(members) => w.(history := w.history + [members])
    case OthersWrite(key, entry) => w.(store := Updated(w.store, key, entry))
    case LocalRead(key, keep) =>
      w.(cache := Refreshed(w.store, w.cache, key, keep), section := WithRecent(w.section, key))
    case LocalWrite(key, entry, keep) =>
      var store' := Updated(w.store, key, entry);
      w.(store := store', cache := Refreshed(store', w.cache, key, keep), section := WithRecent(w.section, key))
    case Evict(keys) => w.(cache := w.cache - keys)
    case Observe(t) => w.(waiting := w.waiting[t := Gen(w)])
    case Enter(t) =>
      var gen := w.waiting[t];
      var w' := w.(waiting := w.waiting - {t});
      if w.reconciledGen == gen then w'
      else if gen > w.reconciledGen + 1 then w'.(section := Purging(gen, w.cache.Keys, {}))
      else w'.(section := Selecting(gen, w.cache.Keys, {}))
    case Examine(key) =>
      // the predicate reads the ring live, key by key
      w.(cache := if Mine(owns, w, Gen(w), key) then w.cache else w.cache - {key},
         section := Selecting(w.section.gen, w.section.pending - {key}, w.section.recent))
    case Check =>
      if Gen(w) == w.section.gen then w.(section := Passed(w.section.gen, w.section.recent))
      else w.(section := Purging(w.section.gen, w.cache.Keys, w.section.recent))
    case Wipe(key) =>
      w.(cache := w.cache - {key}, section := Purging(w.section.gen, w.section.pending - {key}, w.section.recent))
    case Record => w.(reconciledGen := w.section.gen, section := Free)
  }

  // ---------------------------------------------------------------- the invariant

  /** The coherence promise, stated for a node that would record generation `rg`. */
  ghost predicate Coherent(owns: Owns, w: World, rg: nat)
    requires w.history != []
  {
    forall k :: k in w.cache ==>
      && (Gen(w) == rg ==> Mine(owns, w, Gen(w), k))
      && (Gen(w) <= rg + 1 && Mine(owns, w, Gen(w), k) ==> k in w.store && w.cache[k] == ObjectAt(w.store, k))
  }

  ghost predicate SectionOk(owns: Owns, w: World)
    requires w.history != []
  {
    match w.section
    case Free => true
    case Selecting(gen, pending, recent) =>
      // while the ring stands still, what was examined and kept is owned by this node
      && gen <= Gen(w) && gen != w.reconciledGen && gen <= w.reconciledGen + 1
      && (gen > w.reconciledGen && Gen(w) == gen ==>
            forall k :: k in w.cache && k !in pending ==> Mine(owns, w, gen, k))
      && (gen > w.reconciledGen ==> recent == {})
    case Passed(gen, recent) =>
      && gen == w.reconciledGen + 1 && gen <= Gen(w) && recent == {}
      && Coherent(owns, w, gen)
      && (forall k :: k in w.cache ==> Mine(owns, w, gen, k))
    case Purging(gen, pending, recent) =>
      && gen <= Gen(w) && gen != w.reconciledGen
      && (forall k :: k in w.cache ==> k in pending || k in recent)
      && (gen > w.reconciledGen ==> recent == {})
  }

  ghost predicate Inv(owns: Owns, w: World) {
    && w.history != []
    && w.reconciledGen <= Gen(w)
    && (forall t :: t in w.waiting ==> w.waiting[t] <= Gen(w))
    && Coherent(owns, w, w.reconciledGen)
    && SectionOk(owns, w)
  }

  /** Recording an older generation than the current record is always safe: either the ring has
      since moved twice past it and nothing is claimed, or it moved once and every entry is current. */
  lemma SteppingBackIsSafe(owns: Owns, w: World, rg: nat)
    requires w.history != [] && w.reconciledGen <= Gen(w)
    requires Coherent(owns, w, w.reconciledGen)
    requires rg < w.reconciledGen
    ensures Coherent(owns, w, rg)
  {
  }

  lemma RecordKeepsInv(owns: Owns, w: World)
    requires Inv(owns, w) && Enabled(owns, w, Record)
    ensures Inv(owns, Step(owns, w, Record))
  {
    if w.section.gen < w.reconciledGen {
      SteppingBackIsSafe(owns, w, w.section.gen);
    }
    assert Coherent(owns, w, w.section.gen);
  }

  lemma OutsideKeepsInv(owns: Owns, w: World, e: Event)
    requires Inv(owns, w) && Enabled(owns, w, e)
    requires e.RingMoves? || e.OthersWrite? || e.Evict? || e.Observe?
    ensures Inv(owns, Step(owns, w, e))
  {
    var w' := Step(owns, w, e);
    assert forall g :: 0 <= g < |w.history| ==> w'.history[g] == w.history[g];
  }

  lemma LocalKeepsInv(owns: Owns, w: World, e: Event)
    requires Inv(owns, w) && Enabled(owns, w, e)
    requires e.LocalRead? || e.LocalWrite?
    ensures Inv(owns, Step(owns, w, e))
  {
    var w' := Step(owns, w, e);
    assert forall k :: k in w'.cache && k != e.key ==> k in w.cache && w'.cache[k] == w.cache[k];
  }

  lemma SectionKeepsInv(owns: Owns, w: World, e: Event)
    requires Inv(owns, w) && Enabled(owns, w, e)
    requires e.Enter? || e.Examine? || e.Check? || e.Wipe?
    ensures Inv(owns, Step(owns, w, e))
  {
  }

  lemma StepKeepsInv(owns: Owns, w: World, e: Event)
    requires Inv(owns, w) && Enabled(owns, w, e)
    ensures Inv(owns, Step(owns, w, e))
  {
    match e {
      case RingMoves(_) => OutsideKeepsInv(owns, w, e);
      case OthersWrite(_, _) => OutsideKeepsInv(owns, w, e);
      case Evict(_) => OutsideKeepsInv(owns, w, e);
      case Observe(_) => OutsideKeepsInv(owns, w, e);
      case LocalRead(_, _) => LocalKeepsInv(owns, w, e);
      case LocalWrite(_, _, _) => LocalKeepsInv(owns, w, e);
      case Record => RecordKeepsInv(owns, w);
      case _ => SectionKeepsInv(owns, w, e);
    }
  }

  /** What a finished reconcile leaves behind: every entry either was admitted by a concurrent
      operation while it ran - possible only when it recorded a step backwards - or is owned by this
      node at the recorded generation, which the ring had not left when it was checked. After the
      full purge only the first kind is left. */
  ghost predicate Settled(owns: Owns, before: World, after: World)
    requires after.reconciledGen < |after.history|
  {
    var s := before.section;
    && !s.Free? && !s.Selecting? && after.reconciledGen == s.gen
    && (forall k :: k in after.cache ==>
          k in s.recent || (s.Passed? && Mine(owns, after, s.gen, k)))
    && (s.recent != {} ==> s.gen < before.reconciledGen)
  }

  lemma FinishedReconcileSettles(owns: Owns, w: World)
    requires Inv(owns, w) && Enabled(owns, w, Record)
    ensures
      var w' := Step(owns, w, Record);
      && Inv(owns, w')
      && Settled(owns, w, w')
  {
    RecordKeepsInv(owns, w);
  }

  // ---------------------------------------------------------------- whole runs

  ghost predicate RunOk(owns: Owns, w: World, es: seq<Event>)
    requires w.history != []
    decreases |es|
  {
    es != [] ==> Enabled(owns, w, es[0]) && RunOk(owns, Step(owns, w, es[0]), es[1..])
  }

  /** Whenever the fast path lets an operation through and it hits the cache, the cached object is
      the store's - in every interleaving of ring moves, purges, racing reconciles and foreign writes. */
  ghost predicate HitsExact(owns: Owns, w: World, es: seq<Event>)
    requires w.history != [] && RunOk(owns, w, es)
    decreases |es|
  {
    && (w.reconciledGen == Gen(w) ==>
          forall k :: k in w.cache ==> k in w.store && w.cache[k] == ObjectAt(w.store, k))
    && (es != [] ==> HitsExact(owns, Step(owns, w, es[0]), es[1..]))
  }

  lemma {:induction false} RunsHitExactly(owns: Owns, w: World, es: seq<Event>)
    requires Inv(owns, w) && RunOk(owns, w, es)
    ensures HitsExact(owns, w, es)
    decreases |es|
  {
    if es != [] {
      StepKeepsInv(owns, w, es[0]);
      RunsHitExactly(owns, Step(owns, w, es[0]), es[1..]);
    }
  }

  /** Every reconcile that finishes along a run settles. */
  ghost predicate ReconcilesSettle(owns: Owns, w: World, es: seq<Event>)
    requires w.history != [] && RunOk(owns, w, es)
    decreases |es|
  {
    es != [] ==>
      var w' := Step(owns, w, es[0]);
      && (es[0].Record? ==> w'.reconciledGen < |w'.history| && Settled(owns, w, w'))
      && ReconcilesSettle(owns, w', es[1..])
  }

  lemma {:induction false} RunsSettle(owns: Owns, w: World, es: seq<Event>)
    requires Inv(owns, w) && RunOk(owns, w, es)
    ensures ReconcilesSettle(owns, w, es)
    decreases |es|
  {
    if es != [] {
      StepKeepsInv(owns, w, es[0]);
      if es[0].Record? {
        FinishedReconcileSettles(owns, w);
      }
      RunsSettle(owns, Step(owns, w, es[0]), es[1..]);
    }
  }

  lemma FreshNodeHitsExactly(place: Str -> nat, self: Str, store: Store, history: seq<set<Str>>, es: seq<Event>)
    requires history != []
    requires RunOk(OwnsBy(place, self), World(store, history, map[], 0, map[], Free), es)
    ensures HitsExact(OwnsBy(place, self), World(store, history, map[], 0, map[], Free), es)
    ensures ReconcilesSettle(OwnsBy(place, self), World(store, history, map[], 0, map[], Free), es)
  {
    RunsHitExactly(OwnsBy(place, self), World(store, history, map[], 0, map[], Free), es);
    RunsSettle(OwnsBy(place, self), World(store, history, map[], 0, map[], Free), es);
  }

  ghost function Run(owns: Owns, w: World, es: seq<Event>): World
    requires w.history != [] && RunOk(owns, w, es)
    decreases |es|
  {
    if es == [] then w else Run(owns, Step(owns, w, es[0]), es[1..])
  }

  /** A local operation that keeps its object has it cached as the store holds it, a write stores what
      it was given, and neither touches another key. */
  lemma LocalOperationCaches(owns: Owns, w: World, e: Event)
    requires w.history != [] && Enabled(owns, w, e) && (e.LocalRead? || e.LocalWrite?)
    ensures
      var w' := Step(owns, w, e);
      && (e.LocalWrite? ==>
            if e.entry.Some? then e.key in w'.store && w'.store[e.key] == e.entry.value else e.key !in w'.store)
      && (e.LocalRead? ==> w'.store == w.store) && w'.store - {e.key} == w.store - {e.key}
      && (e.key in w'.cache <==> e.keep && e.key in w'.store)
      && (e.key in w'.cache ==>
            var s := w'.store[e.key]; w'.cache[e.key] == Object(e.key, s.value, s.etag, s.modTime))
      && w'.cache - {e.key} == w.cache - {e.key}
  {
  }

  /** The reconciler's own steps, and what other nodes do meanwhile. */
  predicate Undisturbing(e: Event) {
    e.Examine? || e.Check? || e.Record? || e.Observe? || e.OthersWrite?
  }

  /** A selective purge under way, or done, at the ring's current generation. */
  ghost predicate Sparing(w: World)
    requires w.history != []
  {
    w.section.Free? || ((w.section.Selecting? || w.section.Passed?) && w.section.gen == Gen(w))
  }

  lemma {:induction false} SparingKeepsOwned(owns: Owns, w: World, es: seq<Event>, key: Str)
    requires w.history != [] && RunOk(owns, w, es) && Sparing(w)
    requires forall e :: e in es ==> Undisturbing(e)
    requires key in w.cache && Mine(owns, w, Gen(w), key)
    ensures key in Run(owns, w, es).cache && Run(owns, w, es).cache[key] == w.cache[key]
    decreases |es|
  {
    if es != [] {
      assert es[0] in es;
      SparingKeepsOwned(owns, Step(owns, w, es[0]), es[1..], key);
    }
  }

  /** A reconcile for one membership change costs a node nothing it still owns. */
  lemma OneChangeKeepsOwned(owns: Owns, w: World, t: nat, es: seq<Event>, key: Str)
    requires w.history != [] && w.section.Free?
    requires t in w.waiting && w.waiting[t] == Gen(w) == w.reconciledGen + 1
    requires RunOk(owns, w, [Event.Enter(t)] + es) && forall e :: e in es ==> Undisturbing(e)
    requires key in w.cache && Mine(owns, w, Gen(w), key)
    ensures
      var w' := Run(owns, w, [Event.Enter(t)] + es);
      key in w'.cache && w'.cache[key] == w.cache[key]
  {
    assert ([Event.Enter(t)] + es)[1..] == es;
    SparingKeepsOwned(owns, Step(owns, w, Event.Enter(t)), es, key);
  }

  // ---------------------------------------------------------------- the code, ring standing still

  /** A database node. */
  class Database {
    const driver: Driver
    const ring: Ring
    const self: Str
    const listCache: ListCache?
    var cache: map<Str, Object>
    var reconciledGen: nat

    constructor (driver: Driver, ring: Ring, self: Str, listCache: ListCache?)
      ensures this.driver == driver && this.ring == ring && this.self == self && this.listCache == listCache
      ensures Here() == Coherence.Node(map[], 0)
    {
      this.driver, this.ring, this.self, this.listCache := driver, ring, self, listCache;
      cache, reconciledGen := map[], 0;
    }

    ghost function Here(): Coherence.Node
      reads this
    {
      Coherence.Node(cache, reconciledGen)
    }

    ghost predicate Ready()
      reads this, ring, listCache
    {
      ring.Valid() && (listCache != null ==> listCache.Valid())
    }

    /** The cached list pages; none if listing is not cached. */
    ghost function ListPages(): map<Str, PageCache.Cached>
      reads this, listCache
    {
      if listCache == null then map[] else listCache.Pages()
    }

    /** Those left once it has caught up: list pages do not survive a membership change. */
    ghost function ListPagesCaughtUp(): map<Str, PageCache.Cached>
      reads this, ring, listCache
    {
      if reconciledGen == ring.generation then ListPages() else map[]
    }

    /** This node once it has caught up with the ring. */
    ghost function CaughtUp(): Coherence.Node
      reads this, ring
    {
      Coherence.Reconciled(ring.Place, ring.Current(), self, Here())
    }

    method PurgeNotOwned()
      requires ring.Valid()
      modifies this`cache
      ensures cache == map k | k in old(cache) && Coherence.Keeps(ring.Place, ring.Current(), self, k) :: old(cache)[k]
    {
      var todo := cache.Keys;
      while todo != {}
        invariant todo <= old(cache).Keys
        invariant cache == map k | k in old(cache) && (k in todo || Coherence.Keeps(ring.Place, ring.Current(), self, k))
                                :: old(cache)[k]
      {
        var k :| k in todo;
        todo := todo - {k};
        var owner := ring.GetNode(k);
        if owner != [] && owner != self {
          cache := cache - {k};
        }
      }
    }

    method PurgeListings()
      requires Ready()
      modifies listCache
      ensures Ready() && ListPages() == map[]
    {
      if listCache != null {
        listCache.Purge();
      }
    }

    method InvalidateListings(key: Str)
      requires Ready()
      modifies listCache
      ensures Ready() && ListPages() == PageCache.Invalidated(old(ListPages()), key)
    {
      if listCache != null {
        listCache.InvalidateKey(key);
      }
    }

    method ReconcileOwnership()
      requires Ready()
      modifies this, listCache
      ensures Ready() && Here() == old(CaughtUp()) && ListPages() == old(ListPagesCaughtUp())
    {
      var gen := ring.generation;
      if reconciledGen == gen {
        return;
      }
      PurgeListings();
      if gen > reconciledGen + 1 {
        cache := map[];
      } else {
        PurgeNotOwned();
      }
      reconciledGen := gen;
    }

    /** Manager.admit as far as contents go: in, possibly at others' expense, or not cached at all. */
    method Admit(key: Str, obj: Object, ch: Coherence.Choice)
      modifies this`cache
      ensures cache == Coherence.Admitted(old(cache), key, obj, ch)
    {
      cache := cache - ch.evicted - {key};
      if ch.admit {
        cache := cache[key := obj];
      }
    }

    /** The owner's side of a read. */
    method GetRaw(key: Str, ch: Coherence.Choice) returns (reply: Coherence.Reply)
      requires Ready()
      modifies this, listCache
      ensures reconciledGen == old(CaughtUp()).reconciledGen
      ensures (driver.data, cache, reply)
           == Coherence.Managed(old(driver.data), old(CaughtUp()).cache, Coherence.Get(key), ch)
      ensures Ready() && ListPages() == old(ListPagesCaughtUp())
    {
      ReconcileOwnership();
      if key in cache && !ch.expired {
        return Coherence.Found(cache[key]);
      }
      if !ch.disk.Fine? {
        cache := cache - {key};
        return Coherence.Failed;
      }
      var r := driver.Get(key);
      if r.Err? {
        cache := cache - {key};
        return Coherence.Missing;
      }
      Admit(key, r.value, ch);
      return Coherence.Found(r.value);
    }

    /** The owner's side of a write. */
    method PutRaw(key: Str, value: seq<byte>, expected: Str, ch: Coherence.Choice) returns (reply: Coherence.Reply)
      requires Ready()
      modifies this, driver, listCache
      ensures reconciledGen == old(CaughtUp()).reconciledGen
      ensures (driver.data, cache, reply)
           == Coherence.Managed(old(driver.data), old(CaughtUp()).cache, Coherence.Put(key, value, expected), ch)
      ensures Ready() && ListPages() == if reply.Wrote? then PageCache.Invalidated(old(ListPagesCaughtUp()), key)
                                        else old(ListPagesCaughtUp())
    {
      ReconcileOwnership();
      if ch.disk.Down? {
        cache := cache - {key};
        return Coherence.Failed;
      }
      var r := driver.Put(key, value, expected, ch.stamp);
      if ch.disk.Lost? {
        cache := cache - {key};
        return Coherence.Failed;
      }
      if r.Err? {
        cache := cache - {key};
        return Coherence.Refused(r.error);
      }
      Admit(key, r.value, ch);
      InvalidateListings(key);
      return Coherence.Wrote(r.value);
    }

    /** The owner's side of a delete; the key is dropped from the cache whatever the driver says. */
    method DeleteRaw(key: Str, expected: Str, ch: Coherence.Choice) returns (reply: Coherence.Reply)
      requires Ready()
      modifies this, driver, listCache
      ensures reconciledGen == old(CaughtUp()).reconciledGen
      ensures (driver.data, cache, reply)
           == Coherence.Managed(old(driver.data), old(CaughtUp()).cache, Coherence.Delete(key, expected), ch)
      ensures Ready() && ListPages() == if reply.Deleted? then PageCache.Invalidated(old(ListPagesCaughtUp()), key)
                                        else old(ListPagesCaughtUp())
    {
      ReconcileOwnership();
      reply := Coherence.Failed;
      if !ch.disk.Down? {
        var r := driver.Delete(key, expected);
        if !ch.disk.Lost? {
          reply := if r.Err? then Coherence.Refused(r.error) else Coherence.Deleted;
        }
      }
      cache := cache - {key};
      if reply.Deleted? {
        InvalidateListings(key);
      }
    }
  }
}
