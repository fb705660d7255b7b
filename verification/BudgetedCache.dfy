/** The cache managers and the budget they share, as objects. */
module BudgetedCache {
  import opened Base
  import opened Storage
  import opened Lru
  import L = Ledger

  /** A sharded LRU cache. `order` is the one list its shards amount to. */
  class Manager {
    const hash: Str -> nat
    const maxObjectSize: int
    const budget: Budget
    var shards: seq<Shard>
    ghost var order: seq<Item>

    ghost predicate Valid()
      reads this
    {
      Represents(shards, hash, order)
    }

    /** A new manager; registering it with the budget is the caller's next step. */
    constructor (hash: Str -> nat, maxObjectSize: int, budget: Budget)
      ensures Valid() && order == [] && this.budget == budget
    {
      this.hash, this.maxObjectSize, this.budget := hash, maxObjectSize, budget;
      shards := seq(SHARD_COUNT, _ => Shard(map[], [], 0));
      order := [];
    }

    /** The hit path of Get: a fresh entry is stamped, moved to the front and returned. */
    method Lookup(key: Str, now: nat, ttl: int) returns (hit: Option<Object>)
      requires Valid() && Before(order, now)
      modifies this
      ensures Valid()
      ensures
        var found := Find(old(order), key);
        if found.Some? && (ttl <= 0 || now - found.value.lastAccessed < ttl)
        then hit == Some(found.value.obj) && order == TouchIn(old(order), key, now)
        else hit == None && order == old(order) && shards == old(shards)
      ensures forall j :: 0 <= j < |old(order)| && old(order)[j].key == key ==>
        if ttl <= 0 || now - old(order)[j].lastAccessed < ttl
        then hit == Some(old(order)[j].obj)
          && order == [Item(key, old(order)[j].obj, old(order)[j].size, now)] + old(order)[..j] + old(order)[j + 1..]
        else hit == None
      ensures (forall it :: it in old(order) ==> it.key != key) ==> hit == None
    {
      FindSpelled(key);
      TouchRefreshes(order, key, now);
      var i := ShardOf(hash)(key);
      FindInShard(shards, hash, order, key);
      if key in shards[i].items {
        var item := shards[i].items[key];
        if ttl <= 0 || now - item.lastAccessed < ttl {
          StepSimulates(shards, hash, order, Touch(key, now));
          shards := shards[i := Touched(shards[i], key, now)];
          order := TouchIn(order, key, now);
          return Some(item.obj);
        }
      }
      return None;
    }

    lemma FindSpelled(key: Str)
      requires Valid()
      ensures forall j :: 0 <= j < |order| && order[j].key == key ==> Find(order, key) == Some(order[j])
      ensures (forall it :: it in order ==> it.key != key) ==> Find(order, key) == None
    {
      FindElem(order, key);
      forall j | 0 <= j < |order| && order[j].key == key ensures Find(order, key) == Some(order[j]) {
        FindAt(order, j);
      }
    }

    /** The oldest entry of all shards goes. Run alone, the first of the code's three attempts always
        finds its victim still in place. */
    method EvictOldest() returns (freed: nat, ok: bool)
      requires Valid()
      modifies this
      ensures Valid()
      ensures if old(order) == [] then !ok && freed == 0 && order == []
              else ok && order == old(order)[..|old(order)| - 1] && freed == old(order)[|old(order)| - 1].size
    {
      var best: Option<nat> := None;
      var oldest: nat := 0;
      for i := 0 to SHARD_COUNT
        invariant Scan(shards, i, best, oldest) == Scan(shards, 0, None, 0)
      {
        if shards[i].lru != [] {
          var back := shards[i].lru[|shards[i].lru| - 1];
          if oldest == 0 || back.lastAccessed < oldest {
            oldest, best := back.lastAccessed, Some(i);
          }
        }
      }
      ScanFindsOldest(shards, hash, order);
      if best.None? {
        return 0, false;
      }
      var victim := Back(shards[best.value]);
      var (s, size) := Dropped(shards[best.value], victim.key);
      DropLast(order);
      DropRepresents(shards, hash, order, victim.key);
      DroppedOk(shards[best.value], victim.key);
      SizeOfElem(shards[best.value].lru, victim);
      shards := shards[best.value := s];
      order := order[..|order| - 1];
      return size, true;
    }

    /** The part of admit under the shard lock. */
    method Place(it: Item) returns (replaced: nat)
      requires Valid() && Before(order, it.lastAccessed)
      modifies this
      ensures Valid()
      ensures order == [it] + Drop(old(order), it.key) && replaced == SizeOf(old(order), it.key)
    {
      var i := ShardOf(hash)(it.key);
      StepSimulates(shards, hash, order, Insert(it));
      SizeAcross(it.key);
      var (s, r) := Inserted(shards[i], it);
      shards := shards[i := s];
      order := [it] + Drop(order, it.key);
      replaced := r;
    }

    /** The part of Invalidate under the shard lock. */
    method Forget(key: Str) returns (freed: nat)
      requires Valid()
      modifies this
      ensures Valid()
      ensures order == Drop(old(order), key) && freed == SizeOf(old(order), key)
    {
      var i := ShardOf(hash)(key);
      DropRepresents(shards, hash, order, key);
      SizeAcross(key);
      var (s, f) := Dropped(shards[i], key);
      shards := shards[i := s];
      order := Drop(order, key);
      freed := f;
    }

    lemma SizeAcross(key: Str)
      requires Valid()
      ensures
        var s := shards[ShardOf(hash)(key)];
        SizeOf(order, key) == if key in s.items then s.items[key].size else 0
    {
      FindInShard(shards, hash, order, key);
      FindSize(order, key);
    }

    /** Drops every entry whose key satisfies `pred`, shard by shard; the release comes after. */
    method Sweep(pred: Str -> bool) returns (freed: nat)
      requires Valid()
      modifies this
      ensures Valid()
      ensures order == Keep(old(order), pred) && freed == Sizes(old(order)) - Sizes(order)
    {
      freed := 0;
      ghost var gone: set<Str> := {};
      MinusNothing(order);
      for i := 0 to SHARD_COUNT
        invariant Valid() && order == Minus(old(order), gone)
        invariant freed == Sizes(old(order)) - Sizes(order)
        invariant forall k :: k in gone ==> pred(k)
        invariant forall it :: it in order && ShardOf(hash)(it.key) < i ==> !pred(it.key)
      {
        var f, g := PurgeShard(i, pred, old(order), gone);
        freed, gone := freed + f, g;
      }
      MinusIsKeep(old(order), gone, pred);
    }

    method PurgeShard(i: nat, pred: Str -> bool, ghost all: seq<Item>, ghost gone0: set<Str>)
      returns (freed: nat, ghost gone: set<Str>)
      requires Valid() && i < SHARD_COUNT && order == Minus(all, gone0)
      requires forall k :: k in gone0 ==> pred(k)
      modifies this
      ensures Valid() && order == Minus(all, gone)
      ensures freed == Sizes(old(order)) - Sizes(order)
      ensures forall k :: k in gone ==> pred(k)
      ensures forall it :: it in order ==> it in old(order)
      ensures forall it :: it in order && ShardOf(hash)(it.key) == i ==> !pred(it.key)
    {
      OnlyElems(order, ShardOf(hash), i);
      freed, gone := PurgeListed(shards[i].lru, pred, all, gone0);
    }

    /** The walk along one shard's list, removing as it goes. */
    method PurgeListed(visit: seq<Item>, pred: Str -> bool, ghost all: seq<Item>, ghost gone0: set<Str>)
      returns (freed: nat, ghost gone: set<Str>)
      requires Valid() && order == Minus(all, gone0)
      requires forall k :: k in gone0 ==> pred(k)
      modifies this
      ensures Valid() && order == Minus(all, gone)
      ensures freed == Sizes(old(order)) - Sizes(order)
      ensures forall k :: k in gone ==> pred(k)
      ensures forall it :: it in order ==> it in old(order) && !(it in visit && pred(it.key))
    {
      freed, gone := 0, gone0;
      for j := 0 to |visit|
        invariant Valid() && order == Minus(all, gone)
        invariant freed == Sizes(old(order)) - Sizes(order)
        invariant gone0 <= gone && forall k :: k in gone ==> pred(k)
        invariant forall m :: 0 <= m < j && pred(visit[m].key) ==> visit[m].key in gone
      {
        if pred(visit[j].key) {
          var f := ForgetOne(visit[j].key, all, gone);
          freed, gone := freed + f, gone + {visit[j].key};
        }
      }
      MinusElems(all, gone);
      MinusElems(all, gone0);
    }

    method ForgetOne(key: Str, ghost all: seq<Item>, ghost gone: set<Str>) returns (freed: nat)
      requires Valid() && order == Minus(all, gone)
      modifies this
      ensures Valid() && order == Minus(all, gone + {key})
      ensures freed == Sizes(old(order)) - Sizes(order)
    {
      SizesDrop(order, key);
      MinusDrop(all, gone, key);
      freed := Forget(key);
    }

    // -------------------------------------------------------------- operations on the shared books

    /** This manager is one of its budget's evictors and the books are in order. */
    ghost predicate Open()
      reads this, budget, budget.evictors
    {
      budget.Valid() && this in budget.evictors && L.Balanced(budget.Books())
    }

    method Invalidate(key: Str)
      requires Open()
      modifies this, budget
      ensures Open() && budget.Books() == L.Invalidated(old(budget.Books()), this, key)
    {
      ghost var was := budget.Books();
      budget.BooksFacts();
      L.InvalidatedBalanced(was, this, key);
      var freed := Forget(key);
      budget.Changed(this, was);
      if freed > 0 {
        budget.Release(freed);
      }
    }

    /** Drops every entry whose key satisfies `pred` and hands the bytes back in one release. */
    method PurgeIf(pred: Str -> bool)
      requires Open()
      modifies this, budget
      ensures Open() && order == Keep(old(order), pred)
      ensures forall it :: it in order <==> it in old(order) && !pred(it.key)
      ensures this in old(budget.Books()).queues
      ensures budget.Books() == L.Purged(old(budget.Books()), this, order)
    {
      ghost var was := budget.Books();
      budget.BooksFacts();
      KeepElems(order, pred);
      var freed := SweepRegistered(pred);
      L.PurgedBalanced(was, this, order);
      if freed > 0 {
        budget.Release(freed);
      }
    }

    method SweepRegistered(pred: Str -> bool) returns (freed: nat)
      requires budget.Valid() && this in budget.evictors
      modifies this
      ensures budget.Valid() && order == Keep(old(order), pred)
      ensures freed == Sizes(old(order)) - Sizes(order)
      ensures
        var was := old(budget.Books());
        this in was.queues && was.queues[this] == old(order)
        && budget.Books() == was.(queues := was.queues[this := order])
    {
      ghost var was := budget.Books();
      freed := Sweep(pred);
      budget.Changed(this, was);
    }

    /** Caches an object just read or written, or makes sure its key is not cached. */
    method Admit(key: Str, obj: Object, now: nat)
      requires Open() && Before(order, now)
      modifies this, budget, budget.evictors
      ensures Open()
      ensures budget.Books() == L.Admitted(old(budget.Books()), this, Item(key, obj, |obj.value|, now), maxObjectSize)
    {
      ghost var was := budget.Books();
      var it := Item(key, obj, |obj.value|, now);
      budget.BooksFacts();
      L.AdmittedBalanced(was, this, it, maxObjectSize);
      if maxObjectSize > 0 && it.size > maxObjectSize {
        Invalidate(key);
        return;
      }
      L.ReserveExact(was, it.size);
      var reserved := budget.Reserve(it.size);
      if !reserved {
        assert budget.Books() == was;
        Invalidate(key);
        return;
      }
      Settle(it);
    }

    /** The tail of admit once the bytes are reserved. */
    method Settle(it: Item)
      requires budget.Valid() && this in budget.evictors && Before(order, it.lastAccessed)
      modifies this, budget
      ensures budget.Valid() && budget.evictors == old(budget.evictors)
      ensures this in old(budget.Books()).queues
      ensures budget.Books() == L.Placed(old(budget.Books()), this, it)
    {
      ghost var was := budget.Books();
      budget.BooksFacts();
      var replaced := Place(it);
      budget.Changed(this, was);
      if replaced > 0 {
        budget.Release(replaced);
      }
    }
  }

  /** A byte accountant shared by several managers. */
  class Budget {
    const limit: int
    var used: int
    var evictors: seq<Manager>
    var cursor: nat

    constructor (limit: int)
      ensures Valid() && Books() == L.Ledger(limit, 0, [], 0, map[]) && L.Balanced(Books())
    {
      this.limit := limit;
      used, evictors, cursor := 0, [], 0;
      new;
      L.HeldByNobody(Books());
    }

    ghost predicate Valid()
      reads this, evictors
    {
      && (forall m :: m in evictors ==> m.Valid())
      && (if evictors == [] then cursor == 0 else cursor < |evictors|)
    }

    ghost function Books(): L.Ledger<Manager>
      reads this, evictors
    {
      L.Ledger(limit, used, evictors, cursor, map m | m in evictors :: m.order)
    }

    lemma BooksFacts()
      requires Valid()
      ensures L.Valid(Books()) && L.AllDistinct(Books().queues)
      ensures forall m :: m in evictors <==> m in Books().queues
    {
    }

    /** When only `m` differs from what the books said, only its queue differs. */
    lemma Changed(m: Manager, was: L.Ledger<Manager>)
      requires m in evictors && was.queues.Keys == Elems(evictors)
      requires forall x :: x in evictors && x != m ==> x.order == was.queues[x]
      ensures Books().queues == was.queues[m := m.order]
    {
    }

    method Register(e: Manager)
      requires Valid() && e.Valid()
      modifies this
      ensures Valid() && evictors == old(evictors) + [e]
      ensures used == old(used) && cursor == old(cursor)
    {
      evictors := evictors + [e];
    }

    method Release(n: int)
      requires Valid()
      modifies this`used
      ensures Valid() && Books() == old(Books()).(used := L.Released(old(used), n))
    {
      if n <= 0 {
        return;
      }
      Deduct(n);
    }

    /** Subtract from the account, never below zero. */
    method Deduct(n: nat)
      requires Valid()
      modifies this`used
      ensures Valid() && Books() == old(Books()).(used := Clamp(old(used) - n))
    {
      used := used - n;
      if used < 0 {
        used := 0;
      }
      assert Books().queues == old(Books()).queues;
    }

    method Charge(n: nat)
      requires Valid()
      modifies this`used
      ensures Valid() && Books() == old(Books()).(used := old(used) + n)
    {
      used := used + n;
      assert Books().queues == old(Books()).queues;
    }

    method Advance()
      requires Valid() && evictors != []
      modifies this`cursor
      ensures Valid() && L.Valid(old(Books())) && Books() == L.Skipped(old(Books()))
    {
      BooksFacts();
      L.StepIs(cursor, |evictors|);
      cursor := (cursor + 1) % |evictors|;
      assert Books().queues == old(Books()).queues;
    }

    method Reserve(n: int) returns (ok: bool)
      requires Valid()
      modifies this, evictors
      ensures Valid() && evictors == old(evictors)
      ensures
        L.Valid(old(Books())) &&
        var r := L.Reserve(old(Books()), n);
        ok == r.ok && Books() == r.ledger
    {
      BooksFacts();
      var need := if n < 0 then 0 else n;
      if limit <= 0 || used + need <= limit {
        Charge(need);
        return true;
      }
      if need > limit {
        return false;
      }
      ok := EvictFor(need);
    }

    /** The round-robin eviction loop. */
    method EvictFor(need: nat) returns (ok: bool)
      requires Valid() && limit > 0
      modifies this, evictors
      ensures Valid() && evictors == old(evictors)
      ensures
        L.Valid(old(Books())) &&
        var r := L.EvictUntil(old(Books()), need, 0);
        ok == r.ok && Books() == r.ledger
    {
      BooksFacts();
      ghost var goal := L.EvictUntil(Books(), need, 0);
      var exhausted: nat := 0;
      ok := false;
      while !ok && |evictors| > 0 && exhausted < |evictors|
        invariant Valid() && evictors == old(evictors) && L.Valid(Books())
        invariant if ok then goal.ok && Books() == goal.ledger
                  else L.SameEnd(L.EvictUntil(Books(), need, exhausted), goal)
        decreases !ok, L.Entries(Books().queues), |evictors| - exhausted
      {
        exhausted, ok := OneRound(need, exhausted);
      }
    }

    /** Ask the evictor at the cursor; done if what it gave makes the request fit. */
    method OneRound(need: nat, exhausted: nat) returns (exhausted': nat, fit: bool)
      requires Valid() && limit > 0 && exhausted < |evictors|
      modifies this, evictors
      ensures Valid() && evictors == old(evictors) && L.Valid(Books()) && L.Valid(old(Books()))
      ensures
        var r := L.EvictUntil(old(Books()), need, exhausted);
        if fit then r.ok && Books() == r.ledger
        else
          && L.SameEnd(r, L.EvictUntil(Books(), need, exhausted'))
          && (L.Entries(Books().queues) < L.Entries(old(Books()).queues)
              || (Books().queues == old(Books()).queues && exhausted' == exhausted + 1))
    {
      ghost var was := Books();
      BooksFacts();
      L.CursorInQueues(was);
      L.Round(was, need, exhausted);
      var gave := Ask();
      BooksFacts();
      if !gave {
        return exhausted + 1, false;
      }
      if used + need <= limit {
        Charge(need);
        return 0, true;
      }
      return 0, false;
    }

    /** Advance the cursor, ask that evictor for its oldest entry, settle the account. */
    method Ask() returns (gave: bool)
      requires Valid() && evictors != []
      modifies this, evictors
      ensures Valid() && evictors == old(evictors)
      ensures
        var was := old(Books());
        && L.Valid(was) && was.ring[was.cursor] in was.queues
        && (gave <==> was.queues[was.ring[was.cursor]] != [])
        && Books() == if gave then L.Popped(was) else L.Skipped(was)
    {
      BooksFacts();
      L.CursorInQueues(Books());
      var e := evictors[cursor];
      Advance();
      var freed;
      freed, gave := TakeFrom(e);
      if gave {
        Deduct(freed);
      }
    }

    method TakeFrom(e: Manager) returns (freed: nat, gave: bool)
      requires Valid() && e in evictors
      modifies e
      ensures Valid()
      ensures
        var was := old(Books());
        e in was.queues &&
        var q := was.queues[e];
        if q == [] then !gave && Books() == was
        else gave && freed == q[|q| - 1].size && Books() == was.(queues := was.queues[e := q[..|q| - 1]])
    {
      ghost var was := Books();
      freed, gave := e.EvictOldest();
      Changed(e, was);
    }

    /** Empties a departing manager and takes its bytes off the account. */
    method Drain(e: Manager)
      requires e.Valid()
      modifies this`used, e
      ensures e.Valid() && e.order == [] && used == L.Drained(old(used), old(e.order))
    {
      while true
        invariant e.Valid()
        invariant L.Drained(used, e.order) == L.Drained(old(used), old(e.order))
        decreases |e.order|
      {
        var freed, ok := e.EvictOldest();
        if !ok {
          break;
        }
        used := used - freed;
        if used < 0 {
          used := 0;
        }
      }
    }

    /** The first position of a manager in the rotation. */
    method Search(e: Manager) returns (i: nat)
      ensures if e in evictors then i == L.IndexOf(evictors, e) else i == |evictors|
    {
      i := 0;
      while i < |evictors| && evictors[i] != e
        invariant i <= |evictors| && e !in evictors[..i]
      {
        i := i + 1;
      }
      if i < |evictors| {
        L.FirstIndex(evictors, e, i);
      } else {
        assert evictors[..i] == evictors;
      }
    }

    /** Order-preserving removal, the cursor following its successor. */
    method RemoveSlot(i: nat)
      requires i < |evictors| && cursor < |evictors|
      modifies this`evictors, this`cursor
      ensures evictors == L.WithoutAt(old(evictors), i)
      ensures cursor == L.CursorWithout(old(cursor), i, |evictors|)
      ensures if evictors == [] then cursor == 0 else cursor < |evictors|
    {
      L.RotationWithout(evictors, cursor, i);
      evictors := L.WithoutAt(evictors, i);
      if cursor > i {
        cursor := cursor - 1;
      }
      if |evictors| == 0 {
        cursor := 0;
      } else if cursor >= |evictors| {
        cursor := cursor % |evictors|;
      }
    }

    method Unregister(e: Manager)
      requires Valid()
      modifies this, e
      ensures Valid() && L.Valid(old(Books()))
      ensures Books() == L.Unregister(old(Books()), e)
      ensures e in old(evictors) ==> e.order == []
    {
      BooksFacts();
      ghost var was := Books();
      var i := Search(e);
      if i == |evictors| {
        return;
      }
      Drain(e);
      assert forall m :: m in was.ring ==> m.Valid();
      RemoveSlot(i);
      assert forall m :: m in evictors ==> m in was.ring;
      Removed(e, was);
    }

    lemma Removed(e: Manager, was: L.Ledger<Manager>)
      requires L.Valid(was) && e in was.ring && e.order == []
      requires limit == was.limit && used == L.Drained(was.used, was.queues[e])
      requires evictors == L.WithoutAt(was.ring, L.IndexOf(was.ring, e))
      requires cursor == L.CursorWithout(was.cursor, L.IndexOf(was.ring, e), |evictors|)
      requires forall x :: x in was.ring && x != e ==> x in was.queues && x.order == was.queues[x]
      ensures Books() == L.Unregister(was, e)
    {
      L.RemovedElems(was.ring, L.IndexOf(was.ring, e));
      assert forall x :: x in evictors <==> x in Elems(evictors);
      assert forall x :: x in was.ring <==> x in Elems(was.ring);
    }
  }

  // ---------------------------------------------------------------- purging

  lemma {:induction false} FindSize(g: seq<Item>, key: Str)
    ensures SizeOf(g, key) == if Find(g, key).Some? then Find(g, key).value.size else 0
  {
    if g != [] { FindSize(g[1..], key); }
  }

  /** The entries whose keys a purge spares. */
  function Keep(g: seq<Item>, pred: Str -> bool): seq<Item> {
    if g == [] then []
    else if pred(g[0].key) then Keep(g[1..], pred)
    else [g[0]] + Keep(g[1..], pred)
  }

  lemma {:induction false} KeepElems(g: seq<Item>, pred: Str -> bool)
    ensures forall it :: it in Keep(g, pred) <==> it in g && !pred(it.key)
  {
    if g != [] { KeepElems(g[1..], pred); }
  }

  function Minus(g: seq<Item>, gone: set<Str>): seq<Item> {
    if g == [] then []
    else if g[0].key in gone then Minus(g[1..], gone)
    else [g[0]] + Minus(g[1..], gone)
  }

  lemma {:induction false} MinusNothing(g: seq<Item>)
    ensures Minus(g, {}) == g
  {
    if g != [] { MinusNothing(g[1..]); }
  }

  lemma {:induction false} MinusElems(g: seq<Item>, gone: set<Str>)
    ensures forall it :: it in Minus(g, gone) <==> it in g && it.key !in gone
  {
    if g != [] { MinusElems(g[1..], gone); }
  }

  lemma {:induction false} MinusDrop(g: seq<Item>, gone: set<Str>, key: Str)
    ensures Minus(g, gone + {key}) == Drop(Minus(g, gone), key)
  {
    if g != [] {
      MinusDrop(g[1..], gone, key);
      if g[0].key !in gone {
        assert ([g[0]] + Minus(g[1..], gone))[1..] == Minus(g[1..], gone);
      }
    }
  }

  lemma {:induction false} MinusIsKeep(g: seq<Item>, gone: set<Str>, pred: Str -> bool)
    requires forall k :: k in gone ==> pred(k)
    requires forall it :: it in Minus(g, gone) ==> !pred(it.key)
    ensures Minus(g, gone) == Keep(g, pred)
  {
    if g != [] {
      if g[0].key !in gone {
        assert g[0] in Minus(g, gone);
      }
      assert forall it :: it in Minus(g[1..], gone) ==> it in Minus(g, gone);
      MinusIsKeep(g[1..], gone, pred);
    }
  }
}
