/** Budget accounting under every interleaving of the goroutines that use it. */
module BudgetSteps {
  import opened Base
  import L = Ledger
  import Lru

  /** A cache entry's place: which manager, which key. (Shards only decide which lock is taken.) */
  datatype Slot = Slot(manager: nat, key: Str)

  /** `size` was reserved for the entry; `length` is what a caller holding the object may have made
      of its value since. */
  datatype Entry = Entry(size: nat, length: nat)

  /** What one goroutine is in the middle of. */
  datatype Phase =
    | Idle
    | Evicting(slot: Slot, n: nat, exhausted: nat)        // in Reserve's loop, holding the budget mutex
    | Settling(slot: Slot, n: nat, freed: nat)            // evicted an entry, account not yet adjusted
    | Admitting(slot: Slot, n: nat)                       // reserved, not yet inserted
    | Purging(manager: nat, freed: nat)                   // PurgeIf or Invalidate, collecting
    | Releasing(n: nat)                                   // removed from a shard, not yet released
    | Draining(manager: nat)                              // in Unregister, holding the budget mutex
    | DrainSettling(manager: nat, freed: nat)

  datatype Heap = Heap(limit: int, used: int, evictors: seq<nat>, cursor: nat,
                       entries: map<Slot, Entry>, threads: map<nat, Phase>, holder: Option<nat>)

  /** Bytes a goroutine has accounted for but not (or no longer) in any cache. */
  function Carried(p: Phase): nat {
    match p
    case Settling(_, _, freed) => freed
    case Admitting(_, n) => n
    case Purging(_, freed) => freed
    case Releasing(n) => n
    case DrainSettling(_, freed) => freed
    case _ => 0
  }

  predicate HoldsBudget(p: Phase) {
    p.Evicting? || p.Settling? || p.Draining? || p.DrainSettling?
  }

  datatype Event =
    | Spawn(t: nat)
    | Register(manager: nat)
    | Reserve(t: nat, slot: Slot, n: nat)
    | EvictOne(t: nat, victim: Slot)       // EvictOldest found and removed an entry
    | EvictNone(t: nat)                    // EvictOldest came back empty-handed
    | Settle(t: nat)
    | Insert(t: nat)
    | BeginPurge(t: nat, manager: nat)
    | PurgeOne(t: nat, slot: Slot)
    | EndPurge(t: nat)
    | Release(t: nat)
    | Unregister(t: nat, manager: nat)
    | DrainOne(t: nat, victim: Slot)
    | DrainSettle(t: nat)
    | DrainDone(t: nat)
    | Mutate(slot: Slot, length: nat)      // a caller reslices an object it was handed

  ghost predicate At(h: Heap, t: nat) {
    t in h.threads
  }

  ghost predicate Enabled(h: Heap, e: Event) {
    match e
    case Spawn(t) => t !in h.threads
    case Register(_) => h.holder == None
    case Reserve(t, _, _) => At(h, t) && h.threads[t].Idle? && h.holder == None
    case EvictOne(t, victim) =>
      && At(h, t) && h.threads[t].Evicting? && victim in h.entries
      && h.threads[t].exhausted < |h.evictors| && h.cursor < |h.evictors|
      && victim.manager == h.evictors[h.cursor]
    case EvictNone(t) =>
      && At(h, t) && h.threads[t].Evicting?
      && h.threads[t].exhausted < |h.evictors| && h.cursor < |h.evictors|
    case Settle(t) => At(h, t) && h.threads[t].Settling?
    case Insert(t) => At(h, t) && h.threads[t].Admitting?
    case BeginPurge(t, _) => At(h, t) && h.threads[t].Idle?
    case PurgeOne(t, slot) =>
      At(h, t) && h.threads[t].Purging? && slot in h.entries && slot.manager == h.threads[t].manager
    case EndPurge(t) => At(h, t) && h.threads[t].Purging?
    case Release(t) => At(h, t) && h.threads[t].Releasing? && h.holder == None
    case Unregister(t, manager) =>
      At(h, t) && h.threads[t].Idle? && h.holder == None && manager in h.evictors
    case DrainOne(t, victim) =>
      At(h, t) && h.threads[t].Draining? && victim in h.entries && victim.manager == h.threads[t].manager
    case DrainSettle(t) => At(h, t) && h.threads[t].DrainSettling?
    case DrainDone(t) =>
      At(h, t) && h.threads[t].Draining? && h.threads[t].manager in h.evictors && h.cursor < |h.evictors|
    case Mutate(slot, _) => slot in h.entries
  }

  ghost function To(h: Heap, t: nat, p: Phase): map<nat, Phase> {
    h.threads[t := p]
  }

  ghost function Step(h: Heap, e: Event): Heap
    requires Enabled(h, e)
  {
    match e
    case Spawn(t) => h.(threads := To(h, t, Idle))
    case Register(m) => h.(evictors := h.evictors + [m])
    case Reserve(t, slot, n) =>
      if h.limit <= 0 || h.used + n <= h.limit then h.(used := h.used + n, threads := To(h, t, Admitting(slot, n)))
      else if n > h.limit then h.(threads := To(h, t, Purging(slot.manager, 0)))   // refused: invalidate
      else h.(threads := To(h, t, Evicting(slot, n, 0)), holder := Some(t))
    case EvictOne(t, victim) =>
      var p := h.threads[t];
      h.(cursor := (h.cursor + 1) % |h.evictors|, entries := h.entries - {victim},
         threads := To(h, t, Settling(p.slot, p.n, h.entries[victim].size)))
    case EvictNone(t) =>
      var p := h.threads[t];
      var h' := h.(cursor := (h.cursor + 1) % |h.evictors|);
      if p.exhausted + 1 < |h.evictors| then h'.(threads := To(h, t, Evicting(p.slot, p.n, p.exhausted + 1)))
      else h'.(threads := To(h, t, Purging(p.slot.manager, 0)), holder := None)
    case Settle(t) =>
      var p := h.threads[t];
      var used := Lru.Clamp(h.used - p.freed);
      if used + p.n <= h.limit
      then h.(used := used + p.n, threads := To(h, t, Admitting(p.slot, p.n)), holder := None)
      else h.(used := used, threads := To(h, t, Evicting(p.slot, p.n, 0)))
    case Insert(t) =>
      var p := h.threads[t];
      var replaced := if p.slot in h.entries then h.entries[p.slot].size else 0;
      h.(entries := h.entries[p.slot := Entry(p.n, p.n)], threads := To(h, t, Releasing(replaced)))
    case BeginPurge(t, m) => h.(threads := To(h, t, Purging(m, 0)))
    case PurgeOne(t, slot) =>
      var p := h.threads[t];
      h.(entries := h.entries - {slot}, threads := To(h, t, Purging(p.manager, p.freed + h.entries[slot].size)))
    case EndPurge(t) => h.(threads := To(h, t, Releasing(h.threads[t].freed)))
    case Release(t) =>
      var n := h.threads[t].n;
      h.(used := if n <= 0 then h.used else Lru.Clamp(h.used - n), threads := To(h, t, Idle))
    case Unregister(t, m) => h.(threads := To(h, t, Draining(m)), holder := Some(t))
    case DrainOne(t, victim) =>
      h.(entries := h.entries - {victim}, threads := To(h, t, DrainSettling(h.threads[t].manager, h.entries[victim].size)))
    case DrainSettle(t) =>
      var p := h.threads[t];
      h.(used := Lru.Clamp(h.used - p.freed), threads := To(h, t, Draining(p.manager)))
    case DrainDone(t) =>
      var i := L.IndexOf(h.evictors, h.threads[t].manager);
      var ring := L.WithoutAt(h.evictors, i);
      h.(evictors := ring, cursor := L.CursorWithout(h.cursor, i, |ring|),
         threads := To(h, t, Idle), holder := None)
    case Mutate(slot, length) => h.(entries := h.entries[slot := h.entries[slot].(length := length)])
  }

  // ---------------------------------------------------------------- conservation

  ghost function EntrySizes(entries: map<Slot, Entry>): map<Slot, nat> {
    map s | s in entries :: entries[s].size
  }

  ghost function Cached(h: Heap): nat {
    Sum(EntrySizes(h.entries))
  }

  ghost function Carries(threads: map<nat, Phase>): map<nat, nat> {
    map t | t in threads :: Carried(threads[t])
  }

  ghost function InHand(h: Heap): nat {
    Sum(Carries(h.threads))
  }

  /** Every byte on the account is in a cache or in some goroutine's hands, the ceiling holds, and
      only the holder of the budget mutex is inside it. */
  ghost predicate Inv(h: Heap) {
    && h.used == Cached(h) + InHand(h)
    && (h.limit > 0 ==> h.used <= h.limit)
    && MutexOk(h)
  }

  ghost predicate MutexOk(h: Heap) {
    && (forall t :: t in h.threads && HoldsBudget(h.threads[t]) ==> h.holder == Some(t))
    && (forall t :: t in h.threads && (h.threads[t].Evicting? || h.threads[t].Settling?) ==> h.limit > 0)
  }

  lemma StepKeepsMutex(h: Heap, e: Event)
    requires MutexOk(h) && Enabled(h, e)
    ensures MutexOk(Step(h, e))
  {
  }

  /** The rotation stays well formed, and a manager being drained is still in it. */
  ghost predicate RingOk(h: Heap) {
    && (if h.evictors == [] then h.cursor == 0 else h.cursor < |h.evictors|)
    && (forall t :: t in h.threads && (h.threads[t].Draining? || h.threads[t].DrainSettling?) ==>
          h.holder == Some(t) && h.threads[t].manager in h.evictors)
  }

  lemma PhaseChange(threads: map<nat, Phase>, t: nat, p: Phase)
    ensures Sum(Carries(threads[t := p]))
         == Sum(Carries(threads)) + Carried(p) - (if t in threads then Carried(threads[t]) else 0)
    ensures t in threads ==> Carried(threads[t]) <= Sum(Carries(threads))
  {
    assert Carries(threads[t := p]) == Carries(threads)[t := Carried(p)];
    SumUpdate(Carries(threads), t, Carried(p));
    if t in threads { SumSplit(Carries(threads), t); }
  }

  lemma EntryRemoved(entries: map<Slot, Entry>, s: Slot)
    requires s in entries
    ensures Sum(EntrySizes(entries - {s})) == Sum(EntrySizes(entries)) - entries[s].size
  {
    assert EntrySizes(entries - {s}) == EntrySizes(entries) - {s};
    SumSplit(EntrySizes(entries), s);
  }

  lemma EntryStored(entries: map<Slot, Entry>, s: Slot, e: Entry)
    ensures Sum(EntrySizes(entries[s := e]))
         == Sum(EntrySizes(entries)) + e.size - (if s in entries then entries[s].size else 0)
  {
    assert EntrySizes(entries[s := e]) == EntrySizes(entries)[s := e.size];
    SumUpdate(EntrySizes(entries), s, e.size);
  }

  /** The amount the step takes off the account, where it takes any. */
  ghost function Taken(h: Heap, e: Event): nat
    requires Enabled(h, e)
  {
    match e
    case Settle(t) => h.threads[t].freed
    case Release(t) => h.threads[t].n
    case DrainSettle(t) => h.threads[t].freed
    case _ => 0
  }

  /** The clamps at zero never fire. */
  lemma NeverOverdrawn(h: Heap, e: Event)
    requires Inv(h) && Enabled(h, e)
    ensures Taken(h, e) <= h.used
  {
    match e {
      case Settle(t) => PhaseChange(h.threads, t, Idle);
      case Release(t) => PhaseChange(h.threads, t, Idle);
      case DrainSettle(t) => PhaseChange(h.threads, t, Idle);
      case _ =>
    }
  }

  lemma ReserveStep(h: Heap, e: Event)
    requires Inv(h) && Enabled(h, e) && (e.Reserve? || e.EvictNone?)
    ensures Inv(Step(h, e))
  {
    StepKeepsMutex(h, e);
    PhaseChange(h.threads, e.t, Step(h, e).threads[e.t]);
  }

  lemma SettleStep(h: Heap, e: Event)
    requires Inv(h) && Enabled(h, e) && (e.Settle? || e.DrainSettle?)
    ensures Inv(Step(h, e))
  {
    StepKeepsMutex(h, e);
    NeverOverdrawn(h, e);
    PhaseChange(h.threads, e.t, Step(h, e).threads[e.t]);
  }

  lemma ReleaseStep(h: Heap, e: Event)
    requires Inv(h) && Enabled(h, e) && e.Release?
    ensures Inv(Step(h, e))
  {
    StepKeepsMutex(h, e);
    NeverOverdrawn(h, e);
    PhaseChange(h.threads, e.t, Idle);
  }

  lemma CacheStep(h: Heap, e: Event)
    requires Inv(h) && Enabled(h, e)
    requires e.EvictOne? || e.PurgeOne? || e.DrainOne?
    ensures Inv(Step(h, e))
  {
    StepKeepsMutex(h, e);
    PhaseChange(h.threads, e.t, Step(h, e).threads[e.t]);
    EntryRemoved(h.entries, if e.PurgeOne? then e.slot else e.victim);
  }

  lemma InsertStep(h: Heap, e: Event)
    requires Inv(h) && Enabled(h, e) && e.Insert?
    ensures Inv(Step(h, e))
  {
    StepKeepsMutex(h, e);
    var p := h.threads[e.t];
    PhaseChange(h.threads, e.t, Step(h, e).threads[e.t]);
    EntryStored(h.entries, p.slot, Entry(p.n, p.n));
  }

  /** Steps that only move a goroutine on, what it carries unchanged. */
  lemma MoveStep(h: Heap, e: Event)
    requires Inv(h) && Enabled(h, e)
    requires e.Spawn? || e.BeginPurge? || e.EndPurge? || e.Unregister? || e.DrainDone?
    ensures Inv(Step(h, e))
  {
    StepKeepsMutex(h, e);
    PhaseChange(h.threads, e.t, Step(h, e).threads[e.t]);
  }

  lemma StepKeepsInv(h: Heap, e: Event)
    requires Inv(h) && Enabled(h, e)
    ensures Inv(Step(h, e))
  {
    match e {
      case Register(_) => StepKeepsMutex(h, e);
      case Mutate(slot, length) =>
        StepKeepsMutex(h, e);
        EntryStored(h.entries, slot, h.entries[slot].(length := length));
      case Reserve(_, _, _) => ReserveStep(h, e);
      case EvictNone(_) => ReserveStep(h, e);
      case Settle(_) => SettleStep(h, e);
      case DrainSettle(_) => SettleStep(h, e);
      case Release(_) => ReleaseStep(h, e);
      case EvictOne(_, _) => CacheStep(h, e);
      case PurgeOne(_, _) => CacheStep(h, e);
      case DrainOne(_, _) => CacheStep(h, e);
      case Insert(_) => InsertStep(h, e);
      case _ => MoveStep(h, e);
    }
  }

  lemma StepKeepsRing(h: Heap, e: Event)
    requires Inv(h) && RingOk(h) && Enabled(h, e)
    ensures RingOk(Step(h, e))
  {
    if e.EvictOne? || e.EvictNone? {
      TurnKeepsRing(h, e);
    } else if e.DrainDone? {
      DoneKeepsRing(h, e);
    }
  }

  lemma TurnKeepsRing(h: Heap, e: Event)
    requires Inv(h) && RingOk(h) && Enabled(h, e) && (e.EvictOne? || e.EvictNone?)
    ensures RingOk(Step(h, e))
  {
    L.StepIs(h.cursor, |h.evictors|);
    assert Step(h, e).cursor == L.Step(h.cursor, |h.evictors|);
  }

  lemma DoneKeepsRing(h: Heap, e: Event)
    requires Inv(h) && RingOk(h) && Enabled(h, e) && e.DrainDone?
    ensures RingOk(Step(h, e))
  {
    L.RotationWithout(h.evictors, h.cursor, L.IndexOf(h.evictors, h.threads[e.t].manager));
  }

  // ---------------------------------------------------------------- whole runs

  ghost predicate RunOk(h: Heap, es: seq<Event>)
    decreases |es|
  {
    es != [] ==> Enabled(h, es[0]) && RunOk(Step(h, es[0]), es[1..])
  }

  ghost function Run(h: Heap, es: seq<Event>): Heap
    requires RunOk(h, es)
    decreases |es|
  {
    if es == [] then h else Run(Step(h, es[0]), es[1..])
  }

  ghost function Empty(limit: int): Heap {
    Heap(limit, 0, [], 0, map[], map[], None)
  }

  lemma {:induction false} RunKeepsInv(h: Heap, es: seq<Event>)
    requires Inv(h) && RingOk(h) && RunOk(h, es)
    ensures Inv(Run(h, es)) && RingOk(Run(h, es)) && Run(h, es).limit == h.limit
    decreases |es|
  {
    if es != [] {
      StepKeepsInv(h, es[0]);
      StepKeepsRing(h, es[0]);
      RunKeepsInv(Step(h, es[0]), es[1..]);
    }
  }

  /** In every interleaving the account is exactly what the caches hold plus what goroutines carry;
      so no step ever overdraws it, and under a positive limit the caches never exceed the limit. */
  lemma BytesAreConserved(limit: int, es: seq<Event>)
    requires RunOk(Empty(limit), es)
    ensures
      var h := Run(Empty(limit), es);
      && h.used == Cached(h) + InHand(h)
      && (limit > 0 ==> Cached(h) <= h.used <= limit)
      && (forall e :: Enabled(h, e) ==> Taken(h, e) <= h.used)
  {
    assert EntrySizes(map[]) == map[] && Carries(map[]) == map[];
    RunKeepsInv(Empty(limit), es);
    var h := Run(Empty(limit), es);
    forall e | Enabled(h, e) ensures Taken(h, e) <= h.used {
      NeverOverdrawn(h, e);
    }
  }

  // ---------------------------------------------------------------- one goroutine, undisturbed

  lemma OneFirst(h: Heap, e: Event, es: seq<Event>)
    requires Enabled(h, e) && RunOk(Step(h, e), es)
    ensures RunOk(h, [e] + es) && Run(h, [e] + es) == Run(Step(h, e), es)
  {
    assert ([e] + es)[1..] == es;
  }

  ghost predicate Ready(h: Heap, t: nat) {
    Inv(h) && t in h.threads && h.threads[t].Idle? && h.holder == None
  }

  ghost function SizeAt(entries: map<Slot, Entry>, slot: Slot): nat {
    if slot in entries then entries[slot].size else 0
  }

  /** Reserved bytes end up in the cache, and what they replace comes off the account. */
  lemma InsertThenRelease(h: Heap, t: nat)
    requires Inv(h) && t in h.threads && h.threads[t].Admitting? && h.holder == None
    ensures
      var slot, n := h.threads[t].slot, h.threads[t].n;
      var es := [Insert(t)] + ([Release(t)] + []);
      && RunOk(h, es)
      && Run(h, es) == h.(entries := h.entries[slot := Entry(n, n)], used := h.used - SizeAt(h.entries, slot),
                          threads := h.threads[t := Idle])
  {
    var h1 := Step(h, Insert(t));
    StepKeepsInv(h, Insert(t));
    NeverOverdrawn(h1, Release(t));
    OneFirst(h1, Release(t), []);
    OneFirst(h, Insert(t), [Release(t)] + []);
    assert h1.threads[t := Idle] == h.threads[t := Idle];
  }

  /** An object that fits is cached, with exactly its bytes on the account in place of what it
      replaced, and nothing else is touched. */
  lemma FittingAdmission(h: Heap, t: nat, slot: Slot, n: nat)
    requires Ready(h, t) && (h.limit <= 0 || h.used + n <= h.limit)
    ensures
      var es := [Reserve(t, slot, n)] + ([Insert(t)] + ([Release(t)] + []));
      && RunOk(h, es)
      && Run(h, es) == h.(entries := h.entries[slot := Entry(n, n)], used := h.used + n - SizeAt(h.entries, slot))
  {
    var h1 := Step(h, Reserve(t, slot, n));
    StepKeepsInv(h, Reserve(t, slot, n));
    InsertThenRelease(h1, t);
    OneFirst(h, Reserve(t, slot, n), [Insert(t)] + ([Release(t)] + []));
    assert h1.threads[t := Idle] == h.threads;
  }

  /** One that fits once the next evictor in turn has given up an entry gets its bytes at that price. */
  lemma EvictingReservation(h: Heap, t: nat, slot: Slot, n: nat, victim: Slot)
    requires Ready(h, t) && h.limit > 0 && n <= h.limit < h.used + n
    requires h.cursor < |h.evictors| && victim in h.entries && victim.manager == h.evictors[h.cursor]
    requires h.used - h.entries[victim].size + n <= h.limit
    ensures
      var es := [Reserve(t, slot, n)] + ([EvictOne(t, victim)] + ([Settle(t)] + []));
      && RunOk(h, es)
      && Run(h, es) == h.(entries := h.entries - {victim}, cursor := (h.cursor + 1) % |h.evictors|,
                          used := h.used - h.entries[victim].size + n, threads := h.threads[t := Admitting(slot, n)])
  {
    var h1 := ReserveEnters(h, t, slot, n);
    var h3 := EvictThenSettle(h1, t, victim);
    ThreeSteps(h, Reserve(t, slot, n), EvictOne(t, victim), Settle(t));
    assert h3.threads == h.threads[t := Admitting(slot, n)];
  }

  lemma ThreeSteps(h: Heap, a: Event, b: Event, c: Event)
    requires Enabled(h, a) && Enabled(Step(h, a), b) && Enabled(Step(Step(h, a), b), c)
    ensures RunOk(h, [a] + ([b] + ([c] + []))) && Run(h, [a] + ([b] + ([c] + []))) == Step(Step(Step(h, a), b), c)
  {
    OneFirst(Step(Step(h, a), b), c, []);
    OneFirst(Step(h, a), b, [c] + []);
    OneFirst(h, a, [b] + ([c] + []));
  }

  lemma ReserveEnters(h: Heap, t: nat, slot: Slot, n: nat) returns (h': Heap)
    requires Ready(h, t) && h.limit > 0 && n <= h.limit < h.used + n
    ensures Enabled(h, Reserve(t, slot, n)) && h' == Step(h, Reserve(t, slot, n)) && Inv(h')
    ensures h' == h.(threads := h.threads[t := Evicting(slot, n, 0)], holder := Some(t))
  {
    h' := Step(h, Reserve(t, slot, n));
    StepKeepsInv(h, Reserve(t, slot, n));
  }

  lemma EvictThenSettle(h: Heap, t: nat, victim: Slot) returns (h': Heap)
    requires Inv(h) && t in h.threads && h.threads[t].Evicting? && h.threads[t].exhausted < |h.evictors|
    requires h.cursor < |h.evictors| && victim in h.entries && victim.manager == h.evictors[h.cursor]
    requires h.used - h.entries[victim].size + h.threads[t].n <= h.limit
    ensures Enabled(h, EvictOne(t, victim)) && Enabled(Step(h, EvictOne(t, victim)), Settle(t))
    ensures h' == Step(Step(h, EvictOne(t, victim)), Settle(t)) && Inv(h')
    ensures h' == h.(entries := h.entries - {victim}, cursor := (h.cursor + 1) % |h.evictors|, holder := None,
                     used := h.used - h.entries[victim].size + h.threads[t].n,
                     threads := h.threads[t := Admitting(h.threads[t].slot, h.threads[t].n)])
  {
    var h2 := Step(h, EvictOne(t, victim));
    StepKeepsInv(h, EvictOne(t, victim));
    NeverOverdrawn(h2, Settle(t));
    h' := Step(h2, Settle(t));
    StepKeepsInv(h2, Settle(t));
    assert h'.threads == h.threads[t := Admitting(h.threads[t].slot, h.threads[t].n)];
  }

  lemma PurgeThenRelease(h: Heap, t: nat, slot: Slot)
    requires Inv(h) && t in h.threads && h.threads[t] == Purging(slot.manager, 0) && h.holder == None && slot in h.entries
    ensures
      var es := [PurgeOne(t, slot)] + ([EndPurge(t)] + ([Release(t)] + []));
      && RunOk(h, es)
      && Run(h, es) == h.(entries := h.entries - {slot}, used := h.used - h.entries[slot].size,
                          threads := h.threads[t := Idle])
  {
    var h1 := Step(h, PurgeOne(t, slot));
    StepKeepsInv(h, PurgeOne(t, slot));
    var h2 := Step(h1, EndPurge(t));
    StepKeepsInv(h1, EndPurge(t));
    NeverOverdrawn(h2, Release(t));
    OneFirst(h2, Release(t), []);
    OneFirst(h1, EndPurge(t), [Release(t)] + []);
    OneFirst(h, PurgeOne(t, slot), [EndPurge(t)] + ([Release(t)] + []));
    assert h2.threads[t := Idle] == h.threads[t := Idle];
  }

  /** One that can never fit is refused without an eviction, and the entry it would have replaced goes,
      since it is no longer what is stored. */
  lemma RefusedAdmission(h: Heap, t: nat, slot: Slot, n: nat)
    requires Ready(h, t) && 0 < h.limit < n && slot in h.entries
    ensures
      var es := [Reserve(t, slot, n)] + ([PurgeOne(t, slot)] + ([EndPurge(t)] + ([Release(t)] + [])));
      && RunOk(h, es)
      && Run(h, es) == h.(entries := h.entries - {slot}, used := h.used - h.entries[slot].size)
  {
    var h1 := Step(h, Reserve(t, slot, n));
    StepKeepsInv(h, Reserve(t, slot, n));
    PurgeThenRelease(h1, t, slot);
    OneFirst(h, Reserve(t, slot, n), [PurgeOne(t, slot)] + ([EndPurge(t)] + ([Release(t)] + [])));
    assert h1.threads[t := Idle] == h.threads;
  }

  /** A drained entry's bytes come off the account. */
  lemma DrainTakes(h: Heap, t: nat, victim: Slot)
    requires Inv(h) && t in h.threads && h.threads[t] == Draining(victim.manager) && victim in h.entries
    ensures
      var es := [DrainOne(t, victim)] + ([DrainSettle(t)] + []);
      && RunOk(h, es)
      && Run(h, es) == h.(entries := h.entries - {victim}, used := h.used - h.entries[victim].size)
  {
    var h1 := Step(h, DrainOne(t, victim));
    StepKeepsInv(h, DrainOne(t, victim));
    NeverOverdrawn(h1, DrainSettle(t));
    OneFirst(h1, DrainSettle(t), []);
    OneFirst(h, DrainOne(t, victim), [DrainSettle(t)] + []);
    assert Step(h1, DrainSettle(t)).threads == h.threads;
  }

  /** A manager with nothing left loses its first place in the rotation, and nothing else happens. */
  lemma UnregisterEmpty(h: Heap, t: nat, i: nat)
    requires Ready(h, t) && RingOk(h) && i < |h.evictors| && h.evictors[i] !in h.evictors[..i]
    ensures
      var es := [Unregister(t, h.evictors[i])] + ([DrainDone(t)] + []);
      && RunOk(h, es)
      && var h' := Run(h, es);
         && h'.evictors == h.evictors[..i] + h.evictors[i + 1..]
         && h'.entries == h.entries && h'.used == h.used && h'.threads == h.threads && h'.holder == None
  {
    var h1 := Step(h, Unregister(t, h.evictors[i]));
    L.FirstIndex(h.evictors, h.evictors[i], i);
    OneFirst(h1, DrainDone(t), []);
    OneFirst(h, Unregister(t, h.evictors[i]), [DrainDone(t)] + []);
    assert Step(h1, DrainDone(t)).threads == h.threads;
  }

  /** With nobody in the middle of anything, the account is exactly the cached bytes. */
  lemma QuietBudgetIsExact(h: Heap)
    requires Inv(h) && forall t :: t in h.threads ==> h.threads[t].Idle?
    ensures h.used == Cached(h)
  {
    AllIdle(h.threads);
  }

  lemma AllIdle(threads: map<nat, Phase>)
    requires forall t :: t in threads ==> threads[t].Idle?
    ensures Sum(Carries(threads)) == 0
  {
    SumOfZeros(Carries(threads));
  }
}
