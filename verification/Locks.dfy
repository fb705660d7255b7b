/** Lock order across database, budget, cache shards and ring: why the process cannot deadlock. */
module Locks {
  import opened Base

  /** The mutexes that are ever held together. A read
      lock counts as exclusive here, which only adds waiting. */
  datatype Lock =
    | ReconcileMu(db: nat)
    | BudgetMu
    | ShardMu(manager: nat, shard: nat)
    | ListMu(db: nat)
    | RingMu

  function Rank(l: Lock): nat {
    match l
    case ReconcileMu(_) => 0
    case BudgetMu => 1
    case ShardMu(_, _) => 2
    case ListMu(_) => 2
    case RingMu => 3
  }

  datatype Action = Acquire(lock: Lock) | Unlock(lock: Lock)

  type Script = seq<Action>

  // ---------------------------------------------------------------- what the code does

  function Under(l: Lock, body: Script): Script {
    [Acquire(l)] + body + [Unlock(l)]
  }

  /** EvictOldest: look into every shard in turn, then lock the victim's. */
  datatype Eviction = Eviction(manager: nat, looked: seq<nat>, victim: Option<nat>)

  function Looks(manager: nat, shards: seq<nat>): Script {
    if shards == [] then []
    else Under(ShardMu(manager, shards[0]), []) + Looks(manager, shards[1..])
  }

  function Evict(e: Eviction): Script {
    Looks(e.manager, e.looked) + (if e.victim.Some? then Under(ShardMu(e.manager, e.victim.value), []) else [])
  }

  function EvictAll(es: seq<Eviction>): Script {
    if es == [] then [] else Evict(es[0]) + EvictAll(es[1..])
  }

  /** The ownership predicate asks the ring once per key, under the shard's lock. */
  function RingReads(n: nat): Script {
    if n == 0 then [] else Under(RingMu, []) + RingReads(n - 1)
  }

  /** PurgeIf over the shards of a manager; `keys[i]` is how many keys shard i asks the ring about. */
  function PurgeShards(manager: nat, keys: seq<nat>): Script {
    if keys == [] then []
    else PurgeShards(manager, keys[..|keys| - 1]) + Under(ShardMu(manager, |keys| - 1), RingReads(keys[|keys| - 1]))
  }

  datatype Purge = Purge(db: nat, manager: nat, keys: seq<nat>, released: bool)

  /** A purge and the release that follows it outside the shard locks. */
  function PurgeIf(p: Purge): Script {
    PurgeShards(p.manager, p.keys) + (if p.released then Under(BudgetMu, []) else [])
  }

  /** One purge inside a reconcile: the list cache, the shards, the release. */
  function PurgeAll(ps: seq<Purge>): Script {
    if ps == [] then [] else Under(ListMu(ps[0].db), []) + PurgeIf(ps[0]) + PurgeAll(ps[1..])
  }

  /** Everything a goroutine does with these locks is a sequence of these. */
  datatype Path =
    | TouchShard(manager: nat, shard: nat)     // lookup, insert, drop
    | TouchBudget                              // Release, Register, a reservation that fits
    | TouchRing                                // routing, membership changes
    | TouchList(db: nat)                       // the list cache
    | ReserveEvicting(evictions: seq<Eviction>) // Reserve with eviction, or Unregister's drain
    | PurgeCache(purge: Purge)
    | Reconcile(db: nat, purges: seq<Purge>)

  function ScriptOf(p: Path): Script {
    match p
    case TouchShard(m, i) => Under(ShardMu(m, i), [])
    case TouchBudget => Under(BudgetMu, [])
    case TouchRing => Under(RingMu, [])
    case TouchList(db) => Under(ListMu(db), [])
    case ReserveEvicting(es) => Under(BudgetMu, EvictAll(es))
    case PurgeCache(purge) => PurgeIf(purge)
    case Reconcile(db, ps) => Under(ReconcileMu(db), PurgeAll(ps))
  }

  function Program(ps: seq<Path>): Script {
    if ps == [] then [] else ScriptOf(ps[0]) + Program(ps[1..])
  }

  // ---------------------------------------------------------------- scripts keep the order

  ghost predicate Below(held: set<Lock>, rank: nat) {
    forall l :: l in held ==> Rank(l) < rank
  }

  /** Run from holding `held`, the script only climbs in rank, only releases what it holds, and ends
      holding nothing. */
  ghost predicate Climbs(held: set<Lock>, s: Script)
    decreases |s|
  {
    if s == [] then held == {}
    else match s[0]
      case Acquire(l) => Below(held, Rank(l)) && Climbs(held + {l}, s[1..])
      case Unlock(l) => l in held && Climbs(held - {l}, s[1..])
  }

  /** Wherever `rest` may be run, so may `body` followed by `rest`, while only locks below `rank` are held. */
  ghost predicate Neutral(body: Script, rank: nat) {
    forall held: set<Lock>, rest: Script :: Below(held, rank) && Climbs(held, rest) ==> Climbs(held, body + rest)
  }

  lemma NeutralEmpty(rank: nat)
    ensures Neutral([], rank)
  {
    forall held: set<Lock>, rest: Script | Below(held, rank) && Climbs(held, rest) ensures Climbs(held, [] + rest) {
      assert [] + rest == rest;
    }
  }

  lemma NeutralSeq(a: Script, b: Script, rank: nat)
    requires Neutral(a, rank) && Neutral(b, rank)
    ensures Neutral(a + b, rank)
  {
    forall held: set<Lock>, rest: Script | Below(held, rank) && Climbs(held, rest) ensures Climbs(held, a + b + rest) {
      assert a + b + rest == a + (b + rest);
      assert Climbs(held, b + rest);
    }
  }

  /** A critical section is neutral below its lock if its body is neutral just above it. */
  lemma NeutralUnder(l: Lock, body: Script)
    requires Neutral(body, Rank(l) + 1)
    ensures Neutral(Under(l, body), Rank(l))
  {
    forall held: set<Lock>, rest: Script | Below(held, Rank(l)) && Climbs(held, rest)
      ensures Climbs(held, Under(l, body) + rest)
    {
      var s := Under(l, body) + rest;
      assert s == [Acquire(l)] + (body + ([Unlock(l)] + rest));
      assert s[1..] == body + ([Unlock(l)] + rest);
      var tail := [Unlock(l)] + rest;
      assert tail[1..] == rest;
      assert held + {l} - {l} == held;
      assert Climbs(held + {l}, tail);
      assert Below(held + {l}, Rank(l) + 1);
    }
  }

  lemma NeutralLower(a: Script, rank: nat, lower: nat)
    requires Neutral(a, rank) && lower <= rank
    ensures Neutral(a, lower)
  {
    forall held: set<Lock>, rest: Script | Below(held, lower) && Climbs(held, rest) ensures Climbs(held, a + rest) {
      assert Below(held, rank);
    }
  }

  lemma LeafSection(l: Lock, rank: nat)
    requires rank <= Rank(l)
    ensures Neutral(Under(l, []), rank)
  {
    NeutralEmpty(Rank(l) + 1);
    NeutralUnder(l, []);
    NeutralLower(Under(l, []), Rank(l), rank);
  }

  lemma {:induction false} LooksNeutral(manager: nat, shards: seq<nat>)
    ensures Neutral(Looks(manager, shards), 2)
  {
    if shards == [] {
      NeutralEmpty(2);
    } else {
      LeafSection(ShardMu(manager, shards[0]), 2);
      LooksNeutral(manager, shards[1..]);
      NeutralSeq(Under(ShardMu(manager, shards[0]), []), Looks(manager, shards[1..]), 2);
    }
  }

  lemma {:induction false} EvictAllNeutral(es: seq<Eviction>)
    ensures Neutral(EvictAll(es), 2)
  {
    NeutralEmpty(2);
    if es != [] {
      var e := es[0];
      LooksNeutral(e.manager, e.looked);
      var last := if e.victim.Some? then Under(ShardMu(e.manager, e.victim.value), []) else [];
      if e.victim.Some? { LeafSection(ShardMu(e.manager, e.victim.value), 2); }
      NeutralSeq(Looks(e.manager, e.looked), last, 2);
      EvictAllNeutral(es[1..]);
      NeutralSeq(Evict(e), EvictAll(es[1..]), 2);
    }
  }

  lemma {:induction false} RingReadsNeutral(n: nat)
    ensures Neutral(RingReads(n), 3)
  {
    if n == 0 {
      NeutralEmpty(3);
    } else {
      LeafSection(RingMu, 3);
      RingReadsNeutral(n - 1);
      NeutralSeq(Under(RingMu, []), RingReads(n - 1), 3);
    }
  }

  lemma {:induction false} PurgeShardsNeutral(manager: nat, keys: seq<nat>)
    ensures Neutral(PurgeShards(manager, keys), 2)
  {
    if keys == [] {
      NeutralEmpty(2);
    } else {
      var last := |keys| - 1;
      PurgeShardsNeutral(manager, keys[..last]);
      RingReadsNeutral(keys[last]);
      NeutralUnder(ShardMu(manager, last), RingReads(keys[last]));
      NeutralSeq(PurgeShards(manager, keys[..last]), Under(ShardMu(manager, last), RingReads(keys[last])), 2);
    }
  }

  lemma PurgeIfNeutral(p: Purge)
    ensures Neutral(PurgeIf(p), 1)
  {
    PurgeShardsNeutral(p.manager, p.keys);
    NeutralLower(PurgeShards(p.manager, p.keys), 2, 1);
    NeutralEmpty(1);
    if p.released { LeafSection(BudgetMu, 1); }
    NeutralSeq(PurgeShards(p.manager, p.keys), if p.released then Under(BudgetMu, []) else [], 1);
  }

  lemma {:induction false} PurgeAllNeutral(ps: seq<Purge>)
    ensures Neutral(PurgeAll(ps), 1)
  {
    NeutralEmpty(1);
    if ps != [] {
      LeafSection(ListMu(ps[0].db), 1);
      PurgeIfNeutral(ps[0]);
      NeutralSeq(Under(ListMu(ps[0].db), []), PurgeIf(ps[0]), 1);
      PurgeAllNeutral(ps[1..]);
      NeutralSeq(Under(ListMu(ps[0].db), []) + PurgeIf(ps[0]), PurgeAll(ps[1..]), 1);
    }
  }

  lemma PathNeutral(p: Path)
    ensures Neutral(ScriptOf(p), 0)
  {
    match p {
      case TouchShard(m, i) => LeafSection(ShardMu(m, i), 0);
      case TouchBudget => LeafSection(BudgetMu, 0);
      case TouchRing => LeafSection(RingMu, 0);
      case TouchList(db) => LeafSection(ListMu(db), 0);
      case ReserveEvicting(es) =>
        EvictAllNeutral(es);
        NeutralUnder(BudgetMu, EvictAll(es));
        NeutralLower(ScriptOf(p), 1, 0);
      case PurgeCache(purge) =>
        PurgeIfNeutral(purge);
        NeutralLower(ScriptOf(p), 1, 0);
      case Reconcile(db, ps) =>
        PurgeAllNeutral(ps);
        NeutralUnder(ReconcileMu(db), PurgeAll(ps));
    }
  }

  /** Every sequence of code paths takes its locks in rank order and gives them all back. */
  lemma {:induction false} ProgramClimbs(ps: seq<Path>)
    ensures Climbs({}, Program(ps))
  {
    if ps != [] {
      ProgramClimbs(ps[1..]);
      PathNeutral(ps[0]);
      assert Below({}, 0);
    }
  }

  // ---------------------------------------------------------------- threads

  /** A goroutine: what it holds, what is left to do, and its place in line if it is blocked. */
  datatype Thread = Thread(held: set<Lock>, todo: Script, ticket: Option<nat>)

  datatype Process = Process(threads: seq<Thread>, clock: nat)

  datatype Event = Arrive(t: nat) | Grant(t: nat) | Release(t: nat)

  predicate Waiting(th: Thread) {
    th.ticket.Some? && th.todo != [] && th.todo[0].Acquire?
  }

  /** Thread `t` cannot go on before `u` does: `u` holds the lock `t` wants, or is ahead in its queue. */
  ghost predicate WaitsFor(p: Process, t: nat, u: nat) {
    && t < |p.threads| && u < |p.threads| && Waiting(p.threads[t])
    && (var l := p.threads[t].todo[0].lock;
        || l in p.threads[u].held
        || (Waiting(p.threads[u]) && p.threads[u].todo[0].lock == l
            && p.threads[u].ticket.value < p.threads[t].ticket.value))
  }

  ghost predicate Enabled(p: Process, e: Event) {
    e.t < |p.threads| && p.threads[e.t].todo != [] &&
    var th := p.threads[e.t];
    match e
    case Arrive(_) => th.todo[0].Acquire? && th.ticket.None?
    case Grant(_) => Waiting(th) && forall u :: 0 <= u < |p.threads| ==> !WaitsFor(p, e.t, u)
    case Release(_) => th.todo[0].Unlock?
  }

  ghost function Step(p: Process, e: Event): Process
    requires Enabled(p, e)
  {
    var th := p.threads[e.t];
    match e
    case Arrive(t) => Process(p.threads[t := th.(ticket := Some(p.clock))], p.clock + 1)
    case Grant(t) => p.(threads := p.threads[t := Thread(th.held + {th.todo[0].lock}, th.todo[1..], None)])
    case Release(t) => p.(threads := p.threads[t := Thread(th.held - {th.todo[0].lock}, th.todo[1..], None)])
  }

  ghost predicate ThreadOk(p: Process, th: Thread) {
    && Climbs(th.held, th.todo)
    && (th.ticket.Some? ==> Waiting(th) && th.ticket.value < p.clock)
  }

  ghost predicate Inv(p: Process) {
    && (forall t :: 0 <= t < |p.threads| ==> ThreadOk(p, p.threads[t]))
    && (forall t, u :: 0 <= t < u < |p.threads| && p.threads[t].ticket.Some? ==>
          p.threads[t].ticket != p.threads[u].ticket)
  }

  lemma StepKeepsInv(p: Process, e: Event)
    requires Inv(p) && Enabled(p, e)
    ensures Inv(Step(p, e))
  {
    var p' := Step(p, e);
    assert ThreadOk(p, p.threads[e.t]);
    forall t | 0 <= t < |p'.threads| ensures ThreadOk(p', p'.threads[t]) {
      if t != e.t { assert ThreadOk(p, p.threads[t]); }
    }
  }

  // ---------------------------------------------------------------- no cycle, no standstill

  /** `u` wants something higher, or the same lock with an earlier ticket. */
  ghost predicate Above(a: Thread, b: Thread)
    requires Waiting(a) && Waiting(b)
  {
    var la, lb := a.todo[0].lock, b.todo[0].lock;
    Rank(lb) > Rank(la) || (la == lb && b.ticket.value < a.ticket.value)
  }

  /** Waiting always points upwards. */
  lemma WaitingClimbs(p: Process, t: nat, u: nat)
    requires Inv(p) && WaitsFor(p, t, u) && Waiting(p.threads[u])
    ensures Above(p.threads[t], p.threads[u])
  {
    assert ThreadOk(p, p.threads[u]);
  }

  /** A chain of goroutines each waiting for the next. */
  ghost predicate Chain(p: Process, c: seq<nat>) {
    forall i :: 0 <= i < |c| - 1 ==> WaitsFor(p, c[i], c[i + 1])
  }

  lemma {:induction false} ChainClimbs(p: Process, c: seq<nat>)
    requires Inv(p) && |c| >= 2 && Chain(p, c)
    requires c[|c| - 1] < |p.threads| && Waiting(p.threads[c[|c| - 1]])
    ensures WaitsFor(p, c[0], c[1]) && Above(p.threads[c[0]], p.threads[c[|c| - 1]])
    decreases |c|
  {
    var last := |c| - 1;
    assert WaitsFor(p, c[0], c[1]);
    if last == 1 {
      WaitingClimbs(p, c[0], c[1]);
    } else {
      var rest := c[1..];
      forall i | 0 <= i < |rest| - 1 ensures WaitsFor(p, rest[i], rest[i + 1]) {
        assert WaitsFor(p, c[i + 1], c[i + 1 + 1]);
      }
      ChainClimbs(p, rest);
      WaitingClimbs(p, c[0], c[1]);
    }
  }

  /** No cycle of waiting goroutines. */
  lemma NoWaitCycle(p: Process, c: seq<nat>)
    requires Inv(p) && |c| >= 2 && Chain(p, c)
    ensures c[0] != c[|c| - 1]
  {
    if c[0] == c[|c| - 1] {
      assert WaitsFor(p, c[0], c[1]);
      ChainClimbs(p, c);
      assert false;
    }
  }

  ghost predicate Better(a: Thread, b: Thread)
    requires Waiting(a) && Waiting(b)
  {
    var ra, rb := Rank(a.todo[0].lock), Rank(b.todo[0].lock);
    ra > rb || (ra == rb && a.ticket.value <= b.ticket.value)
  }

  /** Among waiting goroutines one wants the highest lock, first in line at its rank. */
  lemma {:induction false} HighestWaiting(p: Process, n: nat) returns (best: nat)
    requires Inv(p) && n <= |p.threads|
    requires exists t :: 0 <= t < n && Waiting(p.threads[t])
    ensures best < n && Waiting(p.threads[best])
    ensures forall t :: 0 <= t < n && Waiting(p.threads[t]) ==> Better(p.threads[best], p.threads[t])
  {
    var last := n - 1;
    if exists t :: 0 <= t < last && Waiting(p.threads[t]) {
      best := HighestWaiting(p, last);
      if Waiting(p.threads[last]) && Better(p.threads[last], p.threads[best]) {
        best := last;
      }
    } else {
      best := last;
    }
  }

  /** Whoever still holds or wants something can be traced to a goroutine that can move: as long as
      anybody has work left, some step is possible. */
  lemma SomebodyCanMove(p: Process) returns (e: Event)
    requires Inv(p) && exists t :: 0 <= t < |p.threads| && p.threads[t].todo != []
    ensures Enabled(p, e)
  {
    var t :| 0 <= t < |p.threads| && p.threads[t].todo != [];
    if exists u :: 0 <= u < |p.threads| && p.threads[u].todo != [] && !Waiting(p.threads[u]) {
      var u :| 0 <= u < |p.threads| && p.threads[u].todo != [] && !Waiting(p.threads[u]);
      assert ThreadOk(p, p.threads[u]);
      e := if p.threads[u].todo[0].Acquire? then Arrive(u) else Release(u);
    } else {
      assert Waiting(p.threads[t]);
      var best := HighestWaiting(p, |p.threads|);
      e := Grant(best);
      forall u | 0 <= u < |p.threads| ensures !WaitsFor(p, best, u) {
        if WaitsFor(p, best, u) {
          assert ThreadOk(p, p.threads[u]);
          assert p.threads[u].todo != [];
          assert Waiting(p.threads[u]);
          WaitingClimbs(p, best, u);
          assert false;
        }
      }
    }
  }

  // ---------------------------------------------------------------- whole runs

  ghost predicate RunOk(p: Process, es: seq<Event>)
    decreases |es|
  {
    es != [] ==> Enabled(p, es[0]) && RunOk(Step(p, es[0]), es[1..])
  }

  ghost function Run(p: Process, es: seq<Event>): Process
    requires RunOk(p, es)
    decreases |es|
  {
    if es == [] then p else Run(Step(p, es[0]), es[1..])
  }

  ghost function Started(programs: seq<seq<Path>>): Process {
    Process(seq(|programs|, i requires 0 <= i < |programs| => Thread({}, Program(programs[i]), None)), 0)
  }

  lemma {:induction false} RunKeepsInv(p: Process, es: seq<Event>)
    requires Inv(p) && RunOk(p, es)
    ensures Inv(Run(p, es))
    decreases |es|
  {
    if es != [] {
      StepKeepsInv(p, es[0]);
      RunKeepsInv(Step(p, es[0]), es[1..]);
    }
  }

  lemma StartedOk(programs: seq<seq<Path>>)
    ensures Inv(Started(programs))
  {
    forall t | 0 <= t < |programs| ensures Climbs({}, Program(programs[t])) {
      ProgramClimbs(programs[t]);
    }
  }

  /** Any number of goroutines, each running any sequence of the code's locking paths: no reachable
      state has a cycle of waiters. */
  lemma NoDeadlock(programs: seq<seq<Path>>, es: seq<Event>, c: seq<nat>)
    requires RunOk(Started(programs), es)
    requires |c| >= 2 && Chain(Run(Started(programs), es), c)
    ensures c[0] != c[|c| - 1]
  {
    StartedOk(programs);
    RunKeepsInv(Started(programs), es);
    NoWaitCycle(Run(Started(programs), es), c);
  }

  /** And no reachable state is stuck before everybody is done. */
  lemma AlwaysProgress(programs: seq<seq<Path>>, es: seq<Event>) returns (e: Event)
    requires RunOk(Started(programs), es)
    requires exists t :: 0 <= t < |Run(Started(programs), es).threads| && Run(Started(programs), es).threads[t].todo != []
    ensures Enabled(Run(Started(programs), es), e)
  {
    StartedOk(programs);
    RunKeepsInv(Started(programs), es);
    e := SomebodyCanMove(Run(Started(programs), es));
  }
}
