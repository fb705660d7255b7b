/** The shared byte budget as values: accounts, round-robin eviction, unregistration. */
module Ledger {
  import opened Base
  import opened Lru

  /** `ring` is the eviction rotation, `cursor` the next victim, and `queues` each evictor's entries,
      newest first. An evictor registered twice appears twice in the ring and once in `queues`. */
  datatype Ledger<E(==)> = Ledger(limit: int, used: int, ring: seq<E>, cursor: nat, queues: map<E, seq<Item>>)

  ghost predicate Valid<E>(l: Ledger<E>) {
    && Elems(l.ring) == l.queues.Keys
    && (if l.ring == [] then l.cursor == 0 else l.cursor < |l.ring|)
  }

  ghost function SizeMap<E>(queues: map<E, seq<Item>>): map<E, nat> {
    map e | e in queues :: Sizes(queues[e])
  }

  ghost function CountMap<E>(queues: map<E, seq<Item>>): map<E, nat> {
    map e | e in queues :: |queues[e]|
  }

  /** The bytes, and the entries, that all registered evictors hold. */
  ghost function Held<E>(queues: map<E, seq<Item>>): nat {
    Sum(SizeMap(queues))
  }

  ghost function Entries<E>(queues: map<E, seq<Item>>): nat {
    Sum(CountMap(queues))
  }

  lemma HeldUpdate<E>(queues: map<E, seq<Item>>, e: E, q: seq<Item>)
    requires e in queues
    ensures Held(queues[e := q]) == Held(queues) + Sizes(q) - Sizes(queues[e])
    ensures Sizes(queues[e]) <= Held(queues)
  {
    assert SizeMap(queues[e := q]) == SizeMap(queues)[e := Sizes(q)];
    SumUpdate(SizeMap(queues), e, Sizes(q));
    SumSplit(SizeMap(queues), e);
  }

  lemma EntriesUpdate<E>(queues: map<E, seq<Item>>, e: E, q: seq<Item>)
    requires e in queues
    ensures Entries(queues[e := q]) == Entries(queues) + |q| - |queues[e]|
    ensures |queues[e]| <= Entries(queues)
  {
    assert CountMap(queues[e := q]) == CountMap(queues)[e := |q|];
    SumUpdate(CountMap(queues), e, |q|);
    SumSplit(CountMap(queues), e);
  }

  lemma {:induction false} HeldNothing<E>(queues: map<E, seq<Item>>)
    requires forall e :: e in queues ==> queues[e] == []
    ensures Held(queues) == 0
  {
    SumOfZeros(SizeMap(queues));
  }

  // ---------------------------------------------------------------- reserve

  /** One request to an evictor: its place in the ring, and the bytes it freed, if any entry was left. */
  datatype Visit = Visit(pos: nat, freed: Option<nat>)

  datatype Outcome<E(==)> = Outcome(ledger: Ledger<E>, ok: bool, visits: seq<Visit>)

  function Step(cursor: nat, len: nat): nat
    requires cursor < len
  {
    (cursor + 1) % len
  }

  lemma StepIs(cursor: nat, len: nat)
    requires cursor < len
    ensures Step(cursor, len) == if cursor + 1 == len then 0 else cursor + 1
  {
    if cursor + 1 < len {
      SmallMod(cursor + 1, len);
    }
  }

  lemma SmallMod(a: nat, b: nat)
    requires a < b
    ensures a % b == a
  {
  }

  /** The ledger after the evictor at the cursor gave up its oldest entry. */
  ghost function Popped<E>(l: Ledger<E>): Ledger<E>
    requires Valid(l) && l.ring != [] && l.ring[l.cursor] in l.queues && l.queues[l.ring[l.cursor]] != []
  {
    var e := l.ring[l.cursor];
    var q := l.queues[e];
    l.(cursor := Step(l.cursor, |l.ring|), used := Clamp(l.used - q[|q| - 1].size),
       queues := l.queues[e := q[..|q| - 1]])
  }

  ghost function Skipped<E>(l: Ledger<E>): Ledger<E>
    requires Valid(l) && l.ring != []
  {
    l.(cursor := Step(l.cursor, |l.ring|))
  }

  lemma PoppedFewer<E>(l: Ledger<E>)
    requires Valid(l) && l.ring != [] && l.ring[l.cursor] in l.queues && l.queues[l.ring[l.cursor]] != []
    ensures Valid(Popped(l)) && Entries(Popped(l).queues) == Entries(l.queues) - 1
    ensures
      var q := l.queues[l.ring[l.cursor]];
      && Held(Popped(l).queues) == Held(l.queues) - q[|q| - 1].size
      && q[|q| - 1].size <= Held(l.queues)
  {
    var e := l.ring[l.cursor];
    var q := l.queues[e];
    HeldUpdate(l.queues, e, q[..|q| - 1]);
    EntriesUpdate(l.queues, e, q[..|q| - 1]);
    SizesLast(q);
    StepIs(l.cursor, |l.ring|);
  }

  lemma CursorInQueues<E>(l: Ledger<E>)
    requires Valid(l) && l.ring != []
    ensures l.ring[l.cursor] in l.queues
  {
    assert l.ring[l.cursor] in Elems(l.ring);
  }

  /** The eviction loop. `exhausted` counts the evictors that had nothing in a row. Terminates because
      each round removes an entry, of whatever size, or gets one closer to a full empty lap. */
  ghost function EvictUntil<E>(l: Ledger<E>, n: nat, exhausted: nat): (r: Outcome<E>)
    requires Valid(l)
    decreases Entries(l.queues), |l.ring| - exhausted
  {
    if |l.ring| == 0 || exhausted >= |l.ring| then Outcome(l, false, [])
    else
      CursorInQueues(l);
      StepIs(l.cursor, |l.ring|);
      var q := l.queues[l.ring[l.cursor]];
      if q == [] then
        var r := EvictUntil(Skipped(l), n, exhausted + 1);
        r.(visits := [Visit(l.cursor, None)] + r.visits)
      else
        PoppedFewer(l);
        var l' := Popped(l);
        var v := Visit(l.cursor, Some(q[|q| - 1].size));
        if l'.used + n <= l.limit then Outcome(l'.(used := l'.used + n), true, [v])
        else
          var r := EvictUntil(l', n, 0);
          r.(visits := [v] + r.visits)
  }

  /** Two outcomes that differ at most in the requests on the way. */
  ghost predicate SameEnd<E>(r: Outcome<E>, s: Outcome<E>) {
    r.ok == s.ok && r.ledger == s.ledger
  }

  /** One round of the loop. */
  lemma Round<E>(l: Ledger<E>, n: nat, exhausted: nat)
    requires Valid(l) && exhausted < |l.ring| && l.ring[l.cursor] in l.queues
    ensures Valid(Skipped(l))
    ensures l.queues[l.ring[l.cursor]] == [] ==>
      SameEnd(EvictUntil(l, n, exhausted), EvictUntil(Skipped(l), n, exhausted + 1))
    ensures l.queues[l.ring[l.cursor]] != [] ==>
      var l' := Popped(l);
      && Valid(l') && Entries(l'.queues) < Entries(l.queues)
      && SameEnd(EvictUntil(l, n, exhausted),
                 if l'.used + n <= l.limit then Outcome(l'.(used := l'.used + n), true, []) else EvictUntil(l', n, 0))
  {
    StepIs(l.cursor, |l.ring|);
    if l.queues[l.ring[l.cursor]] != [] {
      PoppedFewer(l);
    }
  }

  ghost function Reserve<E>(l: Ledger<E>, n: int): Outcome<E>
    requires Valid(l)
  {
    if l.limit <= 0 || l.used + Clamp(n) <= l.limit then Outcome(l.(used := l.used + Clamp(n)), true, [])
    else if Clamp(n) > l.limit then Outcome(l, false, [])
    else EvictUntil(l, Clamp(n), 0)
  }

  /** The position `j` steps behind the cursor. */
  function Behind(cursor: nat, len: nat, j: nat): nat
    requires cursor < len && 1 <= j <= len
  {
    if j <= cursor then cursor - j else cursor + len - j
  }

  /** The last `exhausted` evictors asked are empty. */
  ghost predicate EmptyBehind<E>(l: Ledger<E>, exhausted: nat)
    requires Valid(l) && l.ring != [] && exhausted <= |l.ring|
  {
    forall j :: 1 <= j <= exhausted ==>
      l.ring[Behind(l.cursor, |l.ring|, j)] in l.queues && l.queues[l.ring[Behind(l.cursor, |l.ring|, j)]] == []
  }

  lemma SkipExtends<E>(l: Ledger<E>, exhausted: nat)
    requires Valid(l) && l.ring != [] && exhausted < |l.ring| && EmptyBehind(l, exhausted)
    requires l.ring[l.cursor] in l.queues && l.queues[l.ring[l.cursor]] == []
    ensures Valid(Skipped(l)) && EmptyBehind(Skipped(l), exhausted + 1)
  {
    StepIs(l.cursor, |l.ring|);
    var c' := Step(l.cursor, |l.ring|);
    forall j | 1 <= j <= exhausted + 1
      ensures Behind(c', |l.ring|, j) == if j == 1 then l.cursor else Behind(l.cursor, |l.ring|, j - 1)
    {
    }
  }

  /** A full empty lap has been past everybody. */
  lemma FullLapIsEmpty<E>(l: Ledger<E>)
    requires Valid(l) && l.ring != [] && EmptyBehind(l, |l.ring|)
    ensures Held(l.queues) == 0
  {
    forall e | e in l.queues ensures l.queues[e] == [] {
      assert e in Elems(l.ring);
      var p :| 0 <= p < |l.ring| && l.ring[p] == e;
      var j := if p < l.cursor then l.cursor - p else l.cursor + |l.ring| - p;
      assert Behind(l.cursor, |l.ring|, j) == p;
    }
    HeldNothing(l.queues);
  }

  /** Every queue lost entries from its old end only. */
  ghost predicate OnlyOldest<E>(before: map<E, seq<Item>>, after: map<E, seq<Item>>) {
    before.Keys == after.Keys && forall e :: e in before ==> after[e] <= before[e]
  }

  ghost predicate Fulfilled<E>(l: Ledger<E>, n: nat, r: Outcome<E>) {
    && r.ok && Valid(r.ledger)
    && r.ledger.ring == l.ring && r.ledger.limit == l.limit
    && r.ledger.used == Held(r.ledger.queues) + n
    && OnlyOldest(l.queues, r.ledger.queues)
  }

  /** The last eviction was necessary: with the entry it dropped, the request would not have fit. */
  ghost predicate LastEvictionNeeded<E>(l: Ledger<E>, r: Outcome<E>) {
    r.visits != [] ==>
      var last := r.visits[|r.visits| - 1];
      last.freed.Some? && r.ledger.used + last.freed.value > l.limit && r.ledger.used <= l.limit
  }

  /** One more request before a run that worked out. */
  lemma VisitBefore<E>(l: Ledger<E>, l': Ledger<E>, n: nat, v: Visit, r: Outcome<E>)
    requires Fulfilled(l', n, r) && r.visits != [] && LastEvictionNeeded(l', r)
    requires l'.ring == l.ring && l'.limit == l.limit && OnlyOldest(l.queues, l'.queues)
    ensures
      var r' := r.(visits := [v] + r.visits);
      Fulfilled(l, n, r') && LastEvictionNeeded(l, r')
  {
    var r' := r.(visits := [v] + r.visits);
    assert r'.visits[|r'.visits| - 1] == r.visits[|r.visits| - 1];
  }

  /** What a run of the loop that is still short of room comes to. */
  ghost predicate Fits<E>(l: Ledger<E>, n: nat, r: Outcome<E>) {
    Fulfilled(l, n, r) && r.visits != [] && LastEvictionNeeded(l, r)
  }

  ghost predicate Short<E>(l: Ledger<E>, n: nat) {
    Valid(l) && l.ring != [] && l.used == Held(l.queues) && n <= l.limit < l.used + n
  }

  lemma {:induction false} EvictUntilFits<E>(l: Ledger<E>, n: nat, exhausted: nat)
    requires Short(l, n) && exhausted <= |l.ring| && EmptyBehind(l, exhausted)
    ensures Fits(l, n, EvictUntil(l, n, exhausted))
    decreases Entries(l.queues), |l.ring| - exhausted, 1
  {
    if exhausted == |l.ring| {
      FullLapIsEmpty(l);
      assert false;
    } else {
      CursorInQueues(l);
      if l.queues[l.ring[l.cursor]] == [] {
        FitsAfterSkip(l, n, exhausted);
      } else {
        FitsAfterPop(l, n, exhausted);
      }
    }
  }

  lemma {:induction false} FitsAfterSkip<E>(l: Ledger<E>, n: nat, exhausted: nat)
    requires Short(l, n) && exhausted < |l.ring| && EmptyBehind(l, exhausted)
    requires l.ring[l.cursor] in l.queues && l.queues[l.ring[l.cursor]] == []
    ensures Fits(l, n, EvictUntil(l, n, exhausted))
    decreases Entries(l.queues), |l.ring| - exhausted, 0
  {
    SkipExtends(l, exhausted);
    EvictUntilFits(Skipped(l), n, exhausted + 1);
    VisitBefore(l, Skipped(l), n, Visit(l.cursor, None), EvictUntil(Skipped(l), n, exhausted + 1));
  }

  lemma {:induction false} FitsAfterPop<E>(l: Ledger<E>, n: nat, exhausted: nat)
    requires Short(l, n) && exhausted < |l.ring|
    requires l.ring[l.cursor] in l.queues && l.queues[l.ring[l.cursor]] != []
    ensures Fits(l, n, EvictUntil(l, n, exhausted))
    decreases Entries(l.queues), |l.ring| - exhausted, 0
  {
    PoppedFewer(l);
    PoppedOldest(l);
    var q, l' := l.queues[l.ring[l.cursor]], Popped(l);
    if l'.used + n > l.limit {
      EvictUntilFits(l', n, 0);
      VisitBefore(l, l', n, Visit(l.cursor, Some(q[|q| - 1].size)), EvictUntil(l', n, 0));
    } else {
      LastVisit(l, n);
    }
  }

  lemma PoppedOldest<E>(l: Ledger<E>)
    requires Valid(l) && l.ring != [] && l.ring[l.cursor] in l.queues && l.queues[l.ring[l.cursor]] != []
    ensures OnlyOldest(l.queues, Popped(l).queues)
  {
  }

  lemma LastVisit<E>(l: Ledger<E>, n: nat)
    requires Valid(l) && l.ring != [] && l.ring[l.cursor] in l.queues && l.queues[l.ring[l.cursor]] != []
    requires Short(l, n) && Popped(l).used + n <= l.limit
    ensures
      var l', q := Popped(l), l.queues[l.ring[l.cursor]];
      var r := Outcome(l'.(used := l'.used + n), true, [Visit(l.cursor, Some(q[|q| - 1].size))]);
      Fulfilled(l, n, r) && LastEvictionNeeded(l, r)
  {
    PoppedFewer(l);
  }

  lemma HeldByNobody<E>(l: Ledger<E>)
    requires Valid(l) && l.ring == []
    ensures Held(l.queues) == 0
  {
    assert l.queues == map[];
    HeldNothing(l.queues);
  }

  /** From balanced books, a reservation succeeds exactly when the limit is off or large enough; a
      refusal changes nothing; a success leaves the books balanced but for the reserved bytes. */
  lemma ReserveExact<E>(l: Ledger<E>, n: int)
    requires Valid(l) && l.used == Held(l.queues)
    ensures
      var r := Reserve(l, n);
      && (r.ok <==> l.limit <= 0 || Clamp(n) <= l.limit)
      && (!r.ok ==> r.ledger == l)
      && (r.ok ==> Fulfilled(l, Clamp(n), r) && LastEvictionNeeded(l, r))
      && (r.ok && l.limit > 0 ==> r.ledger.used <= l.limit)
  {
    if l.limit > 0 && l.used + Clamp(n) > l.limit && Clamp(n) <= l.limit {
      if l.ring == [] {
        HeldByNobody(l);
        assert false;
      }
      EvictUntilFits(l, Clamp(n), 0);
    }
  }

  // ---------------------------------------------------------------- fairness

  /** Consecutive requests go round the ring one place at a time. */
  ghost predicate Cyclic(visits: seq<Visit>, cursor: nat, len: nat)
    requires cursor < len
    decreases |visits|
  {
    visits == [] || (visits[0].pos == cursor && (StepIs(cursor, len); Cyclic(visits[1..], Step(cursor, len), len)))
  }

  ghost function CursorAfter(cursor: nat, len: nat, n: nat): nat
    requires cursor < len
    ensures CursorAfter(cursor, len, n) < len
    decreases n
  {
    if n == 0 then cursor else (StepIs(cursor, len); CursorAfter(Step(cursor, len), len, n - 1))
  }

  ghost predicate RoundRobin<E>(l: Ledger<E>, r: Outcome<E>)
    requires Valid(l) && l.ring != []
  {
    && Valid(r.ledger) && r.ledger.ring == l.ring && r.ledger.queues.Keys == l.queues.Keys
    && Cyclic(r.visits, l.cursor, |l.ring|)
    && r.ledger.cursor == CursorAfter(l.cursor, |l.ring|, |r.visits|)
  }

  lemma RoundRobinBefore<E>(l: Ledger<E>, l': Ledger<E>, freed: Option<nat>, r: Outcome<E>)
    requires Valid(l) && l.ring != [] && Valid(l') && l'.ring == l.ring && l'.queues.Keys == l.queues.Keys
    requires l'.cursor == Step(l.cursor, |l.ring|) && RoundRobin(l', r)
    ensures RoundRobin(l, r.(visits := [Visit(l.cursor, freed)] + r.visits))
  {
    var vs := [Visit(l.cursor, freed)] + r.visits;
    assert vs[1..] == r.visits;
  }

  lemma {:induction false} EvictUntilCyclic<E>(l: Ledger<E>, n: nat, exhausted: nat)
    requires Valid(l) && l.ring != []
    ensures RoundRobin(l, EvictUntil(l, n, exhausted))
    decreases Entries(l.queues), |l.ring| - exhausted, 1
  {
    if exhausted < |l.ring| {
      CursorInQueues(l);
      StepIs(l.cursor, |l.ring|);
      if l.queues[l.ring[l.cursor]] == [] {
        EvictUntilCyclic(Skipped(l), n, exhausted + 1);
        RoundRobinBefore(l, Skipped(l), None, EvictUntil(Skipped(l), n, exhausted + 1));
      } else {
        CyclicAfterPop(l, n, exhausted);
      }
    }
  }

  lemma {:induction false} CyclicAfterPop<E>(l: Ledger<E>, n: nat, exhausted: nat)
    requires Valid(l) && exhausted < |l.ring|
    requires l.ring[l.cursor] in l.queues && l.queues[l.ring[l.cursor]] != []
    ensures RoundRobin(l, EvictUntil(l, n, exhausted))
    decreases Entries(l.queues), |l.ring| - exhausted, 0
  {
    PoppedFewer(l);
    var l', q := Popped(l), l.queues[l.ring[l.cursor]];
    var freed := Some(q[|q| - 1].size);
    if l'.used + n > l.limit {
      EvictUntilCyclic(l', n, 0);
      RoundRobinBefore(l, l', freed, EvictUntil(l', n, 0));
    } else {
      RoundRobinBefore(l, l', freed, Outcome(l'.(used := l'.used + n), true, []));
    }
  }

  lemma {:induction false} CyclicAppend(a: seq<Visit>, b: seq<Visit>, cursor: nat, len: nat)
    requires cursor < len && Cyclic(a, cursor, len) && Cyclic(b, CursorAfter(cursor, len, |a|), len)
    ensures Cyclic(a + b, cursor, len)
    ensures CursorAfter(cursor, len, |a| + |b|) == CursorAfter(CursorAfter(cursor, len, |a|), len, |b|)
    decreases |a|
  {
    if a == [] {
      assert a + b == b;
    } else {
      StepIs(cursor, len);
      assert (a + b)[1..] == a[1..] + b;
      CyclicAppend(a[1..], b, Step(cursor, len), len);
    }
  }

  /** A budget in use: reservations, and between them anything that keeps the registrations. */
  datatype Use<E(==)> = Ask(n: int) | Meanwhile(used: int, queues: map<E, seq<Item>>)

  ghost predicate UseOk<E>(l: Ledger<E>, u: Use<E>) {
    u.Meanwhile? ==> u.queues.Keys == l.queues.Keys
  }

  ghost function After<E>(l: Ledger<E>, u: Use<E>): Ledger<E>
    requires Valid(l) && UseOk(l, u)
  {
    match u
    case Ask(n) => Reserve(l, n).ledger
    case Meanwhile(used, queues) => l.(used := used, queues := queues)
  }

  ghost predicate UsesOk<E>(l: Ledger<E>, us: seq<Use<E>>)
    requires Valid(l)
    decreases |us|
  {
    us != [] ==> UseOk(l, us[0]) && Valid(After(l, us[0])) && UsesOk(After(l, us[0]), us[1..])
  }

  /** All requests to evictors along a run. */
  ghost function Log<E>(l: Ledger<E>, us: seq<Use<E>>): seq<Visit>
    requires Valid(l) && UsesOk(l, us)
    decreases |us|
  {
    if us == [] then []
    else (if us[0].Ask? then Reserve(l, us[0].n).visits else []) + Log(After(l, us[0]), us[1..])
  }

  lemma {:induction false} LogCyclic<E>(l: Ledger<E>, us: seq<Use<E>>)
    requires Valid(l) && l.ring != [] && UsesOk(l, us)
    ensures Cyclic(Log(l, us), l.cursor, |l.ring|)
    decreases |us|
  {
    if us != [] {
      var l' := After(l, us[0]);
      var first := if us[0].Ask? then Reserve(l, us[0].n).visits else [];
      assert Cyclic([], l.cursor, |l.ring|) && CursorAfter(l.cursor, |l.ring|, 0) == l.cursor;
      if us[0].Ask? {
        EvictUntilCyclic(l, Clamp(us[0].n), 0);
      }
      assert l'.ring == l.ring && l'.cursor == CursorAfter(l.cursor, |l.ring|, |first|);
      LogCyclic(l', us[1..]);
      CyclicAppend(first, Log(l', us[1..]), l.cursor, |l.ring|);
    }
  }

  /** How often position `p` was asked, and how often it gave something. */
  function Asked(visits: seq<Visit>, p: nat): nat {
    if visits == [] then 0 else (if visits[0].pos == p then 1 else 0) + Asked(visits[1..], p)
  }

  function Evictions(visits: seq<Visit>, p: nat): nat {
    if visits == [] then 0
    else (if visits[0].pos == p && visits[0].freed.Some? then 1 else 0) + Evictions(visits[1..], p)
  }

  ghost predicate NeverEmpty(visits: seq<Visit>, p: nat) {
    forall v :: v in visits && v.pos == p ==> v.freed.Some?
  }

  lemma {:induction false} NeverEmptyCounts(visits: seq<Visit>, p: nat)
    requires NeverEmpty(visits, p)
    ensures Evictions(visits, p) == Asked(visits, p)
  {
    if visits != [] {
      assert visits[0] in visits;
      assert forall v :: v in visits[1..] ==> v in visits;
      NeverEmptyCounts(visits[1..], p);
    }
  }

  /** How far ahead of the cursor a position is. */
  function Ahead(cursor: nat, len: nat, p: nat): nat
    requires cursor < len && p < len
  {
    if p >= cursor then p - cursor else p + len - cursor
  }

  /** Whoever is reached first is asked as often as the other, or once more. */
  lemma {:induction false} FirstReachedAtMostOneMore(visits: seq<Visit>, cursor: nat, len: nat, p: nat, q: nat)
    requires cursor < len && p < len && q < len && Cyclic(visits, cursor, len)
    requires Ahead(cursor, len, p) < Ahead(cursor, len, q)
    ensures Asked(visits, q) <= Asked(visits, p) <= Asked(visits, q) + 1
    decreases |visits|
  {
    if visits != [] {
      StepIs(cursor, len);
      if cursor == p {
        FirstReachedAtMostOneMore(visits[1..], Step(cursor, len), len, q, p);
      } else {
        FirstReachedAtMostOneMore(visits[1..], Step(cursor, len), len, p, q);
      }
    }
  }

  /** Over any sequence of reservations, two evictors that never came up empty have lost the same
      number of entries, give or take one - whatever else happened to the caches in between. */
  lemma EvictionIsFair<E>(l: Ledger<E>, us: seq<Use<E>>, p: nat, q: nat)
    requires Valid(l) && UsesOk(l, us) && p < |l.ring| && q < |l.ring|
    requires NeverEmpty(Log(l, us), p) && NeverEmpty(Log(l, us), q)
    ensures -1 <= Evictions(Log(l, us), p) - Evictions(Log(l, us), q) <= 1
  {
    var log := Log(l, us);
    LogCyclic(l, us);
    NeverEmptyCounts(log, p);
    NeverEmptyCounts(log, q);
    var n := |l.ring|;
    if Ahead(l.cursor, n, p) < Ahead(l.cursor, n, q) {
      FirstReachedAtMostOneMore(log, l.cursor, n, p, q);
    } else if Ahead(l.cursor, n, q) < Ahead(l.cursor, n, p) {
      FirstReachedAtMostOneMore(log, l.cursor, n, q, p);
    }
  }

  // ---------------------------------------------------------------- unregister

  function IndexOf<E(==)>(s: seq<E>, e: E): (i: nat)
    requires e in s
    ensures i < |s| && s[i] == e && e !in s[..i]
  {
    if s[0] == e then 0
    else
      var i := IndexOf(s[1..], e);
      assert s[..i + 1] == [s[0]] + s[1..][..i];
      i + 1
  }

  lemma FirstIndex<E>(s: seq<E>, e: E, i: nat)
    requires i < |s| && s[i] == e && e !in s[..i]
    ensures IndexOf(s, e) == i
  {
  }

  /** Draining an evictor oldest first, each entry subtracted with the clamp. */
  function Drained(used: int, q: seq<Item>): int
    decreases |q|
  {
    if q == [] then used else Drained(Clamp(used - q[|q| - 1].size), q[..|q| - 1])
  }

  lemma {:induction false} DrainedIs(used: int, q: seq<Item>)
    requires used >= Sizes(q)
    ensures Drained(used, q) == used - Sizes(q)
    decreases |q|
  {
    if q != [] {
      SizesLast(q);
      DrainedIs(used - q[|q| - 1].size, q[..|q| - 1]);
    }
  }

  function WithoutAt<T>(s: seq<T>, i: nat): seq<T>
    requires i < |s|
  {
    s[..i] + s[i + 1..]
  }

  function CursorWithout(cursor: nat, i: nat, len: nat): nat
    requires cursor <= len
  {
    var c := if cursor > i then cursor - 1 else cursor;
    if len == 0 then 0 else if c >= len then c % len else c
  }

  ghost function Unregister<E>(l: Ledger<E>, e: E): Ledger<E>
    requires Valid(l)
  {
    if e !in l.ring then l
    else
      var i := IndexOf(l.ring, e);
      assert e in Elems(l.ring);
      var ring' := WithoutAt(l.ring, i);
      Ledger(l.limit, Drained(l.used, l.queues[e]), ring', CursorWithout(l.cursor, i, |ring'|),
             if e in ring' then l.queues[e := []] else l.queues - {e})
  }

  /** The ring as eviction will next go round it. */
  function Rotation<E>(l: Ledger<E>): seq<E>
    requires l.cursor <= |l.ring|
  {
    l.ring[l.cursor..] + l.ring[..l.cursor]
  }

  /** Unregistering takes exactly the evictor's bytes off the books, leaves every other queue as it
      was, and removes one place from the rotation without disturbing the order of the rest. */
  lemma UnregisterExact<E>(l: Ledger<E>, e: E)
    requires Valid(l) && e in l.ring && l.used >= Sizes(l.queues[e])
    ensures
      var l' := Unregister(l, e);
      var i := IndexOf(l.ring, e);
      && Valid(l')
      && l'.used == l.used - Sizes(l.queues[e])
      && Held(l'.queues) == Held(l.queues) - Sizes(l.queues[e])
      && (forall x :: x in l'.queues && x != e ==> x in l.queues && l'.queues[x] == l.queues[x])
      && l'.queues.Keys + {e} == l.queues.Keys
      && Rotation(l') == WithoutAt(Rotation(l), Ahead(l.cursor, |l.ring|, i))
  {
    var i := IndexOf(l.ring, e);
    assert e in Elems(l.ring);
    var l' := Unregister(l, e);
    DrainedIs(l.used, l.queues[e]);
    RemovedElems(l.ring, i);
    HeldUpdate(l.queues, e, []);
    if e !in l'.ring {
      HeldRemove(l.queues, e);
    }
    RotationWithout(l.ring, l.cursor, i);
  }

  lemma RemovedElems<E>(s: seq<E>, i: nat)
    requires i < |s|
    ensures Elems(WithoutAt(s, i)) + {s[i]} == Elems(s)
    ensures s[i] in WithoutAt(s, i) <==> s[i] in Elems(WithoutAt(s, i))
  {
    assert s == s[..i] + [s[i]] + s[i + 1..];
  }

  lemma HeldRemove<E>(queues: map<E, seq<Item>>, e: E)
    requires e in queues
    ensures Held(queues - {e}) == Held(queues) - Sizes(queues[e])
  {
    SumSplit(SizeMap(queues), e);
    assert SizeMap(queues - {e}) == SizeMap(queues) - {e};
  }

  lemma RotationWithout<E>(s: seq<E>, c: nat, i: nat)
    requires c < |s| && i < |s|
    ensures
      var t := WithoutAt(s, i);
      var c' := CursorWithout(c, i, |t|);
      c' <= |t| && (t != [] ==> c' < |t|) && (t == [] ==> c' == 0) &&
      t[c'..] + t[..c'] == WithoutAt(s[c..] + s[..c], Ahead(c, |s|, i))
  {
    if i < c {
      RemovedBefore(s, c, i);
    } else if c + 1 == |s| {
      RemovedAtEnd(s);
    } else {
      RemovedAfter(s, c, i);
    }
  }

  lemma RemovedBefore<E>(s: seq<E>, c: nat, i: nat)
    requires i < c < |s|
    ensures
      var t := WithoutAt(s, i);
      t[c - 1..] + t[..c - 1] == WithoutAt(s[c..] + s[..c], i + |s| - c)
  {
    var t := WithoutAt(s, i);
    var r := s[c..] + s[..c];
    assert t[c - 1..] == s[c..] && t[..c - 1] == s[..i] + s[i + 1..c];
    assert r[..i + |s| - c] == s[c..] + s[..i];
    assert r[i + |s| - c + 1..] == s[i + 1..c];
  }

  lemma RemovedAfter<E>(s: seq<E>, c: nat, i: nat)
    requires c <= i < |s|
    ensures
      var t := WithoutAt(s, i);
      t[c..] + t[..c] == WithoutAt(s[c..] + s[..c], i - c)
  {
    var t := WithoutAt(s, i);
    var r := s[c..] + s[..c];
    assert t[c..] == s[c..i] + s[i + 1..] && t[..c] == s[..c];
    assert r[..i - c] == s[c..i];
    assert r[i - c + 1..] == s[i + 1..] + s[..c];
  }

  lemma RemovedAtEnd<E>(s: seq<E>)
    requires s != []
    ensures
      var c := |s| - 1;
      var t := WithoutAt(s, c);
      t == s[..c] && CursorWithout(c, c, |t|) == 0 && t[0..] + t[..0] == WithoutAt(s[c..] + s[..c], 0)
  {
    var c := |s| - 1;
    assert WithoutAt(s, c) == s[..c];
    assert (s[c..] + s[..c])[1..] == s[..c];
    if c > 0 { SelfMod(c); }
  }

  lemma SelfMod(c: nat)
    requires c > 0
    ensures c % c == 0
  {
  }

  /** Unregistering again does nothing exactly when the evictor was not registered twice. */
  lemma UnregisterIdempotentIff<E>(l: Ledger<E>, e: E)
    requires Valid(l)
    ensures Valid(Unregister(l, e))
    ensures Unregister(Unregister(l, e), e) == Unregister(l, e)
       <==> (e in l.ring ==> e !in WithoutAt(l.ring, IndexOf(l.ring, e)))
  {
    if e in l.ring {
      var i := IndexOf(l.ring, e);
      RemovedElems(l.ring, i);
      RotationWithout(l.ring, l.cursor, i);
      var l' := Unregister(l, e);
      if e in l'.ring {
        assert |Unregister(l', e).ring| < |l'.ring|;
      }
    }
  }

  // ---------------------------------------------------------------- cache operations on the books

  function Released(used: int, n: int): int {
    if n <= 0 then used else Clamp(used - n)
  }

  /** Manager.Invalidate: drop the entry, then release its bytes. */
  ghost function Invalidated<E>(l: Ledger<E>, e: E, key: Str): Ledger<E>
    requires e in l.queues
  {
    var q := l.queues[e];
    l.(queues := l.queues[e := Drop(q, key)], used := Released(l.used, SizeOf(q, key)))
  }

  /** The end of Manager.admit, its bytes reserved: insert or replace, then release what was replaced. */
  ghost function Placed<E>(l: Ledger<E>, e: E, it: Item): Ledger<E>
    requires e in l.queues
  {
    var q := l.queues[e];
    l.(queues := l.queues[e := [it] + Drop(q, it.key)], used := Released(l.used, SizeOf(q, it.key)))
  }

  /** Manager.admit. */
  ghost function Admitted<E>(l: Ledger<E>, e: E, it: Item, maxObjectSize: int): Ledger<E>
    requires Valid(l) && e in l.queues
  {
    if 0 < maxObjectSize < it.size then Invalidated(l, e, it.key)
    else
      var r := Reserve(l, it.size);
      if !r.ok || e !in r.ledger.queues then Invalidated(l, e, it.key) else Placed(r.ledger, e, it)
  }

  ghost predicate Balanced<E>(l: Ledger<E>) {
    l.used == Held(l.queues) && (l.limit > 0 ==> l.used <= l.limit)
  }

  ghost predicate AllDistinct<E>(queues: map<E, seq<Item>>) {
    forall e :: e in queues ==> DistinctKeys(queues[e])
  }

  /** One evictor lost its entry for a key, if it had one, and nothing else happened to any queue. */
  ghost predicate OnlyKeyGone<E>(l: Ledger<E>, e: E, key: Str, l': Ledger<E>) {
    && l'.ring == l.ring && l'.cursor == l.cursor && l'.limit == l.limit
    && l'.queues.Keys == l.queues.Keys && (forall x :: x in l.queues && x != e ==> l'.queues[x] == l.queues[x])
    && e in l.queues && (forall it :: it in l'.queues[e] <==> it in l.queues[e] && it.key != key)
  }

  lemma {:induction false} DropPrefix(a: seq<Item>, b: seq<Item>, key: Str)
    requires a <= b
    ensures Drop(a, key) <= Drop(b, key)
  {
    if a != [] { DropPrefix(a[1..], b[1..], key); }
  }

  lemma InvalidatedBalanced<E>(l: Ledger<E>, e: E, key: Str)
    requires Valid(l) && e in l.queues && AllDistinct(l.queues) && Balanced(l)
    ensures Valid(Invalidated(l, e, key)) && Balanced(Invalidated(l, e, key))
    ensures OnlyKeyGone(l, e, key, Invalidated(l, e, key))
  {
    var q := l.queues[e];
    DropElems(q, key);
    HeldUpdate(l.queues, e, Drop(q, key));
    SizesDrop(q, key);
  }

  /** PurgeIf: what is left of one queue, and the release of what is gone. */
  ghost function Purged<E>(l: Ledger<E>, e: E, rest: seq<Item>): Ledger<E>
    requires e in l.queues
  {
    l.(queues := l.queues[e := rest], used := Released(l.used, Sizes(l.queues[e]) - Sizes(rest)))
  }

  lemma PurgedBalanced<E>(l: Ledger<E>, e: E, rest: seq<Item>)
    requires Valid(l) && e in l.queues && Balanced(l) && Sizes(rest) <= Sizes(l.queues[e])
    ensures Valid(Purged(l, e, rest)) && Balanced(Purged(l, e, rest))
  {
    HeldUpdate(l.queues, e, rest);
  }

  lemma PlacedBalanced<E>(l: Ledger<E>, e: E, it: Item)
    requires Valid(l) && e in l.queues && DistinctKeys(l.queues[e])
    requires l.used == Held(l.queues) + it.size && (l.limit > 0 ==> l.used <= l.limit)
    ensures Valid(Placed(l, e, it)) && Balanced(Placed(l, e, it))
  {
    var q := l.queues[e];
    FrontList(q, it);
    HeldUpdate(l.queues, e, [it] + Drop(q, it.key));
    SizesDrop(q, it.key);
  }

  /** Admission keeps the books balanced and the ceiling, evicting only from old ends, and caches the
      object exactly when the per-object cap and the ceiling allow it. */
  lemma AdmittedBalanced<E>(l: Ledger<E>, e: E, it: Item, maxObjectSize: int)
    requires Valid(l) && e in l.queues && AllDistinct(l.queues) && Balanced(l)
    ensures
      var l' := Admitted(l, e, it, maxObjectSize);
      && Valid(l') && Balanced(l') && l'.ring == l.ring && l'.queues.Keys == l.queues.Keys
      && (it in l'.queues[e] <==> !(0 < maxObjectSize < it.size) && (l.limit <= 0 || it.size <= l.limit))
      && (forall x :: x in l.queues && x != e ==> l'.queues[x] <= l.queues[x])
      // admitted in front of what eviction left of the others; otherwise the key is gone and nothing else
      && (if it in l'.queues[e] then l'.queues[e][0] == it && l'.queues[e][1..] <= Drop(l.queues[e], it.key)
          else OnlyKeyGone(l, e, it.key, l'))
      && (forall x :: x in l'.queues[e] && x.key == it.key ==> x == it)
  {
    DropElems(l.queues[e], it.key);
    if 0 < maxObjectSize < it.size {
      InvalidatedBalanced(l, e, it.key);
    } else {
      ReserveExact(l, it.size);
      var r := Reserve(l, it.size);
      if r.ok {
        assert r.ledger.queues[e] <= l.queues[e];
        DropPrefix(r.ledger.queues[e], l.queues[e], it.key);
        DropElems(r.ledger.queues[e], it.key);
        PlacedBalanced(r.ledger, e, it);
      } else {
        InvalidatedBalanced(l, e, it.key);
      }
    }
  }
}
