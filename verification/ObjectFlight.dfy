/** Singleflight reads of the object cache, under every interleaving with writes and evictions. */
module ObjectFlight {
  import opened Base
  import opened Storage

  /** How a cold read ended. */
  datatype Result = Got(obj: Object) | Absent | Broken

  /** An in-flight read: its key, which store was current when it began, its result once the driver
      returned, how many stores there had been by then and whether the driver failed, and whether its
      followers have been released. */
  datatype Call = Call(key: Str, born: nat, result: Option<Result>, ended: nat, failed: bool, closed: bool)

  datatype Phase =
    | Idle
    | Missed(key: Str)
    | Leading(key: Str, call: nat)     // registered, driver not yet asked
    | Fetching(key: Str, call: nat)    // the driver's Get is running
    | Fetched(key: Str, call: nat)     // result stored, not yet admitted
    | Leaving(key: Str, call: nat)     // admitted or invalidated, still registered
    | Closing(key: Str, call: nat)     // no longer registered, followers not yet released
    | Following(key: Str, call: nat)
    | Written(key: Str, obj: Object)   // the driver's Put returned, not yet admitted
    | Removed(key: Str)                // the driver's Delete returned, not yet invalidated

  /** What a Get returned to its caller; `call` is None for a cache hit. */
  datatype Return = Return(key: Str, call: Option<nat>, result: Result)

  /** `stores` is the history of cold storage, the last one current. */
  datatype World = World(stores: seq<Store>, cache: map<Str, Object>, inflight: map<Str, nat>,
                         calls: map<nat, Call>, threads: map<nat, Phase>, replies: seq<Return>)

  datatype Event =
    | Spawn(t: nat)
    | Hit(t: nat, key: Str)
    | Miss(t: nat, key: Str)
    | LoadOrStore(t: nat, call: nat)
    | AskDriver(t: nat)
    | DriverReturns(t: nat, broken: bool)
    | Admit(t: nat, keep: bool)
    | Unregister(t: nat)
    | Close(t: nat)
    | FollowerReturns(t: nat)
    | FollowerCancelled(t: nat)
    | DriverWrites(t: nat, key: Str, entry: Entry)
    | DriverDeletes(t: nat, key: Str)
    | FinishWrite(t: nat, keep: bool)
    | Evict(keys: set<Str>)

  ghost predicate Leads(p: Phase) {
    p.Leading? || p.Fetching? || p.Fetched? || p.Leaving?
  }

  ghost predicate HasCall(p: Phase) {
    Leads(p) || p.Closing? || p.Following?
  }

  function Now(w: World): Store
    requires w.stores != []
  {
    w.stores[|w.stores| - 1]
  }

  function ColdRead(store: Store, key: Str): Result {
    if key in store then Got(ObjectAt(store, key)) else Absent
  }

  ghost predicate Enabled(w: World, e: Event) {
    w.stores != [] &&
    match e
    case Spawn(t) => t !in w.threads
    case Hit(t, key) => t in w.threads && w.threads[t].Idle? && key in w.cache
    case Miss(t, key) => t in w.threads && w.threads[t].Idle?   // absent or expired
    case LoadOrStore(t, call) => t in w.threads && w.threads[t].Missed? && call !in w.calls
    case AskDriver(t) => t in w.threads && w.threads[t].Leading?
    case DriverReturns(t, _) => t in w.threads && w.threads[t].Fetching? && w.threads[t].call in w.calls
    case Admit(t, _) =>
      && t in w.threads && w.threads[t].Fetched? && w.threads[t].call in w.calls
      && w.calls[w.threads[t].call].result.Some?
    case Unregister(t) => t in w.threads && w.threads[t].Leaving?
    case Close(t) =>
      && t in w.threads && w.threads[t].Closing? && w.threads[t].call in w.calls
      && w.calls[w.threads[t].call].result.Some?
    case FollowerReturns(t) =>
      && t in w.threads && w.threads[t].Following? && w.threads[t].call in w.calls
      && w.calls[w.threads[t].call].closed && w.calls[w.threads[t].call].result.Some?
    case FollowerCancelled(t) => t in w.threads && w.threads[t].Following?
    case DriverWrites(t, _, _) => t in w.threads && w.threads[t].Idle?
    case DriverDeletes(t, _) => t in w.threads && w.threads[t].Idle?
    case FinishWrite(t, _) => t in w.threads && (w.threads[t].Written? || w.threads[t].Removed?)
    case Evict(_) => true
  }

  ghost function Step(w: World, e: Event): World
    requires Enabled(w, e)
  {
    match e
    case Spawn(t) => w.(threads := w.threads[t := Idle])
    case Hit(t, key) => w.(replies := w.replies + [Return(key, None, Got(w.cache[key]))])
    case Miss(t, key) => w.(threads := w.threads[t := Missed(key)])
    case LoadOrStore(t, call) =>
      var key := w.threads[t].key;
      if key in w.inflight then w.(threads := w.threads[t := Following(key, w.inflight[key])])
      else w.(inflight := w.inflight[key := call],
              calls := w.calls[call := Call(key, |w.stores| - 1, None, 0, false, false)],
              threads := w.threads[t := Leading(key, call)])
    case AskDriver(t) => w.(threads := w.threads[t := Fetching(w.threads[t].key, w.threads[t].call)])
    case DriverReturns(t, broken) =>
      var p := w.threads[t];
      var result := if broken then Broken else ColdRead(Now(w), p.key);
      w.(calls := w.calls[p.call := w.calls[p.call].(result := Some(result), ended := |w.stores|, failed := broken)],
         threads := w.threads[t := Fetched(p.key, p.call)])
    case Admit(t, keep) =>
      var p := w.threads[t];
      var r := w.calls[p.call].result.value;
      w.(cache := if r.Got? && keep then w.cache[p.key := r.obj] else w.cache - {p.key},
         threads := w.threads[t := Leaving(p.key, p.call)])
    case Unregister(t) =>
      var p := w.threads[t];
      w.(inflight := w.inflight - {p.key}, threads := w.threads[t := Closing(p.key, p.call)])
    case Close(t) =>
      var p := w.threads[t];
      w.(calls := w.calls[p.call := w.calls[p.call].(closed := true)],
         threads := w.threads[t := Idle],
         replies := w.replies + [Return(p.key, Some(p.call), w.calls[p.call].result.value)])
    case FollowerReturns(t) =>
      var p := w.threads[t];
      w.(threads := w.threads[t := Idle],
         replies := w.replies + [Return(p.key, Some(p.call), w.calls[p.call].result.value)])
    case FollowerCancelled(t) => w.(threads := w.threads[t := Idle])
    case DriverWrites(t, key, entry) =>
      var store' := Now(w)[key := entry];
      w.(stores := w.stores + [store'], threads := w.threads[t := Written(key, ObjectAt(store', key))])
    case DriverDeletes(t, key) =>
      w.(stores := w.stores + [Now(w) - {key}], threads := w.threads[t := Removed(key)])
    case FinishWrite(t, keep) =>
      var p := w.threads[t];
      w.(cache := if p.Written? && keep then w.cache[p.key := p.obj] else w.cache - {p.key},
         threads := w.threads[t := Idle])
    case Evict(keys) => w.(cache := w.cache - keys)
  }

  // ---------------------------------------------------------------- the invariant

  /** What a driver that works says of a key, given a store. */
  ghost predicate Tells(store: Store, key: Str, result: Result) {
    match result
    case Got(obj) => key in store && obj == Object(key, store[key].value, store[key].etag, store[key].modTime)
    case Absent => key !in store
    case Broken => false
  }

  /** The result was the truth about the key at some instant from the `from`-th store to before the
      `to`-th. */
  ghost predicate WasTrue(stores: seq<Store>, from: nat, to: nat, key: Str, result: Result) {
    exists i :: from <= i < to && i < |stores| && Tells(stores[i], key, result)
  }

  /** At some instant cold storage held exactly this for the key. */
  ghost predicate WasStored(stores: seq<Store>, key: Str, obj: Object) {
    WasTrue(stores, 0, |stores|, key, Got(obj))
  }

  ghost predicate CallOk(w: World, c: nat)
    requires c in w.calls
  {
    var k := w.calls[c];
    && k.born < |w.stores|
    && (k.closed ==> k.result.Some?)
    && (k.result.Some? ==> ResultOk(w.stores, k))
  }

  /** A failed read reports the failure; any other tells the truth of some instant while it ran. */
  ghost predicate ResultOk(stores: seq<Store>, k: Call)
    requires k.result.Some?
  {
    && k.ended <= |stores|
    && if k.failed then k.result.value == Broken else WasTrue(stores, k.born, k.ended, k.key, k.result.value)
  }

  ghost predicate ThreadOk(w: World, t: nat)
    requires t in w.threads
  {
    var p := w.threads[t];
    && (HasCall(p) ==> p.call in w.calls && w.calls[p.call].key == p.key)
    && (Leads(p) ==> p.key in w.inflight && w.inflight[p.key] == p.call)
    && (p.Leading? || p.Fetching? ==> w.calls[p.call].result.None?)
    && (p.Fetched? || p.Leaving? || p.Closing? ==> w.calls[p.call].result.Some?)
    && (Leads(p) || p.Closing? ==> !w.calls[p.call].closed)
    && (p.Written? ==> WasStored(w.stores, p.key, p.obj))
  }

  ghost predicate ReturnOk(w: World, r: Return) {
    && (r.call.Some? ==> r.call.value in w.calls && w.calls[r.call.value].key == r.key
                         && w.calls[r.call.value].result == Some(r.result) && w.calls[r.call.value].closed)
    && (r.call.None? ==> r.result.Got? && WasStored(w.stores, r.key, r.result.obj))
  }

  /** One goroutine leads a call. */
  ghost predicate OneLeader(w: World) {
    forall t, u :: t in w.threads && u in w.threads && t != u
      && (Leads(w.threads[t]) || w.threads[t].Closing?) && (Leads(w.threads[u]) || w.threads[u].Closing?)
      ==> w.threads[t].call != w.threads[u].call
  }

  ghost predicate Inv(w: World) {
    && w.stores != []
    && (forall k :: k in w.cache ==> WasStored(w.stores, k, w.cache[k]))
    && (forall k :: k in w.inflight ==> w.inflight[k] in w.calls && w.calls[w.inflight[k]].key == k)
    && (forall c :: c in w.calls ==> CallOk(w, c))
    && (forall t :: t in w.threads ==> ThreadOk(w, t))
    && OneLeader(w)
    && (forall r :: r in w.replies ==> ReturnOk(w, r))
  }

  lemma TruthStays(stores: seq<Store>, stores': seq<Store>, from: nat, to: nat, to': nat, key: Str, result: Result)
    requires WasTrue(stores, from, to, key, result) && stores <= stores' && to <= to'
    ensures WasTrue(stores', from, to', key, result)
  {
    var i :| from <= i < to && i < |stores| && Tells(stores[i], key, result);
    assert stores'[i] == stores[i];
  }

  lemma StoredStays(stores: seq<Store>, stores': seq<Store>, key: Str, obj: Object)
    requires WasStored(stores, key, obj) && stores <= stores'
    ensures WasStored(stores', key, obj)
  {
    TruthStays(stores, stores', 0, |stores|, |stores'|, key, Got(obj));
  }

  /** A new store in the history takes nothing back. */
  lemma HistoryGrows(w: World, w': World, more: Store)
    requires Inv(w) && w' == w.(stores := w.stores + [more])
    ensures Inv(w')
  {
    forall key, obj | WasStored(w.stores, key, obj) ensures WasStored(w'.stores, key, obj) {
      StoredStays(w.stores, w'.stores, key, obj);
    }
    forall c | c in w'.calls ensures CallOk(w', c) {
      assert CallOk(w, c);
      var k := w.calls[c];
      if k.result.Some? && !k.failed {
        TruthStays(w.stores, w'.stores, k.born, k.ended, k.ended, k.key, k.result.value);
      }
    }
    forall t | t in w'.threads ensures ThreadOk(w', t) { assert ThreadOk(w, t); }
    forall r | r in w'.replies ensures ReturnOk(w', r) { assert ReturnOk(w, r); }
  }

  /** With history and calls unchanged, what was said of calls, replies and cache still holds. */
  lemma Carry(w: World, w': World)
    requires Inv(w) && w'.stores == w.stores && w'.calls == w.calls
    ensures forall c :: c in w'.calls ==> CallOk(w', c)
    ensures forall r :: r in w.replies ==> ReturnOk(w', r)
  {
    forall c | c in w'.calls ensures CallOk(w', c) { assert CallOk(w, c); }
    forall r | r in w.replies ensures ReturnOk(w', r) { assert ReturnOk(w, r); }
  }

  /** One goroutine moved; the registrations that matter to the others did not. */
  lemma OthersOk(w: World, w': World, t: nat)
    requires Inv(w) && w'.stores == w.stores && w'.calls == w.calls
    requires w'.threads.Keys == w.threads.Keys + {t}
    requires forall u :: u in w.threads && u != t ==> w'.threads[u] == w.threads[u]
    requires forall u :: u in w.threads && u != t && Leads(w.threads[u]) ==>
      w.threads[u].key in w'.inflight && w'.inflight[w.threads[u].key] == w.threads[u].call
    ensures forall u :: u in w'.threads && u != t ==> ThreadOk(w', u)
  {
    forall u | u in w'.threads && u != t ensures ThreadOk(w', u) {
      assert ThreadOk(w, u);
    }
  }

  lemma LeadersRegistered(w: World)
    requires Inv(w)
    ensures forall u :: u in w.threads && Leads(w.threads[u]) ==>
      w.threads[u].key in w.inflight && w.inflight[w.threads[u].key] == w.threads[u].call
  {
    assert forall u :: u in w.threads ==> ThreadOk(w, u);
  }

  /** A goroutine that leads nothing afterwards. */
  lemma Park(w: World, t: nat, p: Phase)
    requires Inv(w) && !Leads(p) && !p.Closing?
    requires ThreadOk(w.(threads := w.threads[t := p]), t)
    ensures Inv(w.(threads := w.threads[t := p]))
  {
    var w' := w.(threads := w.threads[t := p]);
    Carry(w, w');
    LeadersRegistered(w);
    OthersOk(w, w', t);
  }

  lemma WriteKeepsInv(w: World, e: Event)
    requires Inv(w) && Enabled(w, e) && (e.DriverWrites? || e.DriverDeletes?)
    ensures Inv(Step(w, e))
  {
    var w' := Step(w, e);
    var more := w'.stores[|w.stores|];
    var w1 := w.(stores := w.stores + [more]);
    HistoryGrows(w, w1, more);
    if e.DriverWrites? {
      assert Tells(w1.stores[|w.stores|], e.key, Got(w'.threads[e.t].obj));
    }
    Park(w1, e.t, w'.threads[e.t]);
  }

  /** Steps that only move a goroutine on. */
  lemma MoveKeepsInv(w: World, e: Event)
    requires Inv(w) && Enabled(w, e)
    requires e.Spawn? || e.Miss? || e.FollowerCancelled?
    ensures Inv(Step(w, e))
  {
    Park(w, e.t, Step(w, e).threads[e.t]);
  }

  lemma AskKeepsInv(w: World, e: Event)
    requires Inv(w) && Enabled(w, e) && e.AskDriver?
    ensures Inv(Step(w, e))
  {
    var w' := Step(w, e);
    Carry(w, w');
    LeadersRegistered(w);
    OthersOk(w, w', e.t);
    assert ThreadOk(w, e.t);
    assert ThreadOk(w', e.t);
  }

  lemma ReplyKeepsInv(w: World, e: Event)
    requires Inv(w) && Enabled(w, e) && (e.Hit? || e.FollowerReturns?)
    ensures Inv(Step(w, e))
  {
    var w' := Step(w, e);
    assert ThreadOk(w, e.t);
    AddReply(w, w'.replies[|w.replies|]);
    if e.FollowerReturns? {
      Park(w.(replies := w'.replies), e.t, Idle);
    }
  }

  lemma AddReply(w: World, r: Return)
    requires Inv(w) && ReturnOk(w, r)
    ensures Inv(w.(replies := w.replies + [r]))
  {
    var w' := w.(replies := w.replies + [r]);
    Carry(w, w');
    forall t | t in w'.threads ensures ThreadOk(w', t) { assert ThreadOk(w, t); }
  }

  lemma FinishKeepsInv(w: World, e: Event)
    requires Inv(w) && Enabled(w, e) && e.FinishWrite?
    ensures Inv(Step(w, e))
  {
    var w1 := w.(cache := Step(w, e).cache);
    assert ThreadOk(w, e.t);
    Carry(w, w1);
    forall t | t in w1.threads ensures ThreadOk(w1, t) { assert ThreadOk(w, t); }
    Park(w1, e.t, Idle);
  }

  lemma AdmitKeepsInv(w: World, e: Event)
    requires Inv(w) && Enabled(w, e) && e.Admit?
    ensures Inv(Step(w, e))
  {
    var w' := Step(w, e);
    Carry(w, w');
    LeadersRegistered(w);
    OthersOk(w, w', e.t);
    assert ThreadOk(w, e.t);
    CallResultStored(w, w.threads[e.t].call);
  }

  lemma EvictKeepsInv(w: World, e: Event)
    requires Inv(w) && Enabled(w, e) && e.Evict?
    ensures Inv(Step(w, e))
  {
    var w' := Step(w, e);
    Carry(w, w');
    forall t | t in w'.threads ensures ThreadOk(w', t) { assert ThreadOk(w, t); }
  }

  lemma UnregisterKeepsInv(w: World, e: Event)
    requires Inv(w) && Enabled(w, e) && e.Unregister?
    ensures Inv(Step(w, e))
  {
    var w' := Step(w, e);
    assert ThreadOk(w, e.t);
    Carry(w, w');
    LeadersRegistered(w);
    OthersOk(w, w', e.t);
    assert ThreadOk(w', e.t);
  }

  lemma CallResultStored(w: World, c: nat)
    requires c in w.calls && CallOk(w, c)
    ensures w.calls[c].result.Some? && w.calls[c].result.value.Got? ==>
      WasStored(w.stores, w.calls[c].key, w.calls[c].result.value.obj)
  {
    var k := w.calls[c];
    if k.result.Some? && k.result.value.Got? {
      var i :| k.born <= i < k.ended && i < |w.stores| && Tells(w.stores[i], k.key, k.result.value);
    }
  }

  lemma FollowKeepsInv(w: World, e: Event)
    requires Inv(w) && Enabled(w, e) && e.LoadOrStore? && w.threads[e.t].key in w.inflight
    ensures Inv(Step(w, e))
  {
    var w' := Step(w, e);
    Carry(w, w');
    LeadersRegistered(w);
    OthersOk(w, w', e.t);
    assert ThreadOk(w', e.t);
  }

  lemma LeadKeepsInv(w: World, e: Event)
    requires Inv(w) && Enabled(w, e) && e.LoadOrStore? && w.threads[e.t].key !in w.inflight
    ensures Inv(Step(w, e))
  {
    var w' := Step(w, e);
    CallAdded(w, w', e.call);
    forall t | t in w'.threads ensures ThreadOk(w', t) { assert ThreadOk(w, t); }
    forall t | t in w.threads && HasCall(w.threads[t]) ensures w.threads[t].call != e.call { assert ThreadOk(w, t); }
  }

  lemma CallAdded(w: World, w': World, call: nat)
    requires Inv(w) && w'.stores == w.stores && call !in w.calls && call in w'.calls && CallOk(w', call)
    requires w'.calls == w.calls[call := w'.calls[call]]
    ensures forall c :: c in w'.calls ==> CallOk(w', c)
    ensures forall r :: r in w.replies ==> ReturnOk(w', r)
  {
    forall c | c in w'.calls ensures CallOk(w', c) {
      if c in w.calls { assert CallOk(w, c); }
    }
    forall r | r in w.replies ensures ReturnOk(w', r) { assert ReturnOk(w, r); }
  }

  /** A call's result changes only while its leader - and nobody else - can change it. */
  lemma DriverReturnKeepsInv(w: World, e: Event)
    requires Inv(w) && Enabled(w, e) && e.DriverReturns?
    ensures Inv(Step(w, e))
  {
    var w' := Step(w, e);
    var call := w.threads[e.t].call;
    assert ThreadOk(w, e.t) && CallOk(w, call);
    BornBefore(w, call);
    forall c | c in w'.calls ensures CallOk(w', c) { assert CallOk(w, c); }
    forall t | t in w'.threads ensures ThreadOk(w', t) { assert ThreadOk(w, t); }
    forall r | r in w'.replies ensures ReturnOk(w', r) { assert ReturnOk(w, r); }
  }

  lemma CloseKeepsInv(w: World, e: Event)
    requires Inv(w) && Enabled(w, e) && e.Close?
    ensures Inv(Step(w, e))
  {
    var w' := Step(w, e);
    var call := w.threads[e.t].call;
    assert ThreadOk(w, e.t) && CallOk(w, call);
    forall c | c in w'.calls ensures CallOk(w', c) { assert CallOk(w, c); }
    forall t | t in w'.threads ensures ThreadOk(w', t) { assert ThreadOk(w, t); }
    forall r | r in w'.replies ensures ReturnOk(w', r) {
      if r in w.replies { assert ReturnOk(w, r); }
    }
  }

  lemma BornBefore(w: World, c: nat)
    requires w.stores != [] && c in w.calls && CallOk(w, c)
    ensures WasTrue(w.stores, w.calls[c].born, |w.stores|, w.calls[c].key, ColdRead(Now(w), w.calls[c].key))
  {
    assert Tells(w.stores[|w.stores| - 1], w.calls[c].key, ColdRead(Now(w), w.calls[c].key));
  }

  lemma StepKeepsInv(w: World, e: Event)
    requires Inv(w) && Enabled(w, e)
    ensures Inv(Step(w, e))
  {
    match e {
      case DriverWrites(_, _, _) => WriteKeepsInv(w, e);
      case DriverDeletes(_, _) => WriteKeepsInv(w, e);
      case LoadOrStore(t, _) =>
        if w.threads[t].key in w.inflight { FollowKeepsInv(w, e); } else { LeadKeepsInv(w, e); }
      case DriverReturns(_, _) => DriverReturnKeepsInv(w, e);
      case Close(_) => CloseKeepsInv(w, e);
      case Hit(_, _) => ReplyKeepsInv(w, e);
      case FollowerReturns(_) => ReplyKeepsInv(w, e);
      case Admit(_, _) => AdmitKeepsInv(w, e);
      case FinishWrite(_, _) => FinishKeepsInv(w, e);
      case Evict(_) => EvictKeepsInv(w, e);
      case Unregister(_) => UnregisterKeepsInv(w, e);
      case AskDriver(_) => AskKeepsInv(w, e);
      case _ => MoveKeepsInv(w, e);
    }
  }

  // ---------------------------------------------------------------- whole runs

  ghost predicate RunOk(w: World, es: seq<Event>)
    decreases |es|
  {
    es != [] ==> Enabled(w, es[0]) && RunOk(Step(w, es[0]), es[1..])
  }

  ghost function Run(w: World, es: seq<Event>): World
    requires RunOk(w, es)
    decreases |es|
  {
    if es == [] then w else Run(Step(w, es[0]), es[1..])
  }

  ghost function Start(store: Store): World {
    World([store], map[], map[], map[], map[], [])
  }

  lemma {:induction false} RunKeepsInv(w: World, es: seq<Event>)
    requires Inv(w) && RunOk(w, es)
    ensures Inv(Run(w, es))
    decreases |es|
  {
    if es != [] {
      StepKeepsInv(w, es[0]);
      RunKeepsInv(Step(w, es[0]), es[1..]);
    }
  }

  /** What a caller may rely on. A hit is an object that cold storage held for the key at some instant.
      Through a call, the answer was the truth of some instant between the call's beginning and the
      driver's return, found or absent; or it is a failure, and then the driver did fail. */
  ghost predicate Truthful(w: World, r: Return) {
    match r.call
    case None => r.result.Got? && WasStored(w.stores, r.key, r.result.obj)
    case Some(c) =>
      && c in w.calls && w.calls[c].ended <= |w.stores|
      && if w.calls[c].failed then r.result == Broken
         else WasTrue(w.stores, w.calls[c].born, w.calls[c].ended, r.key, r.result)
  }

  /** In every interleaving: one driver read per key at a time; everybody who returns through a call
      returns the same result; and every answer is truthful. */
  lemma ReadsAreCoalesced(store: Store, es: seq<Event>)
    requires RunOk(Start(store), es)
    ensures
      var w := Run(Start(store), es);
      && (forall t, u :: (t in w.threads && u in w.threads && w.threads[t].Fetching? && w.threads[u].Fetching?
                          && w.threads[t].key == w.threads[u].key) ==> t == u)
      && (forall r, s :: r in w.replies && s in w.replies && r.call.Some? && r.call == s.call ==>
            r.key == s.key && r.result == s.result)
      && (forall r :: r in w.replies ==> Truthful(w, r))
  {
    RunKeepsInv(Start(store), es);
    var w := Run(Start(store), es);
    assert forall t :: t in w.threads ==> ThreadOk(w, t);
    forall r | r in w.replies ensures ReturnOk(w, r) && Truthful(w, r) {
      assert ReturnOk(w, r);
      if r.call.Some? { assert CallOk(w, r.call.value); }
    }
  }

  /** A key that is stored throughout a call is found by everybody who returns through it, unless the
      driver failed; and if it does not change meanwhile, they all get exactly what is stored. */
  lemma StoredThroughoutIsFound(store: Store, es: seq<Event>, r: Return)
    requires RunOk(Start(store), es)
    requires r in Run(Start(store), es).replies && r.call.Some?
    ensures
      var w := Run(Start(store), es);
      r.call.value in w.calls &&
      var k := w.calls[r.call.value];
      && k.ended <= |w.stores|
      && (k.failed <==> r.result == Broken)
      && (!k.failed && (forall i :: k.born <= i < k.ended ==> r.key in w.stores[i]) ==> r.result.Got?)
      && (!k.failed && (forall i :: k.born <= i < k.ended ==> r.key !in w.stores[i]) ==> r.result.Absent?)
      && (forall entry: Entry ::
            (!k.failed && forall i :: k.born <= i < k.ended ==> r.key in w.stores[i] && w.stores[i][r.key] == entry) ==>
            r.result == Got(Object(r.key, entry.value, entry.etag, entry.modTime)))
  {
    ReadsAreCoalesced(store, es);
    var w := Run(Start(store), es);
    assert Truthful(w, r);
    var k := w.calls[r.call.value];
    if !k.failed {
      var i :| k.born <= i < k.ended && i < |w.stores| && Tells(w.stores[i], r.key, r.result);
      assert k.born <= i < k.ended;
    }
  }

  /** What singleflight is for besides: a result that is kept is there for the next reader to hit, as
      is a write that is kept; anything else leaves the key uncached; no other key is affected. */
  lemma KeptIsCached(w: World, e: Event)
    requires Inv(w) && Enabled(w, e) && (e.Admit? || e.FinishWrite?)
    ensures
      var p := w.threads[e.t];
      var w' := Step(w, e);
      var obj := if p.Written? then Some(p.obj)
                 else if p.Fetched? && w.calls[p.call].result.value.Got? then Some(w.calls[p.call].result.value.obj)
                 else None;
      && (if e.keep && obj.Some? then p.key in w'.cache && w'.cache[p.key] == obj.value else p.key !in w'.cache)
      && w'.cache - {p.key} == w.cache - {p.key}
  {
  }
}
