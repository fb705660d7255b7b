/** Many caching nodes in front of one cold store: who may cache what, and why reads stay exact. */
module Coherence {
  import opened Base
  import opened Sharding
  import opened Storage

  /** One node's object cache and the ring generation it last reconciled for. */
  datatype Node = Node(cache: map<Str, Object>, reconciledGen: nat)

  datatype World = World(store: Store, ring: View, nodes: map<Str, Node>)

  datatype Op =
    | Get(key: Str)
    | Put(key: Str, value: seq<byte>, expected: Str)
    | Delete(key: Str, expected: Str)

  datatype Reply = Found(obj: Object) | Missing | Wrote(obj: Object) | Deleted | Refused(error: Error) | Failed

  /** The driver answers, fails without effect, or takes effect and loses its answer. */
  datatype Disk = Fine | Down | Lost

  /** What one serving of an operation leaves open: whether a cached entry has expired, whether the
      budget admits the object, what it evicted to do so, how the driver behaved, what it stamped. */
  datatype Choice = Choice(expired: bool, admit: bool, evicted: set<Str>, disk: Disk, stamp: Stamp)

  // ---------------------------------------------------------------- the bare store

  /** The operation on the driver alone. */
  function Cold(store: Store, op: Op, stamp: Stamp): (Store, Reply) {
    match op
    case Get(key) => (store, if key in store then Found(ObjectAt(store, key)) else Missing)
    case Put(key, value, expected) =>
      var refusal := PutRefusal(store, key, expected);
      if refusal.Some? then (store, Refused(refusal.value))
      else
        var store' := Written(store, key, value, stamp);
        (store', Wrote(ObjectAt(store', key)))
    case Delete(key, expected) =>
      var refusal := DeleteRefusal(store, key, expected);
      if refusal.Some? then (store, Refused(refusal.value)) else (store - {key}, Deleted)
  }

  /** The driver with its faults. */
  function Driven(store: Store, op: Op, ch: Choice): (Store, Reply) {
    match ch.disk
    case Fine => Cold(store, op, ch.stamp)
    case Down => (store, Failed)
    case Lost => (Cold(store, op, ch.stamp).0, Failed)
  }

  // ---------------------------------------------------------------- the cache manager

  function Admitted(cache: map<Str, Object>, key: Str, obj: Object, ch: Choice): map<Str, Object> {
    var rest := cache - ch.evicted - {key};
    if ch.admit then rest[key := obj] else rest
  }

  /** Manager.Get, Put and Delete: a fresh hit stays off the driver; a found or written object is
      admitted or, refused admission, invalidated; everything else invalidates the key. */
  function Managed(store: Store, cache: map<Str, Object>, op: Op, ch: Choice): (Store, map<Str, Object>, Reply) {
    if op.Get? && op.key in cache && !ch.expired then (store, cache, Found(cache[op.key]))
    else
      var (store', reply) := Driven(store, op, ch);
      if reply.Found? || reply.Wrote? then (store', Admitted(cache, op.key, reply.obj, ch), reply)
      else (store', cache - {op.key}, reply)
  }

  // ---------------------------------------------------------------- reconciliation and routing

  /** reconcileOwnership with the ring standing still: purge everything when more than one change
      was missed, otherwise what the ring no longer assigns to this node. */
  ghost function Reconciled(place: Str -> nat, ring: View, self: Str, n: Node): Node {
    if n.reconciledGen == ring.generation then n
    else if ring.generation > n.reconciledGen + 1 then Node(map[], ring.generation)
    else Node(map k | k in n.cache && Keeps(place, ring, self, k) :: n.cache[k], ring.generation)
  }

  ghost predicate Keeps(place: Str -> nat, ring: View, self: Str, key: Str) {
    var owner := Owner(ring.members, place, key);
    owner == [] || owner == self
  }

  ghost function ReconcileAt(place: Str -> nat, w: World, at: Str): World
    requires at in w.nodes
  {
    w.(nodes := w.nodes[at := Reconciled(place, w.ring, at, w.nodes[at])])
  }

  /** GetRaw, PutRaw, DeleteRaw: reconcile, then serve through the local cache. */
  ghost function Raw(place: Str -> nat, w: World, at: Str, op: Op, ch: Choice): (World, Reply)
    requires at in w.nodes
  {
    var n := Reconciled(place, w.ring, at, w.nodes[at]);
    var (store', cache', reply) := Managed(w.store, n.cache, op, ch);
    (w.(store := store', nodes := w.nodes[at := n.(cache := cache')]), reply)
  }

  /** One round trip to the owner's process: never arrives, is refused by authentication, arrives and
      loses its answer, or completes. */
  datatype Attempt = Unreached | Unauthentic | AnswerLost(ch: Choice) | Answered(ch: Choice)

  /** The attempt gets as far as a database that serves it. */
  ghost predicate Reaches(w: World, owner: Str, a: Attempt) {
    owner in w.nodes && (a.AnswerLost? || a.Answered?)
  }

  /** The owner's process answers with an error of its own: the request is not authentic, or no
      database is open there to handle it. */
  ghost predicate Declines(w: World, owner: Str, a: Attempt) {
    a.Unauthentic? || (a.Answered? && owner !in w.nodes)
  }

  /** No answer is a transport failure; a declined request is an answer. */
  ghost function Forwarded(place: Str -> nat, w: World, owner: Str, op: Op, a: Attempt): (World, Option<Reply>) {
    if Declines(w, owner, a) then (w, Some(Failed))
    else if !Reaches(w, owner, a) then (w, None)
    else
      var (w', reply) := Raw(place, w, owner, op, a.ch);
      (w', if a.Answered? then Some(reply) else None)
  }

  /** How a routed operation fares: two attempts, the caller's deadline after each, and the local
      serving for an owner or a read that falls through. */
  datatype Route = Route(first: Attempt, late1: bool, second: Attempt, late2: bool, local: Choice)

  ghost function Execute(place: Str -> nat, w: World, at: Str, op: Op, r: Route): (World, Reply)
    requires at in w.nodes
  {
    var owner := Owner(w.ring.members, place, op.key);
    if owner == [] || owner == at then Raw(place, w, at, op, r.local)
    else
      var (w1, reply1) := Forwarded(place, ReconcileAt(place, w, at), owner, op, r.first);
      if reply1.Some? then (w1, reply1.value)
      else if r.late1 then (w1, Failed)
      else
        var (w2, reply2) := Forwarded(place, w1, owner, op, r.second);
        if reply2.Some? then (w2, reply2.value)
        else if r.late2 || !op.Get? then (w2, Failed)
        else (w2, Driven(w2.store, op, r.local).1)   // uncached fall-through read
  }

  // ---------------------------------------------------------------- runs

  datatype Event =
    | Member(change: Change)
    | Spawn(at: Str)
    | Close(at: Str)   // the process may live on, and then declines what it is sent
    | Use(at: Str, op: Op, route: Route)
    | Evict(at: Str, keys: set<Str>)

  /** The standing assumption: the ring keeps at least one member, and no address is empty. */
  ghost predicate RingOk(ring: View) {
    ring.members != {} && [] !in ring.members
  }

  ghost predicate Legal(w: World, e: Event) {
    match e
    case Member(change) => RingOk(Changed(w.ring, change))
    case Spawn(at) => true
    case Close(at) => true
    case Use(at, _, _) => at in w.nodes
    case Evict(at, _) => at in w.nodes
  }

  ghost function Next(place: Str -> nat, w: World, e: Event): World
    requires Legal(w, e)
  {
    match e
    case Member(change) => w.(ring := Changed(w.ring, change))
    case Spawn(at) => w.(nodes := w.nodes[at := Node(map[], 0)])
    case Close(at) => w.(nodes := w.nodes - {at})
    case Use(at, op, route) => Execute(place, w, at, op, route).0
    case Evict(at, keys) => w.(nodes := w.nodes[at := w.nodes[at].(cache := w.nodes[at].cache - keys)])
  }

  // ---------------------------------------------------------------- the invariant

  /** An entry is current if the node reconciled at this generation, or missed one change and still
      owns the key. After two missed changes nothing is claimed - and everything gets purged. */
  ghost predicate EntryOk(place: Str -> nat, store: Store, ring: View, self: Str, n: Node, k: Str)
    requires k in n.cache
  {
    var mine := Owner(ring.members, place, k) == self;
    && (ring.generation == n.reconciledGen ==> mine)
    && (ring.generation <= n.reconciledGen + 1 && mine ==> k in store && n.cache[k] == ObjectAt(store, k))
  }

  ghost predicate NodeOk(place: Str -> nat, store: Store, ring: View, self: Str, n: Node) {
    n.reconciledGen <= ring.generation && forall k :: k in n.cache ==> EntryOk(place, store, ring, self, n, k)
  }

  ghost predicate Inv(place: Str -> nat, w: World) {
    RingOk(w.ring) && forall at :: at in w.nodes ==> NodeOk(place, w.store, w.ring, at, w.nodes[at])
  }

  /** Reconciling turns the lazy guarantee into the full one. */
  lemma ReconcileRestores(place: Str -> nat, store: Store, ring: View, self: Str, n: Node)
    requires RingOk(ring) && NodeOk(place, store, ring, self, n)
    ensures
      var n' := Reconciled(place, ring, self, n);
      && n'.reconciledGen == ring.generation
      && NodeOk(place, store, ring, self, n')
  {
    var n' := Reconciled(place, ring, self, n);
    forall k | k in n'.cache ensures EntryOk(place, store, ring, self, n', k) {
      OwnerIsMember(ring.members, place, k);
      assert EntryOk(place, store, ring, self, n, k);
    }
  }

  /** Only the operation's key can change in the store. */
  lemma DrivenFrame(store: Store, op: Op, ch: Choice)
    ensures
      var store' := Driven(store, op, ch).0;
      forall k :: k != op.key ==> (k in store <==> k in store') && (k in store ==> store'[k] == store[k])
  {
  }

  /** Serving at the reconciled owner keeps its cache current, and answers as the driver would. */
  lemma ManagedAtOwner(place: Str -> nat, store: Store, ring: View, self: Str, n: Node, op: Op, ch: Choice)
    requires NodeOk(place, store, ring, self, n) && n.reconciledGen == ring.generation
    requires Owner(ring.members, place, op.key) == self
    ensures
      var (store', cache', reply) := Managed(store, n.cache, op, ch);
      && NodeOk(place, store', ring, self, n.(cache := cache'))
      && (ch.disk.Fine? ==> (store', reply) == Cold(store, op, ch.stamp))
      && (op.Get? ==> store' == store && (reply == Failed || reply == Cold(store, op, ch.stamp).1))
      && (store' == store || store' == Cold(store, op, ch.stamp).0)
  {
    var (store', cache', reply) := Managed(store, n.cache, op, ch);
    var n' := n.(cache := cache');
    DrivenFrame(store, op, ch);
    if op.Get? && op.key in n.cache {
      assert EntryOk(place, store, ring, self, n, op.key);
    }
    CacheAfter(store, n.cache, op, ch);
    forall k | k in cache' ensures EntryOk(place, store', ring, self, n', k) {
      if k != op.key {
        assert EntryOk(place, store, ring, self, n, k);
      }
    }
  }

  /** What serving leaves cached: old entries of other keys, and the key as the store now has it or as
      it was hit. */
  lemma CacheAfter(store: Store, cache: map<Str, Object>, op: Op, ch: Choice)
    ensures
      var (store', cache', reply) := Managed(store, cache, op, ch);
      && (forall k :: k in cache' && k != op.key ==> k in cache && cache'[k] == cache[k])
      && (op.key in cache' ==>
            || (op.Get? && op.key in cache && store' == store && cache'[op.key] == cache[op.key])
            || (op.key in store' && cache'[op.key] == ObjectAt(store', op.key)))
  {
  }

  /** A write at the owner cannot disturb what any other node is promised. */
  lemma OthersUndisturbed(place: Str -> nat, store: Store, store': Store, ring: View, self: Str, n: Node, key: Str)
    requires NodeOk(place, store, ring, self, n)
    requires forall k :: k != key ==> (k in store <==> k in store') && (k in store ==> store'[k] == store[k])
    requires Owner(ring.members, place, key) != self
    ensures NodeOk(place, store', ring, self, n)
  {
    forall k | k in n.cache ensures EntryOk(place, store', ring, self, n, k) {
      assert EntryOk(place, store, ring, self, n, k);
    }
  }

  /** What serving an operation at a node that owns its key does. */
  ghost predicate ServedOk(place: Str -> nat, w: World, op: Op, ch: Choice, w': World, reply: Reply) {
    && Inv(place, w') && w'.ring == w.ring && w'.nodes.Keys == w.nodes.Keys
    && (ch.disk.Fine? ==> (w'.store, reply) == Cold(w.store, op, ch.stamp))
    && (op.Get? ==> w'.store == w.store && (reply == Failed || reply == Cold(w.store, op, ch.stamp).1))
    && (w'.store == w.store || w'.store == Cold(w.store, op, ch.stamp).0)
  }

  lemma RawAtOwner(place: Str -> nat, w: World, at: Str, op: Op, ch: Choice)
    requires Inv(place, w) && at in w.nodes && Owner(w.ring.members, place, op.key) == at
    ensures ServedOk(place, w, op, ch, Raw(place, w, at, op, ch).0, Raw(place, w, at, op, ch).1)
  {
    var n := Reconciled(place, w.ring, at, w.nodes[at]);
    ReconcileRestores(place, w.store, w.ring, at, w.nodes[at]);
    ManagedAtOwner(place, w.store, w.ring, at, n, op, ch);
    DrivenFrame(w.store, op, ch);
    var w' := Raw(place, w, at, op, ch).0;
    forall m | m in w'.nodes ensures NodeOk(place, w'.store, w'.ring, m, w'.nodes[m]) {
      if m != at {
        OthersUndisturbed(place, w.store, w'.store, w.ring, m, w.nodes[m], op.key);
      }
    }
  }

  lemma ReconcileAtKeepsInv(place: Str -> nat, w: World, at: Str)
    requires Inv(place, w) && at in w.nodes
    ensures Inv(place, ReconcileAt(place, w, at))
  {
    ReconcileRestores(place, w.store, w.ring, at, w.nodes[at]);
  }

  lemma ForwardedOk(place: Str -> nat, w: World, owner: Str, op: Op, a: Attempt)
    requires Inv(place, w) && Owner(w.ring.members, place, op.key) == owner
    ensures
      var (w', reply) := Forwarded(place, w, owner, op, a);
      && Inv(place, w') && w'.ring == w.ring && w'.nodes.Keys == w.nodes.Keys
      && (if Reaches(w, owner, a) then ServedOk(place, w, op, a.ch, w', Raw(place, w, owner, op, a.ch).1) else w' == w)
      && (reply == if Declines(w, owner, a) then Some(Failed)
                   else if a.Answered? then Some(Raw(place, w, owner, op, a.ch).1)
                   else None)
  {
    if Reaches(w, owner, a) {
      RawAtOwner(place, w, owner, op, a.ch);
    }
  }

  ghost predicate DiskFine(a: Attempt) {
    a.Unreached? || a.Unauthentic? || a.ch.disk.Fine?
  }

  /** No driver faults and no missed deadline; the mesh may still fail at will. */
  ghost predicate Steady(r: Route) {
    DiskFine(r.first) && !r.late1 && DiskFine(r.second) && !r.late2 && r.local.disk.Fine?
  }

  /** The read is sent to an owner whose process answers without serving it. */
  ghost predicate TurnedAway(place: Str -> nat, w: World, at: Str, key: Str, r: Route) {
    var owner := Owner(w.ring.members, place, key);
    owner != at && (Declines(w, owner, r.first) || (!r.first.Answered? && Declines(w, owner, r.second)))
  }

  /** One database call: the invariant survives, a read returns the cold store's content whichever
      way it was routed, or fails; and with the drivers well and no deadline missed it fails exactly
      when the owner's process turns it away. Lost connections and lost answers never fail a read. */
  lemma ExecuteOk(place: Str -> nat, w: World, at: Str, op: Op, r: Route)
    requires Inv(place, w) && at in w.nodes
    ensures
      var (w', reply) := Execute(place, w, at, op, r);
      && Inv(place, w') && w'.ring == w.ring
      && (op.Get? ==> w'.store == w.store && (reply == Failed || reply == Cold(w.store, op, r.local.stamp).1))
      && (op.Get? && Steady(r) ==> (reply == Failed <==> TurnedAway(place, w, at, op.key, r)))
  {
    var owner := Owner(w.ring.members, place, op.key);
    OwnerIsMember(w.ring.members, place, op.key);
    if owner == at {
      RawAtOwner(place, w, at, op, r.local);
    } else {
      ReconcileAtKeepsInv(place, w, at);
      var w0 := ReconcileAt(place, w, at);
      ForwardedOk(place, w0, owner, op, r.first);
      var (w1, reply1) := Forwarded(place, w0, owner, op, r.first);
      if reply1.None? && !r.late1 {
        ForwardedOk(place, w1, owner, op, r.second);
      }
    }
  }

  /** Whatever becomes of a call, the node that made it has caught up with the ring. */
  lemma CallCatchesUp(place: Str -> nat, w: World, at: Str, op: Op, r: Route)
    requires at in w.nodes
    ensures
      var w' := Execute(place, w, at, op, r).0;
      at in w'.nodes && w'.nodes[at].reconciledGen == w.ring.generation
  {
    var owner := Owner(w.ring.members, place, op.key);
    if owner != [] && owner != at {
      var w0 := ReconcileAt(place, w, at);
      OthersStay(place, w0, owner, op, r.first, at);
      OthersStay(place, Forwarded(place, w0, owner, op, r.first).0, owner, op, r.second, at);
    }
  }

  lemma OthersStay(place: Str -> nat, w: World, owner: Str, op: Op, a: Attempt, at: Str)
    requires at in w.nodes && at != owner
    ensures
      var w' := Forwarded(place, w, owner, op, a).0;
      at in w'.nodes && w'.nodes[at] == w.nodes[at]
  {
  }

  /** A missed deadline ends a forwarded call at once, and a write that got no answer is never served
      by the wrong node instead. */
  lemma UnansweredFails(place: Str -> nat, w: World, at: Str, op: Op, r: Route)
    requires at in w.nodes
    requires
      var owner := Owner(w.ring.members, place, op.key);
      owner != [] && owner != at && (r.first.Unreached? || r.first.AnswerLost?)
    ensures
      var owner := Owner(w.ring.members, place, op.key);
      var (w', reply) := Execute(place, w, at, op, r);
      var w1 := Forwarded(place, ReconcileAt(place, w, at), owner, op, r.first).0;
      && (r.late1 ==> reply == Failed && w' == w1)
      && (!r.late1 && (r.second.Unreached? || r.second.AnswerLost?) ==>
            && w' == Forwarded(place, w1, owner, op, r.second).0
            && (r.late2 || !op.Get? ==> reply == Failed))
  {
  }

  /** Without faults a call is the driver's call: same store afterwards, same reply. */
  lemma FaultFreeCallIsDriverCall(place: Str -> nat, w: World, at: Str, op: Op, r: Route)
    requires Inv(place, w) && at in w.nodes
    requires r.local.disk.Fine? && r.first.Answered? && r.first.ch.disk.Fine?
    requires Owner(w.ring.members, place, op.key) in w.nodes
    ensures
      var (w', reply) := Execute(place, w, at, op, r);
      var ch := if Owner(w.ring.members, place, op.key) == at then r.local else r.first.ch;
      (w'.store, reply) == Cold(w.store, op, ch.stamp)
  {
    var owner := Owner(w.ring.members, place, op.key);
    OwnerIsMember(w.ring.members, place, op.key);
    if owner == at {
      RawAtOwner(place, w, at, op, r.local);
    } else {
      ReconcileAtKeepsInv(place, w, at);
      RawAtOwner(place, ReconcileAt(place, w, at), owner, op, r.first.ch);
    }
  }

  // ---------------------------------------------------------------- how often a call is applied

  /** The driver would carry this write out, rather than refuse it. */
  predicate Accepts(store: Store, op: Op) {
    match op
    case Get(_) => false
    case Put(key, _, expected) => PutRefusal(store, key, expected).None?
    case Delete(key, expected) => DeleteRefusal(store, key, expected).None?
  }

  /** The stamp of the write one serving makes the driver apply, if it applies one. */
  function Applied(store: Store, op: Op, ch: Choice): seq<Stamp> {
    if ch.disk.Down? || !Accepts(store, op) then [] else [ch.stamp]
  }

  ghost function AppliedBy(w: World, owner: Str, op: Op, a: Attempt): seq<Stamp> {
    if Reaches(w, owner, a) then Applied(w.store, op, a.ch) else []
  }

  /** The stamps of all writes the driver applies for one call, in order. */
  ghost function Applications(place: Str -> nat, w: World, at: Str, op: Op, r: Route): seq<Stamp>
    requires at in w.nodes
  {
    var owner := Owner(w.ring.members, place, op.key);
    if owner == [] || owner == at then Applied(w.store, op, r.local)
    else
      var w0 := ReconcileAt(place, w, at);
      var (w1, reply1) := Forwarded(place, w0, owner, op, r.first);
      AppliedBy(w0, owner, op, r.first)
      + (if reply1.None? && !r.late1 then AppliedBy(w1, owner, op, r.second) else [])
  }

  /** The driver accepts the operation under each of the stamps, one after the other. */
  predicate AcceptsAll(store: Store, op: Op, stamps: seq<Stamp>)
    decreases |stamps|
  {
    stamps != [] ==> Accepts(store, op) && AcceptsAll(Cold(store, op, stamps[0]).0, op, stamps[1..])
  }

  function AppliedAll(store: Store, op: Op, stamps: seq<Stamp>): Store
    decreases |stamps|
  {
    if stamps == [] then store else AppliedAll(Cold(store, op, stamps[0]).0, op, stamps[1..])
  }

  /** What a reply says about the write of the serving that gave it. */
  ghost predicate Tells(store: Store, op: Op, reply: Reply, stamps: seq<Stamp>) {
    && (reply.Wrote? || reply.Deleted? ==> stamps != [])
    && (reply.Refused? ==> !op.Get? && !Accepts(store, op) && stamps == [])
  }

  lemma RawApplies(place: Str -> nat, w: World, at: Str, op: Op, ch: Choice)
    requires at in w.nodes
    ensures
      var (w', reply) := Raw(place, w, at, op, ch);
      var stamps := Applied(w.store, op, ch);
      && w'.nodes.Keys == w.nodes.Keys
      && AcceptsAll(w.store, op, stamps) && w'.store == AppliedAll(w.store, op, stamps)
      && Tells(w.store, op, reply, stamps)
      && (ch.disk.Fine? && !op.Get? && !Accepts(w.store, op) ==> reply.Refused?)
  {
  }

  lemma ForwardedApplies(place: Str -> nat, w: World, owner: Str, op: Op, a: Attempt)
    ensures
      var (w', reply) := Forwarded(place, w, owner, op, a);
      var stamps := AppliedBy(w, owner, op, a);
      && w'.nodes.Keys == w.nodes.Keys && |stamps| <= 1
      && AcceptsAll(w.store, op, stamps) && w'.store == AppliedAll(w.store, op, stamps)
      && (reply.Some? ==> Tells(w.store, op, reply.value, stamps))
      && (reply.Some? <==> Declines(w, owner, a) || (Reaches(w, owner, a) && a.Answered?))
  {
    if Reaches(w, owner, a) {
      RawApplies(place, w, owner, op, a.ch);
    }
  }

  lemma {:induction false} ApplyAppend(store: Store, op: Op, a: seq<Stamp>, b: seq<Stamp>)
    requires AcceptsAll(store, op, a) && AcceptsAll(AppliedAll(store, op, a), op, b)
    ensures AcceptsAll(store, op, a + b)
    ensures AppliedAll(store, op, a + b) == AppliedAll(AppliedAll(store, op, a), op, b)
    decreases |a|
  {
    if a == [] {
      assert a + b == b;
    } else {
      assert (a + b)[1..] == a[1..] + b;
      ApplyAppend(Cold(store, op, a[0]).0, op, a[1..], b);
    }
  }

  /** With faults the store still changes only by writes the driver accepts, at most two of them, and
      a call that reports success made at least one. */
  lemma StoreChangesOnlyAsDriver(place: Str -> nat, w: World, at: Str, op: Op, r: Route)
    requires at in w.nodes
    ensures
      var (w', reply) := Execute(place, w, at, op, r);
      var stamps := Applications(place, w, at, op, r);
      && AcceptsAll(w.store, op, stamps) && w'.store == AppliedAll(w.store, op, stamps)
      && |stamps| <= 2
      && (reply.Wrote? || reply.Deleted? ==> stamps != [])
  {
    var owner := Owner(w.ring.members, place, op.key);
    if owner == [] || owner == at {
      RawApplies(place, w, at, op, r.local);
    } else {
      var w0 := ReconcileAt(place, w, at);
      ForwardedApplies(place, w0, owner, op, r.first);
      var (w1, reply1) := Forwarded(place, w0, owner, op, r.first);
      var a := AppliedBy(w0, owner, op, r.first);
      if reply1.None? && !r.late1 {
        ForwardedApplies(place, w1, owner, op, r.second);
        ApplyAppend(w.store, op, a, AppliedBy(w1, owner, op, r.second));
      } else {
        assert a + [] == a;
      }
    }
  }

  /** Both deliveries get to a working driver: the answer to the first is lost, the caller still has
      time, and the retry arrives. */
  ghost predicate DeliveredTwice(place: Str -> nat, w: World, at: Str, op: Op, r: Route) {
    var owner := Owner(w.ring.members, place, op.key);
    && owner != [] && owner != at && owner in w.nodes
    && r.first.AnswerLost? && !r.first.ch.disk.Down? && !r.late1
    && (r.second.AnswerLost? || r.second.Answered?) && !r.second.ch.disk.Down?
  }

  /** Exactly when one call is applied twice: a put delivered twice that is unconditional, or names a
      version that the driver issues once more for it. Never a create-only put, never a delete. */
  lemma AppliedTwiceIff(place: Str -> nat, w: World, at: Str, op: Op, r: Route)
    requires at in w.nodes
    ensures |Applications(place, w, at, op, r)| == 2
       <==> && DeliveredTwice(place, w, at, op, r) && op.Put?
            && (|| op.expected == NO_ETAG
                || (&& RealTag(op.expected) && op.key in w.store
                    && w.store[op.key].etag == op.expected == r.first.ch.stamp.etag))
  {
    var owner := Owner(w.ring.members, place, op.key);
    if owner != [] && owner != at {
      var w0 := ReconcileAt(place, w, at);
      if Reaches(w0, owner, r.first) {
        RawApplies(place, w0, owner, op, r.first.ch);
      }
    }
  }

  /** A put that names a version is applied at most once, retry included, as long as the driver does
      not issue that version again. */
  lemma ForwardedConditionalPutOnce(place: Str -> nat, w: World, at: Str, op: Op, r: Route)
    requires at in w.nodes
    requires op.Put? && RealTag(op.expected)
    requires r.first.AnswerLost? ==> r.first.ch.stamp.etag != op.expected
    ensures |Applications(place, w, at, op, r)| <= 1
  {
    StoreChangesOnlyAsDriver(place, w, at, op, r);
    AppliedTwiceIff(place, w, at, op, r);
  }

  /** Exactly when a caller is told "refused" although its write was applied: the answer to an
      accepted write is lost and the retry finds the write's own result in its way. */
  lemma RefusedYetAppliedIff(place: Str -> nat, w: World, at: Str, op: Op, r: Route)
    requires at in w.nodes
    ensures Execute(place, w, at, op, r).1.Refused? && Applications(place, w, at, op, r) != []
       <==> && DeliveredTwice(place, w, at, op, r) && r.second.Answered? && r.second.ch.disk.Fine?
            && Accepts(w.store, op)
            && (op.Put? ==> op.expected == ANY_ETAG || (RealTag(op.expected) && r.first.ch.stamp.etag != op.expected))
  {
    var owner := Owner(w.ring.members, place, op.key);
    if owner == [] || owner == at {
      RawApplies(place, w, at, op, r.local);
    } else {
      var w0 := ReconcileAt(place, w, at);
      ForwardedApplies(place, w0, owner, op, r.first);
      var w1 := Forwarded(place, w0, owner, op, r.first).0;
      ForwardedApplies(place, w1, owner, op, r.second);
      if Reaches(w1, owner, r.second) {
        RawApplies(place, w1, owner, op, r.second.ch);
      }
    }
  }

  // ---------------------------------------------------------------- whole runs

  /** A membership change ages every promise by one generation, and breaks none. */
  lemma MemberKeepsInv(place: Str -> nat, w: World, change: Change)
    requires Inv(place, w) && RingOk(Changed(w.ring, change))
    ensures Inv(place, w.(ring := Changed(w.ring, change)))
  {
    var ring' := Changed(w.ring, change);
    forall at | at in w.nodes ensures NodeOk(place, w.store, ring', at, w.nodes[at]) {
      var n := w.nodes[at];
      assert NodeOk(place, w.store, w.ring, at, n);
      forall k | k in n.cache ensures EntryOk(place, w.store, ring', at, n, k) {
        assert EntryOk(place, w.store, w.ring, at, n, k);
      }
    }
  }

  lemma EvictKeepsInv(place: Str -> nat, w: World, at: Str, keys: set<Str>)
    requires Inv(place, w) && at in w.nodes
    ensures Inv(place, w.(nodes := w.nodes[at := w.nodes[at].(cache := w.nodes[at].cache - keys)]))
  {
    var n := w.nodes[at];
    assert NodeOk(place, w.store, w.ring, at, n);
    var n' := n.(cache := n.cache - keys);
    forall k | k in n'.cache ensures EntryOk(place, w.store, w.ring, at, n', k) {
      assert EntryOk(place, w.store, w.ring, at, n, k);
    }
  }

  lemma NextKeepsInv(place: Str -> nat, w: World, e: Event)
    requires Inv(place, w) && Legal(w, e)
    ensures Inv(place, Next(place, w, e))
  {
    match e {
      case Member(change) => MemberKeepsInv(place, w, change);
      case Spawn(at) =>
      case Close(at) =>
      case Use(at, op, route) => ExecuteOk(place, w, at, op, route);
      case Evict(at, keys) => EvictKeepsInv(place, w, at, keys);
    }
  }

  ghost predicate LegalRun(place: Str -> nat, w: World, es: seq<Event>)
    decreases |es|
  {
    es != [] ==> Legal(w, es[0]) && LegalRun(place, Next(place, w, es[0]), es[1..])
  }

  /** Every read along a run returns the cold store's content of that moment, or fails outright; and
      without a driver fault or a missed deadline it fails exactly when it is turned away. */
  ghost predicate ReadsExact(place: Str -> nat, w: World, es: seq<Event>)
    requires LegalRun(place, w, es)
    decreases |es|
  {
    es != [] ==>
      && (es[0].Use? && es[0].op.Get? ==>
            var reply := Execute(place, w, es[0].at, es[0].op, es[0].route).1;
            var cold := if es[0].op.key in w.store then Found(ObjectAt(w.store, es[0].op.key)) else Missing;
            && (reply == cold || reply == Failed)
            && (Steady(es[0].route) ==>
                  (reply == Failed <==> TurnedAway(place, w, es[0].at, es[0].op.key, es[0].route))))
      && ReadsExact(place, Next(place, w, es[0]), es[1..])
  }

  lemma {:induction false} RunsReadExactly(place: Str -> nat, w: World, es: seq<Event>)
    requires Inv(place, w) && LegalRun(place, w, es)
    ensures ReadsExact(place, w, es)
    decreases |es|
  {
    if es != [] {
      var e := es[0];
      if e.Use? {
        ExecuteOk(place, w, e.at, e.op, e.route);
      }
      NextKeepsInv(place, w, e);
      RunsReadExactly(place, Next(place, w, e), es[1..]);
    }
  }

  /** Any store and any non-empty ring with no node started yet is a legitimate beginning. */
  lemma FreshClusterReadsExactly(place: Str -> nat, store: Store, ring: View, es: seq<Event>)
    requires RingOk(ring) && LegalRun(place, World(store, ring, map[]), es)
    ensures ReadsExact(place, World(store, ring, map[]), es)
  {
    RunsReadExactly(place, World(store, ring, map[]), es);
  }

  ghost function Calm(stamp: Stamp): Route {
    var ch := Choice(false, true, {}, Fine, stamp);
    Route(Answered(ch), false, Answered(ch), false, ch)
  }

  /** A read that fails although nothing is broken: the first node of a new cluster reads a key whose
      owner is up but has not opened the database yet. */
  lemma UnopenedOwnerFailsRead(place: Str -> nat, store: Store, ring: View, at: Str, key: Str, stamp: Stamp)
    requires RingOk(ring) && Owner(ring.members, place, key) != at
    ensures
      var w := World(store, ring, map[]);
      var read := Use(at, Get(key), Calm(stamp));
      && LegalRun(place, w, [Spawn(at), read]) && Steady(read.route)
      && Execute(place, Next(place, w, Spawn(at)), at, read.op, read.route).1 == Failed
  {
    var w := World(store, ring, map[]);
    var read := Use(at, Get(key), Calm(stamp));
    var w1 := Next(place, w, Spawn(at));
    OwnerIsMember(ring.members, place, key);
    assert [Spawn(at), read][1..] == [read];
    assert [read][1..] == [];
    assert LegalRun(place, w1, [read]);
  }

  /** Once every member of the ring serves the database and accepts the caller's requests, only
      driver faults and missed deadlines can fail a read. */
  lemma ServedRingReadsExactly(place: Str -> nat, w: World, at: Str, key: Str, r: Route)
    requires Inv(place, w) && at in w.nodes && w.ring.members <= w.nodes.Keys
    requires Steady(r) && !r.first.Unauthentic? && !r.second.Unauthentic?
    ensures Execute(place, w, at, Get(key), r).1 == Cold(w.store, Get(key), r.local.stamp).1
  {
    OwnerIsMember(w.ring.members, place, key);
    ExecuteOk(place, w, at, Get(key), r);
  }

  // ---------------------------------------------------------------- what was written is what is read

  /** The write conditions as a client meets them. */
  predicate MayPut(store: Store, key: Str, expected: Str) {
    expected == [] || (if expected == [0x2A] then key !in store else key in store && store[key].etag == expected)
  }

  /** A call in which nothing goes wrong, and the stamp its write gets. */
  ghost predicate FaultFree(place: Str -> nat, w: World, key: Str, r: Route) {
    r.local.disk.Fine? && r.first.Answered? && r.first.ch.disk.Fine? && Owner(w.ring.members, place, key) in w.nodes
  }

  ghost function StampOf(place: Str -> nat, w: World, at: Str, key: Str, r: Route): Stamp
    requires r.first.Answered?
  {
    if Owner(w.ring.members, place, key) == at then r.local.stamp else r.first.ch.stamp
  }

  /** An accepted put is read back, field by field, at every node; a refused one changes nothing; and
      in either case every other key reads as it did. */
  lemma PutIsReadBack(place: Str -> nat, w: World, at: Str, key: Str, value: seq<byte>, expected: Str, r: Route,
                      at': Str, other: Str, r': Route)
    requires Inv(place, w) && at in w.nodes && at' in w.nodes
    requires FaultFree(place, w, key, r) && FaultFree(place, w, other, r')
    ensures
      var t := StampOf(place, w, at, key, r);
      var (w1, reply) := Execute(place, w, at, Put(key, value, expected), r);
      var written := Object(key, value, t.etag, t.modTime);
      && (if MayPut(w.store, key, expected) then reply == Wrote(written) else reply.Refused? && w1.store == w.store)
      && at' in w1.nodes
      && Execute(place, w1, at', Get(other), r').1
         == if other == key && MayPut(w.store, key, expected) then Found(written)
            else if other in w.store
            then Found(Object(other, w.store[other].value, w.store[other].etag, w.store[other].modTime))
            else Missing
  {
    var op := Put(key, value, expected);
    var w1 := Execute(place, w, at, op, r).0;
    FaultFreeCallIsDriverCall(place, w, at, op, r);
    ExecuteOk(place, w, at, op, r);
    SameNodes(place, w, at, op, r);
    FaultFreeCallIsDriverCall(place, w1, at', Get(other), r');
  }

  /** After a delete that went through the key is missing at every node. */
  lemma DeleteIsReadBack(place: Str -> nat, w: World, at: Str, key: Str, expected: Str, r: Route, at': Str, r': Route)
    requires Inv(place, w) && at in w.nodes && at' in w.nodes
    requires FaultFree(place, w, key, r) && FaultFree(place, w, key, r')
    ensures
      var (w1, reply) := Execute(place, w, at, Delete(key, expected), r);
      && (reply == Deleted <==>
            key in w.store && (expected == [] || expected == [0x2A] || w.store[key].etag == expected))
      && (reply != Deleted ==> reply.Refused? && w1.store == w.store)
      && at' in w1.nodes
      && (reply == Deleted ==> Execute(place, w1, at', Get(key), r').1 == Missing)
  {
    var op := Delete(key, expected);
    var w1 := Execute(place, w, at, op, r).0;
    FaultFreeCallIsDriverCall(place, w, at, op, r);
    ExecuteOk(place, w, at, op, r);
    SameNodes(place, w, at, op, r);
    FaultFreeCallIsDriverCall(place, w1, at', Get(key), r');
  }

  lemma SameNodes(place: Str -> nat, w: World, at: Str, op: Op, r: Route)
    requires at in w.nodes
    ensures Execute(place, w, at, op, r).0.nodes.Keys == w.nodes.Keys
  {
    var owner := Owner(w.ring.members, place, op.key);
    if owner == [] || owner == at {
      RawApplies(place, w, at, op, r.local);
    } else {
      var w0 := ReconcileAt(place, w, at);
      ForwardedApplies(place, w0, owner, op, r.first);
      ForwardedApplies(place, Forwarded(place, w0, owner, op, r.first).0, owner, op, r.second);
    }
  }

  /** Whatever went wrong on the way, a put that reports success is in the store as it was put. */
  lemma WroteIsStored(place: Str -> nat, w: World, at: Str, op: Op, r: Route)
    requires at in w.nodes
    ensures
      var (w', reply) := Execute(place, w, at, op, r);
      reply.Wrote? ==>
        && op.Put? && op.key in w'.store && w'.store[op.key].value == op.value
        && reply.obj == Object(op.key, op.value, w'.store[op.key].etag, w'.store[op.key].modTime)
  {
    var owner := Owner(w.ring.members, place, op.key);
    if owner == [] || owner == at {
      RawWrote(place, w, at, op, r.local);
    } else {
      var w0 := ReconcileAt(place, w, at);
      if Reaches(w0, owner, r.first) { RawWrote(place, w0, owner, op, r.first.ch); }
      var w1 := Forwarded(place, w0, owner, op, r.first).0;
      if Reaches(w1, owner, r.second) { RawWrote(place, w1, owner, op, r.second.ch); }
    }
  }

  lemma RawWrote(place: Str -> nat, w: World, at: Str, op: Op, ch: Choice)
    requires at in w.nodes
    ensures
      var (w', reply) := Raw(place, w, at, op, ch);
      reply.Wrote? ==>
        && op.Put? && op.key in w'.store && w'.store[op.key].value == op.value
        && reply.obj == Object(op.key, op.value, w'.store[op.key].etag, w'.store[op.key].modTime)
  {
  }

  ghost function Run(place: Str -> nat, w: World, es: seq<Event>): World
    requires LegalRun(place, w, es)
    decreases |es|
  {
    if es == [] then w else Run(place, Next(place, w, es[0]), es[1..])
  }

  predicate Writes(e: Event, key: Str) {
    e.Use? && !e.op.Get? && e.op.key == key
  }

  predicate SameAt(store: Store, store': Store, key: Str) {
    (key in store <==> key in store') && (key in store ==> store'[key] == store[key])
  }

  lemma {:induction false} AppliedAllFrame(store: Store, op: Op, stamps: seq<Stamp>, key: Str)
    requires op.key != key
    ensures SameAt(store, AppliedAll(store, op, stamps), key)
    decreases |stamps|
  {
    if stamps != [] {
      AppliedAllFrame(Cold(store, op, stamps[0]).0, op, stamps[1..], key);
    }
  }

  lemma {:induction false} ReadsApplyNothing(store: Store, op: Op, stamps: seq<Stamp>)
    requires op.Get?
    ensures AppliedAll(store, op, stamps) == store
    decreases |stamps|
  {
    if stamps != [] {
      ReadsApplyNothing(store, op, stamps[1..]);
    }
  }

  lemma NextKeepsKey(place: Str -> nat, w: World, e: Event, key: Str)
    requires Legal(w, e) && !Writes(e, key)
    ensures SameAt(w.store, Next(place, w, e).store, key)
  {
    if e.Use? {
      StoreChangesOnlyAsDriver(place, w, e.at, e.op, e.route);
      var stamps := Applications(place, w, e.at, e.op, e.route);
      if e.op.Get? {
        ReadsApplyNothing(w.store, e.op, stamps);
      } else {
        AppliedAllFrame(w.store, e.op, stamps, key);
      }
    }
  }

  lemma {:induction false} RunKeepsKey(place: Str -> nat, w: World, es: seq<Event>, key: Str)
    requires Inv(place, w) && LegalRun(place, w, es) && forall e :: e in es ==> !Writes(e, key)
    ensures Inv(place, Run(place, w, es)) && SameAt(w.store, Run(place, w, es).store, key)
    decreases |es|
  {
    if es != [] {
      assert es[0] in es;
      NextKeepsInv(place, w, es[0]);
      NextKeepsKey(place, w, es[0], key);
      RunKeepsKey(place, Next(place, w, es[0]), es[1..], key);
    }
  }

  /** Read your writes, over whole runs: once a put has reported success, every read of the key
      anywhere returns the very object it reported until somebody writes the key again - through any
      faults, evictions, openings, closings and membership changes - or fails outright, and without
      driver faults and missed deadlines it fails exactly when it is turned away. */
  lemma LastWriteIsRead(place: Str -> nat, w: World, at: Str, put: Op, r: Route, es: seq<Event>, at': Str, r': Route)
    requires Inv(place, w) && at in w.nodes && Execute(place, w, at, put, r).1.Wrote?
    requires
      var w1 := Execute(place, w, at, put, r).0;
      LegalRun(place, w1, es) && at' in Run(place, w1, es).nodes
    requires forall e :: e in es ==> !Writes(e, put.key)
    ensures
      var (w1, reply) := Execute(place, w, at, put, r);
      var end := Run(place, w1, es);
      var read := Execute(place, end, at', Get(put.key), r').1;
      && put.Put? && reply.obj.key == put.key && reply.obj.value == put.value
      && (read == Found(reply.obj) || read == Failed)
      && (Steady(r') ==> (read == Failed <==> TurnedAway(place, end, at', put.key, r')))
  {
    var w1 := Execute(place, w, at, put, r).0;
    ExecuteOk(place, w, at, put, r);
    WroteIsStored(place, w, at, put, r);
    RunKeepsKey(place, w1, es, put.key);
    ExecuteOk(place, Run(place, w1, es), at', Get(put.key), r');
  }

  // ---------------------------------------------------------------- what the cache is for

  /** What a node may keep across one membership change. */
  ghost predicate StillOwner(place: Str -> nat, ring: View, ring': View, self: Str, key: Str) {
    && Owner(ring.members, place, key) == self == Owner(ring'.members, place, key)
    && ring.generation <= ring'.generation <= ring.generation + 1
  }

  /** The owner answers from memory: having found or written an object and admitted it, it returns that
      object again without the driver's help, and still does after one membership change that leaves
      the key with it. */
  lemma OwnerServesFromMemory(place: Str -> nat, w: World, at: Str, op: Op, ch: Choice, ring': View, ch': Choice)
    requires Inv(place, w) && at in w.nodes && StillOwner(place, w.ring, ring', at, op.key)
    requires ch.admit && ch.disk.Fine? && !ch'.expired
    ensures
      var (w1, reply) := Raw(place, w, at, op, ch);
      reply.Found? || reply.Wrote? ==>
        at in w1.nodes && Raw(place, w1.(ring := ring'), at, Get(op.key), ch'.(disk := Down)).1 == Found(reply.obj)
  {
    OwnerIsMember(ring'.members, place, op.key);
    ReconcileRestores(place, w.store, w.ring, at, w.nodes[at]);
    RawCaches(place, w, at, op, ch);
    var w1 := Raw(place, w, at, op, ch).0;
    assert w1.nodes[at].reconciledGen == w.ring.generation;
  }

  lemma RawCaches(place: Str -> nat, w: World, at: Str, op: Op, ch: Choice)
    requires at in w.nodes && ch.admit && ch.disk.Fine?
    ensures
      var (w1, reply) := Raw(place, w, at, op, ch);
      reply.Found? || reply.Wrote? ==> op.key in w1.nodes[at].cache && w1.nodes[at].cache[op.key] == reply.obj
  {
  }

  // ---------------------------------------------------------------- why the ring must not be empty

  /** With an empty ring every node believes it owns every key: node `b` overwrites a key that node
      `a` has cached, and `a` keeps serving the old object. */
  lemma EmptyRingServesStale(place: Str -> nat, a: Str, b: Str, k: Str, v: seq<byte>, old1: Stamp, new1: Stamp)
    requires a != b && old1 != new1
    ensures
      var w0 := World(Written(map[], k, v, old1), View({}, 0), map[a := Node(map[], 0), b := Node(map[], 0)]);
      var w1 := Execute(place, w0, a, Get(k), Calm(old1)).0;
      a in w1.nodes && b in w1.nodes &&
      var w2 := Execute(place, w1, b, Put(k, v, NO_ETAG), Calm(new1)).0;
      a in w2.nodes && k in w2.store &&
      var reply := Execute(place, w2, a, Get(k), Calm(new1)).1;
      reply.Found? && reply.obj != ObjectAt(w2.store, k)
  {
    assert Order.SortedKeys({}) == [];
    assert Owner({}, place, k) == [];
  }
}
