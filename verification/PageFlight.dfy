/** Singleflight listing with the re-check after winning leadership: what is served, and no page fetched in vain. */
module PageFlight {
  import opened Base

  /** What an observer sees: successful driver listings, and copies of a listing ceasing to be usable.
      A listing is known by its place in the log. */
  datatype Mark = FetchedOk(page: Str) | Gone(page: Str, source: nat)

  /** A cached page: the listing it came from, and whether it has not expired. */
  datatype Copy = Copy(source: nat, usable: bool)

  /** How a call ended. `seen` is how long the log was when the page was obtained. */
  datatype Outcome = Pending | Failed | Page(source: nat, seen: nat)

  /** An in-flight listing; `born` is how long the log was when it began. */
  datatype Call = Call(page: Str, leader: nat, born: nat, outcome: Outcome, closed: bool)

  datatype Phase =
    | Idle
    | Missed(page: Str)
    | Leading(page: Str, call: nat)                // won LoadOrStore, cache not yet re-checked
    | Fetching(page: Str, call: nat)               // re-check failed, the driver's List is running
    | Fetched(page: Str, call: nat, source: nat)   // the driver answered, page not yet admitted
    | Leaving(page: Str, call: nat)                // about to delete the in-flight entry
    | Following(page: Str, call: nat)

  /** A page given to a caller; `call` is None for a hit on the fast path. */
  datatype Reply = Reply(page: Str, source: nat, seen: nat, call: Option<nat>)

  datatype World = World(pages: map<Str, Copy>, inflight: map<Str, nat>, calls: map<nat, Call>,
                         threads: map<nat, Phase>, log: seq<Mark>, replies: seq<Reply>)

  datatype Event =
    | Spawn(t: nat)
    | Hit(t: nat, page: Str)
    | Miss(t: nat, page: Str)
    | LoadOrStore(t: nat, call: nat)
    | Recheck(t: nat)
    | DriverFails(t: nat)
    | DriverLists(t: nat)
    | Admit(t: nat)
    | Unregister(t: nat)
    | FollowerReturns(t: nat)
    | FollowerCancelled(t: nat)
    | Expire(page: Str)
    | Drop(page: Str)          // capacity eviction, invalidation, purge

  ghost predicate Leads(p: Phase) {
    p.Leading? || p.Fetching? || p.Fetched? || p.Leaving?
  }

  ghost predicate FreshIn(w: World, page: Str) {
    page in w.pages && w.pages[page].usable
  }

  ghost predicate Enabled(w: World, e: Event) {
    match e
    case Spawn(t) => t !in w.threads
    case Hit(t, page) => t in w.threads && w.threads[t].Idle? && FreshIn(w, page)
    case Miss(t, page) => t in w.threads && w.threads[t].Idle? && !FreshIn(w, page)
    case LoadOrStore(t, call) => t in w.threads && w.threads[t].Missed? && call !in w.calls
    case Recheck(t) => t in w.threads && w.threads[t].Leading? && w.threads[t].call in w.calls
    case DriverFails(t) => t in w.threads && w.threads[t].Fetching? && w.threads[t].call in w.calls
    case DriverLists(t) => t in w.threads && w.threads[t].Fetching? && w.threads[t].call in w.calls
    case Admit(t) => t in w.threads && w.threads[t].Fetched?
    case Unregister(t) => t in w.threads && w.threads[t].Leaving? && w.threads[t].call in w.calls
    case FollowerReturns(t) =>
      t in w.threads && w.threads[t].Following? && w.threads[t].call in w.calls && w.calls[w.threads[t].call].closed
    case FollowerCancelled(t) => t in w.threads && w.threads[t].Following?
    case Expire(page) => FreshIn(w, page)
    case Drop(page) => page in w.pages
  }

  ghost function Move(w: World, t: nat, p: Phase): World {
    w.(threads := w.threads[t := p])
  }

  ghost function Ended(w: World, call: nat, outcome: Outcome): World
    requires call in w.calls
  {
    w.(calls := w.calls[call := w.calls[call].(outcome := outcome)])
  }

  /** What the caller gets from a call: its page, or its error and no page. */
  ghost function Returned(w: World, call: nat): World
    requires call in w.calls
  {
    var k := w.calls[call];
    if k.outcome.Page? then w.(replies := w.replies + [Reply(k.page, k.outcome.source, k.outcome.seen, Some(call))]) else w
  }

  ghost function Step(w: World, e: Event): World
    requires Enabled(w, e)
  {
    match e
    case Spawn(t) => Move(w, t, Idle)
    case Hit(t, page) => w.(replies := w.replies + [Reply(page, w.pages[page].source, |w.log|, None)])
    case Miss(t, page) => Move(w.(pages := w.pages - {page}), t, Missed(page))
    case LoadOrStore(t, call) =>
      var page := w.threads[t].page;
      if page in w.inflight then Move(w, t, Following(page, w.inflight[page]))
      else
        Move(w.(inflight := w.inflight[page := call], calls := w.calls[call := Call(page, t, |w.log|, Pending, false)]),
             t, Leading(page, call))
    case Recheck(t) =>
      var p := w.threads[t];
      if FreshIn(w, p.page)
      then Move(Ended(w, p.call, Page(w.pages[p.page].source, |w.log|)), t, Leaving(p.page, p.call))
      else Move(w, t, Fetching(p.page, p.call))
    case DriverFails(t) =>
      var p := w.threads[t];
      Move(Ended(w, p.call, Failed), t, Leaving(p.page, p.call))
    case DriverLists(t) =>
      var p := w.threads[t];
      var w1 := w.(log := w.log + [FetchedOk(p.page)]);
      Move(Ended(w1, p.call, Page(|w.log|, |w.log| + 1)), t, Fetched(p.page, p.call, |w.log|))
    case Admit(t) =>
      var p := w.threads[t];
      Move(w.(pages := w.pages[p.page := Copy(p.source, true)]), t, Leaving(p.page, p.call))
    case Unregister(t) =>
      var p := w.threads[t];
      var w1 := w.(inflight := w.inflight - {p.page}, calls := w.calls[p.call := w.calls[p.call].(closed := true)]);
      Move(Returned(w1, p.call), t, Idle)
    case FollowerReturns(t) => Move(Returned(w, w.threads[t].call), t, Idle)
    case FollowerCancelled(t) => Move(w, t, Idle)
    case Expire(page) =>
      w.(pages := w.pages[page := w.pages[page].(usable := false)], log := w.log + [Gone(page, w.pages[page].source)])
    case Drop(page) => w.(pages := w.pages - {page}, log := w.log + [Gone(page, w.pages[page].source)])
  }

  // ---------------------------------------------------------------- the log

  /** The listing at `source` was of this page and, after the first `n` marks, still usable. */
  ghost predicate Live(log: seq<Mark>, page: Str, source: nat, n: nat) {
    source < n <= |log| && log[source] == FetchedOk(page) && forall m :: 0 <= m < n ==> log[m] != Gone(page, source)
  }

  ghost predicate GoneAfter(log: seq<Mark>, page: Str, source: nat, n: nat) {
    exists m :: source < m < n && m < |log| && log[m] == Gone(page, source)
  }

  /** Before a page is fetched again, every earlier copy of it was gone. */
  ghost predicate NoFetchInVain(log: seq<Mark>) {
    forall i, j :: 0 <= i < j < |log| && log[i].FetchedOk? && log[i] == log[j] ==> GoneAfter(log, log[i].page, i, j)
  }

  /** What is said to be gone had been listed. */
  ghost predicate MarksPast(log: seq<Mark>) {
    forall m :: 0 <= m < |log| && log[m].Gone? ==> log[m].source < m
  }

  ghost predicate AllGone(log: seq<Mark>, page: Str) {
    forall i :: 0 <= i < |log| && log[i] == FetchedOk(page) ==> GoneAfter(log, page, i, |log|)
  }

  lemma GoneStays(log: seq<Mark>, mark: Mark, page: Str, source: nat, n: nat)
    requires GoneAfter(log, page, source, n)
    ensures GoneAfter(log + [mark], page, source, n)
  {
    var m :| source < m < n && m < |log| && log[m] == Gone(page, source);
    assert (log + [mark])[m] == Gone(page, source);
  }

  lemma LiveStays(log: seq<Mark>, mark: Mark, page: Str, source: nat, n: nat)
    requires Live(log, page, source, n)
    ensures Live(log + [mark], page, source, n)
    ensures n == |log| && mark != Gone(page, source) ==> Live(log + [mark], page, source, |log| + 1)
  {
    assert forall m :: 0 <= m < |log| ==> (log + [mark])[m] == log[m];
  }

  lemma LogGrows(log: seq<Mark>, mark: Mark)
    requires NoFetchInVain(log) && (mark.FetchedOk? ==> AllGone(log, mark.page))
    ensures NoFetchInVain(log + [mark])
  {
    var log' := log + [mark];
    forall i, j | 0 <= i < j < |log'| && log'[i].FetchedOk? && log'[i] == log'[j]
      ensures GoneAfter(log', log'[i].page, i, j)
    {
      assert log'[i] == log[i];
      if j < |log| {
        assert log[i] == log[j];
        GoneStays(log, mark, log[i].page, i, j);
      } else {
        GoneStays(log, mark, log[i].page, i, |log|);
      }
    }
  }

  // ---------------------------------------------------------------- the invariant

  ghost predicate InHand(w: World, page: Str, source: nat) {
    exists t :: t in w.threads && w.threads[t].Fetched? && w.threads[t].page == page && w.threads[t].source == source
  }

  /** A listing is gone, or cached and fresh, or still in its leader's hands. */
  ghost predicate Accounted(w: World, i: nat)
    requires i < |w.log| && w.log[i].FetchedOk?
  {
    var page := w.log[i].page;
    GoneAfter(w.log, page, i, |w.log|) || (page in w.pages && w.pages[page] == Copy(i, true)) || InHand(w, page, i)
  }

  ghost predicate CopyOk(w: World, page: Str)
    requires page in w.pages
  {
    var c := w.pages[page];
    && c.source < |w.log| && w.log[c.source] == FetchedOk(page)
    && (c.usable ==> Live(w.log, page, c.source, |w.log|))
  }

  ghost predicate CallOk(w: World, c: nat)
    requires c in w.calls
  {
    var k := w.calls[c];
    && k.born <= |w.log| && (k.closed ==> !k.outcome.Pending?)
    && (k.outcome.Page? ==> k.born <= k.outcome.seen && Live(w.log, k.page, k.outcome.source, k.outcome.seen))
  }

  ghost predicate ThreadOk(w: World, t: nat)
    requires t in w.threads
  {
    var p := w.threads[t];
    && (Leads(p) || p.Following? ==> p.call in w.calls && w.calls[p.call].page == p.page)
    && (Leads(p) ==> p.page in w.inflight && w.inflight[p.page] == p.call
                     && w.calls[p.call].leader == t && !w.calls[p.call].closed)
    && (Leads(p) ==> (p.Leading? || p.Fetching? <==> w.calls[p.call].outcome.Pending?))
    && (p.Fetching? ==> AllGone(w.log, p.page))
    && (p.Fetched? ==> Live(w.log, p.page, p.source, |w.log|) && !(p.page in w.pages && w.pages[p.page].source == p.source))
  }

  ghost predicate ReplyOk(w: World, r: Reply) {
    match r.call
    case None => Live(w.log, r.page, r.source, r.seen)
    case Some(c) => c in w.calls && w.calls[c].page == r.page && w.calls[c].outcome == Page(r.source, r.seen)
                    && w.calls[c].closed
  }

  ghost predicate Inv(w: World) {
    && NoFetchInVain(w.log) && MarksPast(w.log)
    && (forall i :: 0 <= i < |w.log| && w.log[i].FetchedOk? ==> Accounted(w, i))
    && (forall page :: page in w.pages ==> CopyOk(w, page))
    && (forall page :: page in w.inflight ==> w.inflight[page] in w.calls && w.calls[w.inflight[page]].page == page)
    && (forall c :: c in w.calls ==> CallOk(w, c))
    && (forall t :: t in w.threads ==> ThreadOk(w, t))
    && (forall r :: r in w.replies ==> ReplyOk(w, r))
  }

  // ---------------------------------------------------------------- steps that leave the log alone

  /** A goroutine with no page in its hands moves on. */
  lemma MoveKeepsInv(w: World, t: nat, p: Phase)
    requires Inv(w) && !p.Fetched? && (t in w.threads ==> !w.threads[t].Fetched?)
    requires ThreadOk(Move(w, t, p), t)
    ensures Inv(Move(w, t, p))
  {
    var w' := Move(w, t, p);
    SameLog(w, w');
    forall u | u in w'.threads ensures ThreadOk(w', u) {
      if u != t { assert ThreadOk(w, u); }
    }
    forall page, i | InHand(w, page, i) ensures InHand(w', page, i) {
      HandKept(w, w', t, page, i);
    }
    forall i | 0 <= i < |w'.log| && w'.log[i].FetchedOk? ensures Accounted(w', i) { assert Accounted(w, i); }
  }

  lemma HandKept(w: World, w': World, t: nat, page: Str, i: nat)
    requires InHand(w, page, i) && (t in w.threads ==> !w.threads[t].Fetched?)
    requires forall u :: u in w.threads && u != t ==> u in w'.threads && w'.threads[u] == w.threads[u]
    ensures InHand(w', page, i)
  {
    var u :| u in w.threads && w.threads[u].Fetched? && w.threads[u].page == page && w.threads[u].source == i;
    assert w'.threads[u] == w.threads[u];
  }

  /** With log, calls and pages unchanged, what was said of them still holds. */
  lemma SameLog(w: World, w': World)
    requires Inv(w) && w'.log == w.log && w'.calls == w.calls && w'.pages == w.pages
    ensures forall page :: page in w'.pages ==> CopyOk(w', page)
    ensures forall c :: c in w'.calls ==> CallOk(w', c)
    ensures forall r :: r in w.replies ==> ReplyOk(w', r)
  {
    forall page | page in w'.pages ensures CopyOk(w', page) { assert CopyOk(w, page); }
    forall c | c in w'.calls ensures CallOk(w', c) { assert CallOk(w, c); }
    forall r | r in w.replies ensures ReplyOk(w', r) { assert ReplyOk(w, r); }
  }

  lemma AddReply(w: World, r: Reply)
    requires Inv(w) && ReplyOk(w, r)
    ensures Inv(w.(replies := w.replies + [r]))
  {
    var w' := w.(replies := w.replies + [r]);
    SameLog(w, w');
    forall t | t in w'.threads ensures ThreadOk(w', t) { assert ThreadOk(w, t); }
    forall i | 0 <= i < |w'.log| && w'.log[i].FetchedOk? ensures Accounted(w', i) {
      assert Accounted(w, i);
      assert InHand(w, w.log[i].page, i) ==> InHand(w', w.log[i].page, i);
    }
  }

  /** An expired copy is swept away. */
  lemma SweepKeepsInv(w: World, page: Str)
    requires Inv(w) && !FreshIn(w, page)
    ensures Inv(w.(pages := w.pages - {page}))
  {
    var w' := w.(pages := w.pages - {page});
    forall q | q in w'.pages ensures CopyOk(w', q) { assert CopyOk(w, q); }
    forall c | c in w'.calls ensures CallOk(w', c) { assert CallOk(w, c); }
    forall r | r in w'.replies ensures ReplyOk(w', r) { assert ReplyOk(w, r); }
    forall t | t in w'.threads ensures ThreadOk(w', t) { assert ThreadOk(w, t); }
    forall i | 0 <= i < |w'.log| && w'.log[i].FetchedOk? ensures Accounted(w', i) {
      assert Accounted(w, i);
      assert InHand(w, w.log[i].page, i) ==> InHand(w', w.log[i].page, i);
    }
  }

  lemma LeadKeepsInv(w: World, e: Event)
    requires Inv(w) && Enabled(w, e) && e.LoadOrStore? && w.threads[e.t].page !in w.inflight
    ensures Inv(Step(w, e))
  {
    var page := w.threads[e.t].page;
    var w' := Step(w, e);
    forall q | q in w'.pages ensures CopyOk(w', q) { assert CopyOk(w, q); }
    forall c | c in w'.calls ensures CallOk(w', c) {
      if c != e.call { assert CallOk(w, c); }
    }
    forall r | r in w'.replies ensures ReplyOk(w', r) { assert ReplyOk(w, r); }
    forall t | t in w'.threads ensures ThreadOk(w', t) { assert ThreadOk(w, t); }
    forall i | 0 <= i < |w'.log| && w'.log[i].FetchedOk? ensures Accounted(w', i) {
      assert Accounted(w, i);
      if InHand(w, w.log[i].page, i) { HandKept(w, w', e.t, w.log[i].page, i); }
    }
  }

  /** A leader past its re-check, with nobody else holding the page, knows every copy is gone. */
  lemma NothingLeft(w: World, t: nat)
    requires Inv(w) && t in w.threads && w.threads[t].Leading? && !FreshIn(w, w.threads[t].page)
    ensures AllGone(w.log, w.threads[t].page)
  {
    var page := w.threads[t].page;
    OnlyHolder(w, t);
    forall i | 0 <= i < |w.log| && w.log[i] == FetchedOk(page) ensures GoneAfter(w.log, page, i, |w.log|) {
      assert Accounted(w, i);
    }
  }

  /** A leader's call gets its outcome, and the leader prepares to leave. */
  lemma EndKeepsInv(w: World, t: nat, outcome: Outcome)
    requires Inv(w) && t in w.threads && (w.threads[t].Leading? || w.threads[t].Fetching?) && w.threads[t].call in w.calls
    requires !outcome.Pending?
    requires outcome.Page? ==> outcome.seen == |w.log| && Live(w.log, w.threads[t].page, outcome.source, outcome.seen)
    ensures Inv(Move(Ended(w, w.threads[t].call, outcome), t, Leaving(w.threads[t].page, w.threads[t].call)))
  {
    var p := w.threads[t];
    var w' := Move(Ended(w, p.call, outcome), t, Leaving(p.page, p.call));
    assert ThreadOk(w, t);
    forall q | q in w'.pages ensures CopyOk(w', q) { assert CopyOk(w, q); }
    forall c | c in w'.calls ensures CallOk(w', c) { assert CallOk(w, c); }
    forall r | r in w'.replies ensures ReplyOk(w', r) { assert ReplyOk(w, r); }
    forall u | u in w'.threads ensures ThreadOk(w', u) { assert ThreadOk(w, u); }
    forall i | 0 <= i < |w'.log| && w'.log[i].FetchedOk? ensures Accounted(w', i) {
      assert Accounted(w, i);
      if InHand(w, w.log[i].page, i) { HandKept(w, w', t, w.log[i].page, i); }
    }
  }

  lemma AdmitKeepsInv(w: World, e: Event)
    requires Inv(w) && Enabled(w, e) && e.Admit?
    ensures Inv(Step(w, e))
  {
    var p := w.threads[e.t];
    var w' := Step(w, e);
    assert ThreadOk(w, e.t);
    forall q | q in w'.pages ensures CopyOk(w', q) {
      if q != p.page { assert CopyOk(w, q); }
    }
    forall c | c in w'.calls ensures CallOk(w', c) { assert CallOk(w, c); }
    forall r | r in w'.replies ensures ReplyOk(w', r) { assert ReplyOk(w, r); }
    OnlyHolder(w, e.t);
    forall u | u in w'.threads ensures ThreadOk(w', u) { assert ThreadOk(w, u); }
    forall i | 0 <= i < |w'.log| && w'.log[i].FetchedOk? ensures Accounted(w', i) {
      AdmitAccounts(w, e, i);
    }
  }

  /** Whoever else holds or leads anything, it is not this leader's page. */
  lemma OnlyHolder(w: World, t: nat)
    requires Inv(w) && t in w.threads && Leads(w.threads[t])
    ensures forall u :: u in w.threads && u != t && Leads(w.threads[u]) ==> w.threads[u].page != w.threads[t].page
  {
    assert ThreadOk(w, t);
    forall u | u in w.threads && u != t && Leads(w.threads[u]) ensures w.threads[u].page != w.threads[t].page {
      assert ThreadOk(w, u);
    }
  }

  lemma AdmitAccounts(w: World, e: Event, i: nat)
    requires Inv(w) && Enabled(w, e) && e.Admit? && i < |w.log| && w.log[i].FetchedOk?
    ensures Accounted(Step(w, e), i)
  {
    var p, page, w' := w.threads[e.t], w.log[i].page, Step(w, e);
    assert Accounted(w, i) && ThreadOk(w, e.t);
    if page == p.page {
      // the copy it replaces, if it is another, cannot have been usable: fetched after it, all was gone
      if i != p.source && !GoneAfter(w.log, page, i, |w.log|) {
        OnlyHolder(w, e.t);
        Replaced(w, e.t, i);
      }
    } else if InHand(w, page, i) {
      var u :| u in w.threads && w.threads[u].Fetched? && w.threads[u].page == page && w.threads[u].source == i;
      assert w'.threads[u] == w.threads[u];
    }
  }

  /** Of two listings of a page the earlier one is gone. */
  lemma Replaced(w: World, t: nat, i: nat)
    requires Inv(w) && t in w.threads && w.threads[t].Fetched?
    requires i < |w.log| && w.log[i] == FetchedOk(w.threads[t].page) && i != w.threads[t].source
    ensures GoneAfter(w.log, w.threads[t].page, i, |w.log|)
  {
    var p := w.threads[t];
    assert ThreadOk(w, t);
    assert w.log[i] == w.log[p.source];
    assert i > p.source ==> GoneAfter(w.log, p.page, p.source, i);
    assert i < p.source;
    var m :| i < m < p.source && m < |w.log| && w.log[m] == Gone(p.page, i);
  }

  /** The leader deletes the in-flight entry, releases its followers and returns. */
  lemma UnregisterKeepsInv(w: World, e: Event)
    requires Inv(w) && Enabled(w, e) && e.Unregister?
    ensures Inv(Step(w, e))
  {
    var p := w.threads[e.t];
    var w1 := w.(inflight := w.inflight - {p.page}, calls := w.calls[p.call := w.calls[p.call].(closed := true)],
                 threads := w.threads[e.t := Idle]);
    assert ThreadOk(w, e.t);
    OnlyHolder(w, e.t);
    forall q | q in w1.pages ensures CopyOk(w1, q) { assert CopyOk(w, q); }
    forall c | c in w1.calls ensures CallOk(w1, c) { assert CallOk(w, c); }
    forall r | r in w1.replies ensures ReplyOk(w1, r) { assert ReplyOk(w, r); }
    forall u | u in w1.threads ensures ThreadOk(w1, u) { assert ThreadOk(w, u); }
    forall i | 0 <= i < |w1.log| && w1.log[i].FetchedOk? ensures Accounted(w1, i) {
      assert Accounted(w, i);
      if InHand(w, w.log[i].page, i) { HandKept(w, w1, e.t, w.log[i].page, i); }
    }
    ReturnKeepsInv(w1, p.call);
    assert Step(w, e) == Returned(w1, p.call);
  }

  lemma ReturnKeepsInv(w: World, call: nat)
    requires Inv(w) && call in w.calls && w.calls[call].closed
    ensures Inv(Returned(w, call))
  {
    var k := w.calls[call];
    if k.outcome.Page? {
      AddReply(w, Reply(k.page, k.outcome.source, k.outcome.seen, Some(call)));
    }
  }

  // ---------------------------------------------------------------- steps that add to the log

  /** What a mark leaves untouched: everything but the copies it says are gone. */
  lemma MarkKeeps(w: World, w': World, mark: Mark)
    requires Inv(w) && w'.log == w.log + [mark] && w'.calls == w.calls
    requires mark.FetchedOk? ==> AllGone(w.log, mark.page)
    ensures NoFetchInVain(w'.log) && (mark.Gone? && mark.source < |w.log| ==> MarksPast(w'.log))
    ensures forall c :: c in w'.calls ==> CallOk(w', c)
    ensures forall r :: r in w.replies ==> ReplyOk(w', r)
  {
    LogGrows(w.log, mark);
    forall c | c in w'.calls ensures CallOk(w', c) {
      assert CallOk(w, c);
      var k := w.calls[c];
      if k.outcome.Page? { LiveStays(w.log, mark, k.page, k.outcome.source, k.outcome.seen); }
    }
    forall r | r in w.replies ensures ReplyOk(w', r) {
      assert ReplyOk(w, r);
      if r.call.None? { LiveStays(w.log, mark, r.page, r.source, r.seen); }
    }
  }

  lemma AllGoneStays(log: seq<Mark>, mark: Mark, page: Str)
    requires AllGone(log, page) && mark != FetchedOk(page)
    ensures AllGone(log + [mark], page)
  {
    var log' := log + [mark];
    forall i | 0 <= i < |log'| && log'[i] == FetchedOk(page) ensures GoneAfter(log', page, i, |log'|) {
      assert log[i] == FetchedOk(page);
      GoneStays(log, mark, page, i, |log|);
      var m :| i < m < |log| && m < |log'| && log'[m] == Gone(page, i);
    }
  }

  lemma AccountStays(w: World, w': World, mark: Mark, i: nat)
    requires w'.log == w.log + [mark] && i < |w.log| && w.log[i].FetchedOk? && Accounted(w, i)
    requires InHand(w, w.log[i].page, i) ==> InHand(w', w.log[i].page, i)
    requires mark == Gone(w.log[i].page, i)
          || (w.log[i].page in w.pages && w.pages[w.log[i].page] == Copy(i, true) ==>
                w.log[i].page in w'.pages && w'.pages[w.log[i].page] == Copy(i, true))
    ensures Accounted(w', i)
  {
    var page := w.log[i].page;
    assert w'.log[i] == w.log[i];
    if GoneAfter(w.log, page, i, |w.log|) {
      GoneStays(w.log, mark, page, i, |w.log|);
      var m :| i < m < |w.log| && m < |w'.log| && w'.log[m] == Gone(page, i);
    } else if mark == Gone(page, i) {
      assert w'.log[|w.log|] == mark;
    }
  }

  lemma GoneKeepsThread(w: World, w': World, page: Str, t: nat)
    requires Inv(w) && page in w.pages && t in w.threads
    requires w'.log == w.log + [Gone(page, w.pages[page].source)]
    requires w'.calls == w.calls && w'.inflight == w.inflight && w'.threads == w.threads
    requires forall q :: q in w'.pages ==> q in w.pages && w'.pages[q].source == w.pages[q].source
    ensures ThreadOk(w', t)
  {
    var mark := Gone(page, w.pages[page].source);
    var p := w.threads[t];
    assert ThreadOk(w, t);
    if p.Fetching? { AllGoneStays(w.log, mark, p.page); }
    if p.Fetched? { LiveStays(w.log, mark, p.page, p.source, |w.log|); }
  }

  lemma GoneKeepsInv(w: World, e: Event)
    requires Inv(w) && Enabled(w, e) && (e.Expire? || e.Drop?)
    ensures Inv(Step(w, e))
  {
    var w' := Step(w, e);
    var mark := Gone(e.page, w.pages[e.page].source);
    assert CopyOk(w, e.page);
    MarkKeeps(w, w', mark);
    forall t | t in w'.threads ensures ThreadOk(w', t) { GoneKeepsThread(w, w', e.page, t); }
    forall q | q in w'.pages ensures CopyOk(w', q) {
      assert CopyOk(w, q);
      if w.pages[q].usable { LiveStays(w.log, mark, q, w.pages[q].source, |w.log|); }
    }
    forall i | 0 <= i < |w'.log| && w'.log[i].FetchedOk? ensures Accounted(w', i) {
      assert Accounted(w, i);
      assert InHand(w, w.log[i].page, i) ==> InHand(w', w.log[i].page, i);
      AccountStays(w, w', mark, i);
    }
  }

  /** The driver lists a page: nothing of it was left, and now it is in its leader's hands. */
  lemma ListsKeepsInv(w: World, e: Event)
    requires Inv(w) && Enabled(w, e) && e.DriverLists?
    ensures Inv(Step(w, e))
  {
    var w', p := Step(w, e), w.threads[e.t];
    var mark := FetchedOk(p.page);
    assert ThreadOk(w, e.t);
    LogGrows(w.log, mark);
    forall c | c in w'.calls ensures CallOk(w', c) { ListedCallOk(w, e, c); }
    forall r | r in w'.replies ensures ReplyOk(w', r) {
      assert ReplyOk(w, r);
      if r.call.None? { LiveStays(w.log, mark, r.page, r.source, r.seen); }
    }
    forall q | q in w'.pages ensures CopyOk(w', q) {
      assert CopyOk(w, q);
      if w.pages[q].usable { LiveStays(w.log, mark, q, w.pages[q].source, |w.log|); }
    }
    forall t | t in w'.threads ensures ThreadOk(w', t) { ListedThreadOk(w, e, t); }
    forall i | 0 <= i < |w'.log| && w'.log[i].FetchedOk? ensures Accounted(w', i) {
      if i < |w.log| {
        assert Accounted(w, i);
        if InHand(w, w.log[i].page, i) { HandKept(w, w', e.t, w.log[i].page, i); }
        AccountStays(w, w', mark, i);
      } else {
        assert w'.threads[e.t].Fetched? && w'.threads[e.t].source == i;
      }
    }
  }

  lemma NewListingLive(w: World, page: Str)
    requires Inv(w)
    ensures Live(w.log + [FetchedOk(page)], page, |w.log|, |w.log| + 1)
  {
  }

  lemma ListedCallOk(w: World, e: Event, c: nat)
    requires Inv(w) && Enabled(w, e) && e.DriverLists? && c in w.calls
    ensures c in Step(w, e).calls && CallOk(Step(w, e), c)
  {
    var p, k := w.threads[e.t], w.calls[c];
    var mark := FetchedOk(p.page);
    assert ThreadOk(w, e.t) && CallOk(w, c);
    if c == p.call {
      NewListingLive(w, p.page);
    } else if k.outcome.Page? {
      LiveStays(w.log, mark, k.page, k.outcome.source, k.outcome.seen);
    }
  }

  lemma ListedThreadOk(w: World, e: Event, t: nat)
    requires Inv(w) && Enabled(w, e) && e.DriverLists? && t in w.threads
    ensures t in Step(w, e).threads && ThreadOk(Step(w, e), t)
  {
    var p, q := w.threads[e.t], w.threads[t];
    var mark := FetchedOk(p.page);
    assert ThreadOk(w, e.t) && ThreadOk(w, t);
    if t == e.t {
      NewListingLive(w, p.page);
      if p.page in w.pages { assert CopyOk(w, p.page); }
    } else {
      OnlyHolder(w, e.t);
      if q.Fetching? { AllGoneStays(w.log, mark, q.page); }
      if q.Fetched? { LiveStays(w.log, mark, q.page, q.source, |w.log|); }
    }
  }

  lemma StepKeepsInv(w: World, e: Event)
    requires Inv(w) && Enabled(w, e)
    ensures Inv(Step(w, e))
  {
    match e {
      case Spawn(t) => MoveKeepsInv(w, t, Idle);
      case Hit(t, page) =>
        assert CopyOk(w, page);
        AddReply(w, Reply(page, w.pages[page].source, |w.log|, None));
      case Miss(t, page) =>
        SweepKeepsInv(w, page);
        MoveKeepsInv(w.(pages := w.pages - {page}), t, Missed(page));
      case LoadOrStore(t, call) =>
        if w.threads[t].page in w.inflight {
          MoveKeepsInv(w, t, Following(w.threads[t].page, w.inflight[w.threads[t].page]));
        } else {
          LeadKeepsInv(w, e);
        }
      case Recheck(t) => RecheckKeepsInv(w, e);
      case DriverFails(t) => EndKeepsInv(w, t, Failed);
      case DriverLists(_) => ListsKeepsInv(w, e);
      case Admit(_) => AdmitKeepsInv(w, e);
      case Unregister(_) => UnregisterKeepsInv(w, e);
      case FollowerReturns(t) =>
        ReturnKeepsInv(w, w.threads[t].call);
        MoveKeepsInv(Returned(w, w.threads[t].call), t, Idle);
      case FollowerCancelled(t) => MoveKeepsInv(w, t, Idle);
      case Expire(_) => GoneKeepsInv(w, e);
      case Drop(_) => GoneKeepsInv(w, e);
    }
  }

  lemma RecheckKeepsInv(w: World, e: Event)
    requires Inv(w) && Enabled(w, e) && e.Recheck?
    ensures Inv(Step(w, e))
  {
    var p := w.threads[e.t];
    assert ThreadOk(w, e.t);
    if FreshIn(w, p.page) {
      assert CopyOk(w, p.page) && CallOk(w, p.call);
      EndKeepsInv(w, e.t, Page(w.pages[p.page].source, |w.log|));
    } else {
      NothingLeft(w, e.t);
      MoveKeepsInv(w, e.t, Fetching(p.page, p.call));
    }
  }

  // ---------------------------------------------------------------- whole runs

  ghost predicate RunOk(w: World, es: seq<Event>)
    decreases |es|
  {
    es != [] ==> Enabled(w, es[0]) && RunOk(Step(w, es[0]), es[1..])
  }

  ghost function Run(w: World, es: seq<Event>): World
    requires RunOk(w, es)
    decreases |es|
  {
    if es == [] then w else Run(Step(w, es[0]), es[1..])
  }

  ghost function Start(): World {
    World(map[], map[], map[], map[], [], [])
  }

  lemma {:induction false} RunKeepsInv(w: World, es: seq<Event>)
    requires Inv(w) && RunOk(w, es)
    ensures Inv(Run(w, es))
    decreases |es|
  {
    if es != [] {
      StepKeepsInv(w, es[0]);
      RunKeepsInv(Step(w, es[0]), es[1..]);
    }
  }

  /** In every interleaving of listing goroutines, between two successful driver listings of a page
      the copy of the first expired or was evicted, invalidated or purged. */
  lemma PagesFetchedOnlyWhenGone(es: seq<Event>)
    requires RunOk(Start(), es)
    ensures NoFetchInVain(Run(Start(), es).log)
  {
    RunKeepsInv(Start(), es);
  }

  /** And every page a caller gets is one that the driver listed for that very query and that was
      still usable at some instant: the instant of the hit, or one since the call began through which
      it was returned. Everybody who returns through a call gets the same page. */
  lemma PagesServedAreLive(es: seq<Event>)
    requires RunOk(Start(), es)
    ensures
      var w := Run(Start(), es);
      && (forall r :: r in w.replies ==> Live(w.log, r.page, r.source, r.seen))
      && (forall r :: r in w.replies && r.call.Some? ==>
            r.call.value in w.calls && w.calls[r.call.value].page == r.page && w.calls[r.call.value].born <= r.seen)
      && (forall r, s :: r in w.replies && s in w.replies && r.call.Some? && r.call == s.call ==> r == s)
  {
    RunKeepsInv(Start(), es);
    var w := Run(Start(), es);
    forall r | r in w.replies
      ensures ReplyOk(w, r) && Live(w.log, r.page, r.source, r.seen)
      ensures r.call.Some? ==> w.calls[r.call.value].born <= r.seen
    {
      assert ReplyOk(w, r);
      if r.call.Some? { assert CallOk(w, r.call.value); }
    }
  }

  // ---------------------------------------------------------------- one goroutine, undisturbed

  lemma OneFirst(w: World, e: Event, es: seq<Event>)
    requires Enabled(w, e) && RunOk(Step(w, e), es)
    ensures RunOk(w, [e] + es) && Run(w, [e] + es) == Run(Step(w, e), es)
  {
    assert ([e] + es)[1..] == es;
  }

  /** A goroutine that finds a page missing, and nobody listing it, has the driver list it. */
  lemma MissLists(w: World, t: nat, call: nat, page: Str)
    requires t in w.threads && w.threads[t].Idle? && page !in w.inflight && call !in w.calls && !FreshIn(w, page)
    ensures
      var es := [Miss(t, page)] + ([LoadOrStore(t, call)] + ([Recheck(t)] + ([DriverLists(t)] + [])));
      && RunOk(w, es)
      && var w' := Run(w, es);
         && w'.log == w.log + [FetchedOk(page)] && w'.replies == w.replies
         && t in w'.threads && w'.threads[t] == Fetched(page, call, |w.log|)
         && call in w'.calls && w'.calls[call] == Call(page, t, |w.log|, Page(|w.log|, |w.log| + 1), false)
  {
    var w1 := Step(w, Miss(t, page));
    var w2 := Step(w1, LoadOrStore(t, call));
    var w3 := Step(w2, Recheck(t));
    OneFirst(w3, DriverLists(t), []);
    OneFirst(w2, Recheck(t), [DriverLists(t)] + []);
    OneFirst(w1, LoadOrStore(t, call), [Recheck(t)] + ([DriverLists(t)] + []));
    OneFirst(w, Miss(t, page), [LoadOrStore(t, call)] + ([Recheck(t)] + ([DriverLists(t)] + [])));
  }

  /** A goroutine with a listing in its hands keeps it and returns it, and the next one to ask hits it. */
  lemma ListedIsServed(w: World, t: nat)
    requires t in w.threads && w.threads[t].Fetched? && w.threads[t].call in w.calls
    requires
      var p := w.threads[t];
      w.calls[p.call].page == p.page && w.calls[p.call].outcome.Page? && w.calls[p.call].outcome.source == p.source
    ensures
      var p := w.threads[t];
      var es := [Admit(t)] + ([Unregister(t)] + ([Hit(t, p.page)] + []));
      && RunOk(w, es)
      && Run(w, es).log == w.log
      && Run(w, es).replies == w.replies + [Reply(p.page, p.source, w.calls[p.call].outcome.seen, Some(p.call)),
                                            Reply(p.page, p.source, |w.log|, None)]
  {
    var p := w.threads[t];
    var w1 := Step(w, Admit(t));
    var w2 := Step(w1, Unregister(t));
    OneFirst(w2, Hit(t, p.page), []);
    OneFirst(w1, Unregister(t), [Hit(t, p.page)] + []);
    OneFirst(w, Admit(t), [Unregister(t)] + ([Hit(t, p.page)] + []));
  }
}
