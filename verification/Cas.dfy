/** Optimistic concurrency over whole runs of conditional writes. */
module Cas {
  import opened Base
  import opened Storage

  datatype Request =
    | PutReq(key: Str, value: seq<byte>, expected: Str, stamp: Stamp)
    | DeleteReq(key: Str, expected: Str)

  /** A write that succeeded: the tag it named, the tag it replaced, the tag it left behind. */
  datatype Win = Win(key: Str, expected: Str, replaced: Option<Str>, made: Option<Str>)

  /** A store, the tags ever issued, and the successful writes so far, oldest first. */
  datatype State = State(store: Store, issued: set<Str>, wins: seq<Win>)

  function TagOf(store: Store, key: Str): Option<Str> {
    if key in store then Some(store[key].etag) else None
  }

  predicate Accepted(store: Store, r: Request) {
    match r
    case PutReq(key, _, expected, _) => PutRefusal(store, key, expected) == None
    case DeleteReq(key, expected) => DeleteRefusal(store, key, expected) == None
  }

  function Next(s: State, r: Request): State {
    if !Accepted(s.store, r) then s
    else
      match r
      case PutReq(key, value, expected, stamp) =>
        State(Written(s.store, key, value, stamp), s.issued + {stamp.etag},
              s.wins + [Win(key, expected, TagOf(s.store, key), Some(stamp.etag))])
      case DeleteReq(key, expected) =>
        State(s.store - {key}, s.issued, s.wins + [Win(key, expected, TagOf(s.store, key), None)])
  }

  function Run(s: State, rs: seq<Request>): State
    decreases |rs|
  {
    if rs == [] then s else Run(Next(s, rs[0]), rs[1..])
  }

  /** Every accepted put gets a tag never issued before. */
  ghost predicate FreshRun(s: State, rs: seq<Request>)
    decreases |rs|
  {
    rs != [] ==>
      && (rs[0].PutReq? && Accepted(s.store, rs[0]) ==>
            rs[0].stamp.etag !in s.issued && RealTag(rs[0].stamp.etag))
      && FreshRun(Next(s, rs[0]), rs[1..])
  }

  function Begin(store: Store): State {
    State(store, set k | k in store :: store[k].etag, [])
  }

  /** The tag left by the last win on a key, or the one the run started with. */
  function LastMade(start: Store, wins: seq<Win>, key: Str): Option<Str> {
    if wins == [] then TagOf(start, key)
    else if wins[|wins| - 1].key == key then wins[|wins| - 1].made
    else LastMade(start, wins[..|wins| - 1], key)
  }

  /** The wins on each key form a chain: each replaced what the previous win on that key left, and
      a conditional write names exactly what it replaced. */
  ghost predicate Chain(start: Store, wins: seq<Win>) {
    forall i :: 0 <= i < |wins| ==>
      && wins[i].replaced == LastMade(start, wins[..i], wins[i].key)
      && (RealTag(wins[i].expected) ==> wins[i].replaced == Some(wins[i].expected))
      && (wins[i].expected == ANY_ETAG && wins[i].made.Some? ==> wins[i].replaced == None)
  }

  ghost predicate OneWinnerPerTag(wins: seq<Win>) {
    forall i, j :: 0 <= i < j < |wins| && wins[i].key == wins[j].key && RealTag(wins[i].expected)
      ==> wins[i].expected != wins[j].expected
  }

  /** A tag that was replaced is spent: it was issued, and is no longer current on its key. */
  ghost predicate TagsSpent(s: State) {
    forall i :: 0 <= i < |s.wins| && RealTag(s.wins[i].expected) ==>
      && s.wins[i].expected in s.issued
      && TagOf(s.store, s.wins[i].key) != Some(s.wins[i].expected)
  }

  ghost predicate CurrentIsLastMade(start: Store, s: State) {
    && (forall k :: k in s.store ==> s.store[k].etag in s.issued)
    && (forall k :: TagOf(s.store, k) == LastMade(start, s.wins, k))
  }

  ghost predicate Inv(start: Store, s: State) {
    && Chain(start, s.wins)
    && OneWinnerPerTag(s.wins)
    && CurrentIsLastMade(start, s)
    && TagsSpent(s)
  }

  lemma ChainExtends(start: Store, wins: seq<Win>, w: Win)
    requires Chain(start, wins)
    requires w.replaced == LastMade(start, wins, w.key)
    requires RealTag(w.expected) ==> w.replaced == Some(w.expected)
    requires w.expected == ANY_ETAG && w.made.Some? ==> w.replaced == None
    ensures Chain(start, wins + [w])
  {
    var wins' := wins + [w];
    assert wins'[..|wins|] == wins;
    assert forall i :: 0 <= i < |wins| ==> wins'[i] == wins[i] && wins'[..i] == wins[..i];
  }

  lemma CurrentExtends(start: Store, s: State, r: Request)
    requires CurrentIsLastMade(start, s) && Accepted(s.store, r)
    ensures CurrentIsLastMade(start, Next(s, r))
  {
    var s' := Next(s, r);
    assert s'.wins[..|s.wins|] == s.wins;
    forall k ensures TagOf(s'.store, k) == LastMade(start, s'.wins, k) {
      assert TagOf(s.store, k) == LastMade(start, s.wins, k);
    }
  }

  lemma NextKeepsInv(start: Store, s: State, r: Request)
    requires Inv(start, s)
    requires r.PutReq? && Accepted(s.store, r) ==> r.stamp.etag !in s.issued && RealTag(r.stamp.etag)
    ensures Inv(start, Next(s, r))
  {
    if Accepted(s.store, r) {
      var s' := Next(s, r);
      var w := s'.wins[|s.wins|];
      assert s'.wins == s.wins + [w];
      assert TagOf(s.store, r.key) == LastMade(start, s.wins, r.key);
      ChainExtends(start, s.wins, w);
      CurrentExtends(start, s, r);
      assert OneWinnerPerTag(s'.wins);
      assert TagsSpent(s');
    }
  }

  lemma {:induction false} RunKeepsInv(start: Store, s: State, rs: seq<Request>)
    requires Inv(start, s) && FreshRun(s, rs)
    ensures Inv(start, Run(s, rs))
    decreases |rs|
  {
    if rs != [] {
      NextKeepsInv(start, s, rs[0]);
      RunKeepsInv(start, Next(s, rs[0]), rs[1..]);
    }
  }

  /** In every run with fresh tags the wins chain, and each tag is won at most once per key. */
  lemma WinsFormChain(start: Store, rs: seq<Request>)
    requires FreshRun(Begin(start), rs)
    ensures Chain(start, Run(Begin(start), rs).wins)
    ensures OneWinnerPerTag(Run(Begin(start), rs).wins)
  {
    RunKeepsInv(start, Begin(start), rs);
  }

  lemma {:induction false} RunAppend(s: State, a: seq<Request>, b: seq<Request>)
    ensures Run(s, a + b) == Run(Run(s, a), b)
    ensures FreshRun(s, a + b) ==> FreshRun(s, a) && FreshRun(Run(s, a), b)
    decreases |a|
  {
    if a == [] {
      assert a + b == b;
    } else {
      assert (a + b)[1..] == a[1..] + b;
      RunAppend(Next(s, a[0]), a[1..], b);
    }
  }

  /** A run that attempts `put`, lets others do anything, then attempts `again`. */
  function Retried(put: Request, between: seq<Request>, again: Request): seq<Request> {
    [put] + between + [again]
  }

  lemma {:induction false} WinsGrow(s: State, rs: seq<Request>)
    ensures s.wins <= Run(s, rs).wins
    decreases |rs|
  {
    if rs != [] { WinsGrow(Next(s, rs[0]), rs[1..]); }
  }

  /** A put naming a real tag, sent twice by the transport's retry with any other traffic between
      the two deliveries, changes the store at most once. */
  lemma RetriedPutAppliesOnce(s: State, start: Store, put: Request, between: seq<Request>, again: Request)
    requires Inv(start, s) && FreshRun(s, Retried(put, between, again))
    requires put.PutReq? && again.PutReq? && put.key == again.key
    requires put.expected == again.expected && RealTag(put.expected)
    ensures !(Accepted(s.store, put) && Accepted(Run(s, [put] + between).store, again))
  {
    var first := Next(s, put);
    assert ([put] + between)[1..] == between;
    RunAppend(s, [put] + between, [again]);
    var mid := Run(first, between);
    RunKeepsInv(start, s, [put] + between);
    WinsGrow(first, between);
    if Accepted(s.store, put) {
      var w := first.wins[|s.wins|];
      assert mid.wins[|s.wins|] == w && w.expected == put.expected;
    }
  }

  /** A create-only put has no such guarantee: its retry applies again exactly when the last win on
      the key in between was a delete. */
  lemma RetriedCreateAppliesTwiceIff(s: State, start: Store, put: Request, between: seq<Request>, again: Request)
    requires Inv(start, s) && FreshRun(s, Retried(put, between, again))
    requires put.PutReq? && again.PutReq? && put.key == again.key
    requires put.expected == again.expected == ANY_ETAG
    requires Accepted(s.store, put)
    ensures Accepted(Run(s, [put] + between).store, again)
            <==> LastMade(start, Run(s, [put] + between).wins, put.key) == None
  {
    RunAppend(s, [put] + between, [again]);
    RunKeepsInv(start, s, [put] + between);
    var mid := Run(s, [put] + between);
    assert TagOf(mid.store, put.key) == LastMade(start, mid.wins, put.key);
  }

  /** Create, a concurrent delete, and the retried create: the document comes back. */
  lemma RetriedCreateResurrects(k: Str, v: seq<byte>, t1: Stamp, t2: Stamp)
    ensures
      var put, again := PutReq(k, v, ANY_ETAG, t1), PutReq(k, v, ANY_ETAG, t2);
      var end := Run(Begin(map[]), Retried(put, [DeleteReq(k, NO_ETAG)], again));
      |end.wins| == 3 && k in end.store
  {
    var put, again := PutReq(k, v, ANY_ETAG, t1), PutReq(k, v, ANY_ETAG, t2);
    var rs := Retried(put, [DeleteReq(k, NO_ETAG)], again);
    assert rs == [put, DeleteReq(k, NO_ETAG), again];
    var s1 := Next(Begin(map[]), put);
    var s2 := Next(s1, DeleteReq(k, NO_ETAG));
    assert rs[1..] == [DeleteReq(k, NO_ETAG), again] && rs[1..][1..] == [again];
    assert Run(s2, [again]) == Run(Next(s2, again), []);
  }
}
