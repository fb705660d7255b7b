/** Request/response exchange over pooled mesh connections, byte by byte, with failures anywhere. */
module Exchange {
  import opened Base
  import opened Framing
  import opened Responses

  datatype Served = Served(req: Request, resp: Response)

  /** A connection: bytes under way in each direction, whether the server end is gone, and what the
      server's handler loop has answered on it, oldest first. */
  datatype Conn = Conn(toServer: seq<byte>, toClient: seq<byte>, dead: bool, served: seq<Served>)

  /** A round trip under way. `base` is how many answers its connection had seen when it was taken. */
  datatype Call = Call(req: Request, conn: nat, base: nat, sent: bool)

  /** A round trip that returned a response to its caller. */
  datatype Done = Done(req: Request, resp: Response, conn: nat, index: nat)

  datatype Mesh = Mesh(poolSize: nat, closed: bool, conns: map<nat, Conn>, idle: set<nat>,
                       calls: map<nat, Call>, done: seq<Done>)

  datatype Event =
    | Warm(conn: nat)
    | Dial(call: nat, conn: nat, req: Request)
    | Take(call: nat, conn: nat, req: Request)
    | Send(call: nat)
    | SendFails(call: nat, written: nat)
    | Serve(conn: nat, req: Request, rest: seq<byte>, resp: Response)
    | ServeFails(conn: nat, req: Request, rest: seq<byte>, resp: Response, written: nat)
    | ServerCloses(conn: nat)
    | Receive(call: nat, arrived: nat, wire: Wire, rest: seq<byte>)
    | GiveUp(call: nat)
    | ClosePool

  ghost predicate Enabled(m: Mesh, e: Event) {
    match e
    // the pool may close between the warm-up's check and its insertion
    case Warm(conn) => conn !in m.conns && |m.idle| < m.poolSize
    case Dial(call, conn, req) => !m.closed && call !in m.calls && conn !in m.conns
    case Take(call, conn, req) => !m.closed && call !in m.calls && conn in m.idle && conn in m.conns
    case Send(call) =>
      && call in m.calls && !m.calls[call].sent && m.calls[call].conn in m.conns
      && RequestFits(m.calls[call].req)
    case SendFails(call, written) =>
      && call in m.calls && !m.calls[call].sent && m.calls[call].conn in m.conns
      && written <= |RequestFrame(m.calls[call].req)|
      && (!RequestFits(m.calls[call].req) ==> written == 0)
    case Serve(conn, req, rest, resp) =>
      && conn in m.conns && !m.conns[conn].dead
      && RequestFits(req) && m.conns[conn].toServer == RequestFrame(req) + rest
    case ServeFails(conn, req, rest, resp, written) =>
      && conn in m.conns && !m.conns[conn].dead
      && RequestFits(req) && m.conns[conn].toServer == RequestFrame(req) + rest
      && written <= |WireBytes(WireOf(resp))|
    case ServerCloses(conn) => conn in m.conns
    case Receive(call, arrived, wire, rest) =>
      && call in m.calls && m.calls[call].sent && m.calls[call].conn in m.conns
      && arrived <= |m.conns[m.calls[call].conn].toClient|
      && WireOk(wire)
      && m.conns[m.calls[call].conn].toClient[..arrived] == WireBytes(wire) + rest
    case GiveUp(call) => call in m.calls
    case ClosePool => true
  }

  ghost function Step(m: Mesh, e: Event): Mesh
    requires Enabled(m, e)
  {
    match e
    case Warm(conn) => m.(conns := m.conns[conn := Conn([], [], false, [])], idle := m.idle + {conn})
    case Dial(call, conn, req) =>
      m.(conns := m.conns[conn := Conn([], [], false, [])], calls := m.calls[call := Call(req, conn, 0, false)])
    case Take(call, conn, req) =>
      m.(idle := m.idle - {conn}, calls := m.calls[call := Call(req, conn, |m.conns[conn].served|, false)])
    case Send(call) =>
      var c := m.calls[call];
      var k := m.conns[c.conn];
      m.(conns := m.conns[c.conn := k.(toServer := k.toServer + RequestFrame(c.req))],
         calls := m.calls[call := c.(sent := true)])
    case SendFails(call, written) =>
      var c := m.calls[call];
      var k := m.conns[c.conn];
      m.(conns := m.conns[c.conn := k.(toServer := k.toServer + RequestFrame(c.req)[..written])],
         calls := m.calls - {call})
    case Serve(conn, req, rest, resp) =>
      var k := m.conns[conn];
      m.(conns := m.conns[conn := Conn(rest, k.toClient + WireBytes(WireOf(resp)), false,
                                       k.served + [Served(req, resp)])])
    case ServeFails(conn, req, rest, resp, written) =>
      var k := m.conns[conn];
      m.(conns := m.conns[conn := Conn(rest, k.toClient + WireBytes(WireOf(resp))[..written], true,
                                       k.served + [Served(req, resp)])])
    case ServerCloses(conn) => m.(conns := m.conns[conn := m.conns[conn].(dead := true)])
    case Receive(call, arrived, wire, rest) =>
      var c := m.calls[call];
      var k := m.conns[c.conn];
      // PutConn: back to the pool if it is open and has room, closed otherwise
      m.(conns := m.conns[c.conn := k.(toClient := rest + k.toClient[arrived..])],
         idle := if !m.closed && |m.idle| < m.poolSize then m.idle + {c.conn} else m.idle,
         calls := m.calls - {call},
         done := m.done + [Done(c.req, Meaning(wire), c.conn, c.base)])
    case GiveUp(call) => m.(calls := m.calls - {call})   // DropConn
    case ClosePool => m.(closed := true, idle := {})
  }

  // ---------------------------------------------------------------- the invariant

  ghost predicate Clean(k: Conn) {
    k.toServer == [] && k.toClient == []
  }

  /** The server's answers on a connection, up to the n-th, fit their length prefixes. */
  ghost predicate Sound(k: Conn, n: nat) {
    forall i :: 0 <= i < n && i < |k.served| ==> ResponseFits(k.served[i].resp)
  }

  /** The request is still on its way, or it was answered once and (some prefix of, if the server
      died writing) the answer is on its way back. */
  ghost predicate Waiting(k: Conn, c: Call) {
    || (k.toServer == RequestFrame(c.req) && k.toClient == [] && |k.served| == c.base)
    || (&& k.toServer == [] && |k.served| == c.base + 1 && k.served[c.base].req == c.req
        && k.toClient <= WireBytes(WireOf(k.served[c.base].resp)))
  }

  /** Nothing is claimed of a call that took its connection after an answer that did not fit. */
  ghost predicate CallOk(m: Mesh, call: nat)
    requires call in m.calls
  {
    var c := m.calls[call];
    && c.conn in m.conns && c.conn !in m.idle
    && c.base <= |m.conns[c.conn].served| && (c.sent ==> RequestFits(c.req))
    && (Sound(m.conns[c.conn], c.base) ==>
          if c.sent then Waiting(m.conns[c.conn], c)
          else Clean(m.conns[c.conn]) && |m.conns[c.conn].served| == c.base)
  }

  /** The response is the server's answer to the request it was returned for. */
  ghost predicate Answers(m: Mesh, d: Done) {
    d.conn in m.conns && d.index < |m.conns[d.conn].served|
    && m.conns[d.conn].served[d.index] == Served(d.req, d.resp)
  }

  ghost predicate DoneOk(m: Mesh, d: Done) {
    d.conn in m.conns && (Sound(m.conns[d.conn], d.index + 1) ==> Answers(m, d))
  }

  ghost predicate IdleOk(m: Mesh, k: nat) {
    k in m.conns && (Sound(m.conns[k], |m.conns[k].served|) ==> Clean(m.conns[k]))
  }

  ghost predicate Inv(m: Mesh) {
    && (forall k :: k in m.idle ==> IdleOk(m, k))
    && (forall c :: c in m.calls ==> CallOk(m, c))
    && (forall c, c' :: c in m.calls && c' in m.calls && c != c' ==> m.calls[c].conn != m.calls[c'].conn)
    && (forall d :: d in m.done ==> DoneOk(m, d))
    && |m.idle| <= m.poolSize
  }

  lemma NothingToRead(d: seq<byte>, req: Request, rest: seq<byte>)
    requires d == RequestFrame(req) + rest
    ensures d != []
  {
  }

  /** Reading from a prefix of one answer's bytes succeeds only on the whole answer, exactly. */
  lemma OnlyTheAnswer(got: seq<byte>, sent: Response, arrived: nat, wire: Wire, rest: seq<byte>)
    requires ResponseFits(sent) && got <= WireBytes(WireOf(sent))
    requires WireOk(wire) && arrived <= |got| && got[..arrived] == WireBytes(wire) + rest
    ensures Meaning(wire) == sent && rest + got[arrived..] == []
  {
    var f := WireBytes(WireOf(sent));
    assert f[..arrived] == got[..arrived];
    Rejoin(f, arrived, WireBytes(wire), rest);
    WireUnique(WireOf(sent), [], wire, rest + f[arrived..]);
    assert rest == [] && arrived == |f|;
  }

  /** What a server step may do to a connection someone is waiting on: answer that request, once. */
  lemma ServeAnswersCaller(k: Conn, c: Call, req: Request, rest: seq<byte>)
    requires RequestFits(c.req) && RequestFits(req)
    requires Waiting(k, c) && k.toServer == RequestFrame(req) + rest
    ensures req == c.req && rest == [] && k.toClient == [] && |k.served| == c.base
  {
    NothingToRead(k.toServer, req, rest);
    assert RequestFrame(c.req) + [] == RequestFrame(c.req);
    RequestFrameUnique(c.req, [], req, rest);
  }

  lemma ServeKeepsInv(m: Mesh, conn: nat, req: Request, rest: seq<byte>, resp: Response, written: nat, dead: bool)
    requires Inv(m) && conn in m.conns
    requires RequestFits(req) && m.conns[conn].toServer == RequestFrame(req) + rest
    requires written <= |WireBytes(WireOf(resp))|
    ensures
      var k := m.conns[conn];
      Inv(m.(conns := m.conns[conn := Conn(rest, k.toClient + WireBytes(WireOf(resp))[..written], dead,
                                           k.served + [Served(req, resp)])]))
  {
    var k := m.conns[conn];
    var f := WireBytes(WireOf(resp))[..written];
    var k' := Conn(rest, k.toClient + f, dead, k.served + [Served(req, resp)]);
    var m' := m.(conns := m.conns[conn := k']);
    NothingToRead(k.toServer, req, rest);
    forall n: nat | Sound(k', n) ensures Sound(k, n) { SoundShrinks(k, k', n); }
    assert Sound(k', |k'.served|) ==> Sound(k', |k.served|);
    forall c | c in m'.calls ensures CallOk(m', c) {
      assert CallOk(m, c);
      if m.calls[c].conn == conn && Sound(k, m.calls[c].base) {
        ServeAnswersCaller(k, m.calls[c], req, rest);
        assert k.toClient + f == f;
      }
    }
    forall x | x in m'.idle ensures IdleOk(m', x) {
      assert IdleOk(m, x);
    }
    forall d | d in m'.done ensures DoneOk(m', d) {
      assert DoneOk(m, d);
    }
  }

  lemma SoundShrinks(k: Conn, k': Conn, n: nat)
    requires k.served <= k'.served && Sound(k', n)
    ensures Sound(k, n)
  {
    forall i | 0 <= i < n && i < |k.served| ensures ResponseFits(k.served[i].resp) {
      assert k.served[i] == k'.served[i];
    }
  }

  /** A completed read hands the caller the answer to its own request and empties the connection. */
  lemma ReceiveDelivers(m: Mesh, e: Event)
    requires Inv(m) && Enabled(m, e) && e.Receive?
    requires Sound(m.conns[m.calls[e.call].conn], m.calls[e.call].base + 1)
    ensures
      var c := m.calls[e.call];
      var k := m.conns[c.conn];
      && c.base < |k.served| && k.served[c.base] == Served(c.req, Meaning(e.wire))
      && k.toServer == [] && e.rest + k.toClient[e.arrived..] == []
  {
    var c := m.calls[e.call];
    var k := m.conns[c.conn];
    assert CallOk(m, e.call);
    WireNonEmpty(e.wire);
    assert k.toClient != [];
    OnlyTheAnswer(k.toClient, k.served[c.base].resp, e.arrived, e.wire, e.rest);
  }

  lemma WireNonEmpty(w: Wire)
    ensures |WireBytes(w)| >= 3
  {
  }

  /** What a completed read leaves: a delivered answer and an empty connection, unless some answer on
      it did not fit. */
  lemma ReceiveLeaves(m: Mesh, e: Event)
    requires Inv(m) && Enabled(m, e) && e.Receive?
    ensures
      var c := m.calls[e.call];
      var m' := Step(m, e);
      && m'.conns[c.conn].served == m.conns[c.conn].served
      && IdleOk(m', c.conn) && DoneOk(m', Done(c.req, Meaning(e.wire), c.conn, c.base))
  {
    var c := m.calls[e.call];
    var k := m.conns[c.conn];
    assert CallOk(m, e.call);
    if Sound(k, c.base + 1) {
      ReceiveDelivers(m, e);
    }
    assert Sound(k, |k.served|) ==> Sound(k, c.base + 1);
  }

  lemma ReceiveKeepsInv(m: Mesh, e: Event)
    requires Inv(m) && Enabled(m, e) && e.Receive?
    ensures Inv(Step(m, e))
  {
    ReceiveLeaves(m, e);
    var m' := Step(m, e);
    forall x | x in m'.calls ensures CallOk(m', x) {
      assert CallOk(m, x);
    }
    forall x | x in m'.idle ensures IdleOk(m', x) {
      if x in m.idle { assert IdleOk(m, x); }
    }
    forall d | d in m'.done ensures DoneOk(m', d) {
      if d in m.done { assert DoneOk(m, d); }
    }
  }

  /** Steps that leave all connections but one alone, and that one's answers. */
  lemma RestKeepsInv(m: Mesh, m': Mesh, own: nat)
    requires Inv(m) && m'.done == m.done && m'.idle <= m.idle && m'.poolSize == m.poolSize
    requires m'.calls.Keys <= m.calls.Keys && m'.conns.Keys == m.conns.Keys
    requires forall c :: c in m'.calls ==> m'.calls[c].conn == m.calls[c].conn
    requires forall c :: c in m'.calls && c != own ==> m'.calls[c] == m.calls[c]
    requires forall k :: k in m.conns ==> m'.conns[k].served == m.conns[k].served
    requires forall k :: k in m.conns && !(own in m.calls && m.calls[own].conn == k) ==>
      m'.conns[k].toServer == m.conns[k].toServer && m'.conns[k].toClient == m.conns[k].toClient
    requires own in m'.calls ==> CallOk(m', own)
    ensures Inv(m')
  {
    forall c | c in m'.calls ensures CallOk(m', c) {
      if c != own { assert CallOk(m, c); }
    }
    forall k | k in m'.idle ensures IdleOk(m', k) {
      assert IdleOk(m, k);
      if own in m.calls { assert CallOk(m, own); }
    }
    forall d | d in m'.done ensures DoneOk(m', d) { assert DoneOk(m, d); }
    SubsetSize(m'.idle, m.idle);
  }

  lemma SendKeepsInv(m: Mesh, e: Event)
    requires Inv(m) && Enabled(m, e) && (e.Send? || e.SendFails?)
    ensures Inv(Step(m, e))
  {
    var m' := Step(m, e);
    assert CallOk(m, e.call);
    if e.Send? {
      var c := m.calls[e.call];
      assert [] + RequestFrame(c.req) == RequestFrame(c.req);
      assert Sound(m'.conns[c.conn], c.base) ==> Sound(m.conns[c.conn], c.base);
      assert CallOk(m', e.call);
    }
    RestKeepsInv(m, m', e.call);
  }

  lemma TakeKeepsInv(m: Mesh, e: Event)
    requires Inv(m) && Enabled(m, e) && (e.Dial? || e.Take? || e.Warm?)
    ensures Inv(Step(m, e))
  {
    var m' := Step(m, e);
    forall d | d in m'.done ensures DoneOk(m', d) { assert DoneOk(m, d); }
    forall k | k in m'.idle ensures IdleOk(m', k) {
      if k in m.idle { assert IdleOk(m, k); }
    }
    forall c | c in m'.calls ensures CallOk(m', c) {
      if c in m.calls { assert CallOk(m, c); }
      if e.Take? { assert IdleOk(m, e.conn); }
    }
  }

  lemma ShutKeepsInv(m: Mesh, e: Event)
    requires Inv(m) && Enabled(m, e) && (e.ServerCloses? || e.GiveUp? || e.ClosePool?)
    ensures Inv(Step(m, e))
  {
    var m' := Step(m, e);
    if e.ServerCloses? {
      forall c | c in m'.calls ensures CallOk(m', c) { assert CallOk(m, c); }
      forall k | k in m'.idle ensures IdleOk(m', k) { assert IdleOk(m, k); }
      forall d | d in m'.done ensures DoneOk(m', d) { assert DoneOk(m, d); }
    } else if e.GiveUp? {
      RestKeepsInv(m, m', e.call);
    } else {
      forall c | c in m'.calls ensures CallOk(m', c) { assert CallOk(m, c); }
      forall d | d in m'.done ensures DoneOk(m', d) { assert DoneOk(m, d); }
    }
  }

  lemma StepKeepsInv(m: Mesh, e: Event)
    requires Inv(m) && Enabled(m, e)
    ensures Inv(Step(m, e))
  {
    match e {
      case Serve(conn, req, rest, resp) =>
        var f := WireBytes(WireOf(resp));
        assert f[..|f|] == f;
        ServeKeepsInv(m, conn, req, rest, resp, |f|, false);
      case ServeFails(conn, req, rest, resp, written) =>
        ServeKeepsInv(m, conn, req, rest, resp, written, true);
      case Receive(_, _, _, _) => ReceiveKeepsInv(m, e);
      case Send(_) => SendKeepsInv(m, e);
      case SendFails(_, _) => SendKeepsInv(m, e);
      case Warm(_) => TakeKeepsInv(m, e);
      case Dial(_, _, _) => TakeKeepsInv(m, e);
      case Take(_, _, _) => TakeKeepsInv(m, e);
      case _ => ShutKeepsInv(m, e);
    }
  }

  // ---------------------------------------------------------------- no answer goes to two callers

  /** Each connection's answers are handed out in order, up to one that does not fit. */
  ghost predicate HandedOut(done: seq<Done>, calls: map<nat, Call>, conns: map<nat, Conn>) {
    && (forall i, j :: (0 <= i < j < |done| && done[i].conn == done[j].conn && done[j].conn in conns
                        && Sound(conns[done[j].conn], done[j].index + 1)) ==> done[i].index < done[j].index)
    && (forall d, c :: (d in done && c in calls && d.conn == calls[c].conn && d.conn in conns
                        && Sound(conns[d.conn], calls[c].base)) ==> d.index < calls[c].base)
  }

  ghost predicate InOrder(m: Mesh) {
    HandedOut(m.done, m.calls, m.conns)
  }

  lemma ConnsGrow(done: seq<Done>, calls: map<nat, Call>, conns: map<nat, Conn>, conns': map<nat, Conn>)
    requires HandedOut(done, calls, conns)
    requires forall d :: d in done ==> d.conn in conns
    requires forall k :: k in conns ==> k in conns' && conns[k].served <= conns'[k].served
    ensures HandedOut(done, calls, conns')
  {
    forall k, n: nat | k in conns && Sound(conns'[k], n) ensures Sound(conns[k], n) {
      SoundShrinks(conns[k], conns'[k], n);
    }
  }

  lemma OneMore(done: seq<Done>, calls: map<nat, Call>, conns: map<nat, Conn>, call: nat, d: Done)
    requires HandedOut(done, calls, conns) && call in calls
    requires d.conn == calls[call].conn && d.index == calls[call].base
    requires forall c :: c in calls && c != call ==> calls[c].conn != calls[call].conn
    ensures HandedOut(done + [d], calls - {call}, conns)
  {
    assert d.conn in conns && Sound(conns[d.conn], d.index + 1) ==> Sound(conns[d.conn], d.index);
  }

  lemma Newcomer(done: seq<Done>, calls: map<nat, Call>, conns: map<nat, Conn>, call: nat, c: Call)
    requires HandedOut(done, calls, conns)
    requires forall d :: d in done && d.conn == c.conn && d.conn in conns && Sound(conns[d.conn], c.base) ==> d.index < c.base
    ensures HandedOut(done, calls[call := c], conns)
  {
  }

  lemma DoneBelowServed(m: Mesh)
    requires Inv(m)
    ensures forall d :: d in m.done ==>
      && d.conn in m.conns
      && (Sound(m.conns[d.conn], |m.conns[d.conn].served|) ==> d.index < |m.conns[d.conn].served|)
  {
    forall d | d in m.done && d.conn in m.conns && Sound(m.conns[d.conn], |m.conns[d.conn].served|)
      ensures d.index < |m.conns[d.conn].served|
    {
      assert DoneOk(m, d) && Sound(m.conns[d.conn], d.index + 1);
    }
    forall d | d in m.done ensures d.conn in m.conns { assert DoneOk(m, d); }
  }

  lemma ServedGrows(m: Mesh, e: Event)
    requires Enabled(m, e)
    ensures forall k :: k in m.conns ==> k in Step(m, e).conns && m.conns[k].served <= Step(m, e).conns[k].served
  {
  }

  lemma NewcomerBelow(m: Mesh, e: Event)
    requires Inv(m) && Enabled(m, e) && InOrder(m) && (e.Dial? || e.Take? || e.Send?)
    ensures
      var m' := Step(m, e);
      var c := m'.calls[e.call];
      forall d :: d in m.done && d.conn == c.conn && d.conn in m'.conns && Sound(m'.conns[d.conn], c.base) ==> d.index < c.base
  {
    DoneBelowServed(m);
    if e.Send? { assert CallOk(m, e.call); }
  }

  lemma FewerCalls(done: seq<Done>, calls: map<nat, Call>, conns: map<nat, Conn>, calls': map<nat, Call>)
    requires HandedOut(done, calls, conns) && forall c :: c in calls' ==> c in calls && calls'[c] == calls[c]
    ensures HandedOut(done, calls', conns)
  {
  }

  lemma StepKeepsOrder(m: Mesh, e: Event)
    requires Inv(m) && Enabled(m, e) && InOrder(m)
    ensures InOrder(Step(m, e))
  {
    var m' := Step(m, e);
    DoneBelowServed(m);
    ServedGrows(m, e);
    ConnsGrow(m.done, m.calls, m.conns, m'.conns);
    if e.Receive? {
      OneMore(m.done, m.calls, m'.conns, e.call, m'.done[|m.done|]);
    } else if e.Dial? || e.Take? || e.Send? {
      NewcomerBelow(m, e);
      Newcomer(m.done, m.calls, m'.conns, e.call, m'.calls[e.call]);
    } else {
      FewerCalls(m.done, m.calls, m'.conns, m'.calls);
    }
  }

  // ---------------------------------------------------------------- whole runs

  ghost predicate RunOk(m: Mesh, es: seq<Event>)
    decreases |es|
  {
    es != [] ==> Enabled(m, es[0]) && RunOk(Step(m, es[0]), es[1..])
  }

  ghost function Run(m: Mesh, es: seq<Event>): Mesh
    requires RunOk(m, es)
    decreases |es|
  {
    if es == [] then m else Run(Step(m, es[0]), es[1..])
  }

  ghost function Fresh(poolSize: nat): Mesh {
    Mesh(poolSize, false, map[], {}, map[], [])
  }

  lemma {:induction false} RunKeepsInv(m: Mesh, es: seq<Event>)
    requires Inv(m) && InOrder(m) && RunOk(m, es)
    ensures Inv(Run(m, es)) && InOrder(Run(m, es)) && Run(m, es).poolSize == m.poolSize
    decreases |es|
  {
    if es != [] {
      StepKeepsInv(m, es[0]);
      StepKeepsOrder(m, es[0]);
      RunKeepsInv(Step(m, es[0]), es[1..]);
    }
  }

  /** Over any run, whatever the servers answer: up to the first answer on a connection that does not
      fit its length prefix, every response a caller got is what the server answered to the request
      that caller sent and no answer went to two callers; and a pooled connection that carried no
      such answer has not a byte left in it. One server's long answer harms no other connection. */
  lemma ResponsesAnswerTheirRequests(poolSize: nat, es: seq<Event>)
    requires RunOk(Fresh(poolSize), es)
    ensures
      var m := Run(Fresh(poolSize), es);
      && (forall d :: d in m.done ==> DoneOk(m, d))
      && InOrder(m)
      && (forall k :: k in m.idle ==> IdleOk(m, k))
      && |m.idle| <= poolSize
  {
    RunKeepsInv(Fresh(poolSize), es);
  }

  ghost predicate AllSound(m: Mesh) {
    forall k :: k in m.conns ==> Sound(m.conns[k], |m.conns[k].served|)
  }

  lemma {:induction false} FittingRunIsSound(m: Mesh, es: seq<Event>)
    requires RunOk(m, es) && AllSound(m)
    requires forall e :: e in es && (e.Serve? || e.ServeFails?) ==> ResponseFits(e.resp)
    ensures AllSound(Run(m, es))
    decreases |es|
  {
    if es != [] {
      FittingStepIsSound(m, es[0]);
      FittingRunIsSound(Step(m, es[0]), es[1..]);
    }
  }

  lemma FittingStepIsSound(m: Mesh, e: Event)
    requires Enabled(m, e) && AllSound(m) && (e.Serve? || e.ServeFails? ==> ResponseFits(e.resp))
    ensures AllSound(Step(m, e))
  {
    var m' := Step(m, e);
    forall k | k in m'.conns ensures Sound(m'.conns[k], |m'.conns[k].served|) {
      if k in m.conns { assert Sound(m.conns[k], |m.conns[k].served|); }
    }
  }

  /** If every answer fits, each response answers its request, no answer goes to two callers, and
      every pooled connection is empty. */
  lemma FittingAnswersNeverStray(poolSize: nat, es: seq<Event>)
    requires RunOk(Fresh(poolSize), es)
    requires forall e :: e in es && (e.Serve? || e.ServeFails?) ==> ResponseFits(e.resp)
    ensures
      var m := Run(Fresh(poolSize), es);
      && (forall d :: d in m.done ==> Answers(m, d))
      && (forall i, j :: 0 <= i < j < |m.done| && m.done[i].conn == m.done[j].conn ==> m.done[i].index < m.done[j].index)
      && (forall k :: k in m.idle ==> k in m.conns && Clean(m.conns[k]))
  {
    var m := Run(Fresh(poolSize), es);
    RunKeepsInv(Fresh(poolSize), es);
    FittingRunIsSound(Fresh(poolSize), es);
    forall d | d in m.done ensures Answers(m, d) && Sound(m.conns[d.conn], d.index + 1) {
      assert DoneOk(m, d);
      assert Sound(m.conns[d.conn], |m.conns[d.conn].served|);
    }
    forall k | k in m.idle ensures k in m.conns && Clean(m.conns[k]) {
      assert IdleOk(m, k);
    }
  }

  // ---------------------------------------------------------------- an answer that does not fit

  /** An error text too long for its length prefix is read short, the round trip looks complete, and
      the connection goes back to the pool with the rest of the text still in it. */
  lemma OversizeAnswerPoisonsPool(m: Mesh, call: nat, text: Str)
    requires call in m.calls && m.calls[call].sent && m.calls[call].conn in m.conns
    requires |text| > 0xFFFF && m.conns[m.calls[call].conn].toClient == WireBytes(ErrorWire(text))
    requires !m.closed && |m.idle| < m.poolSize
    ensures
      var e := ShortRead(call, text);
      && Enabled(m, e)
      && m.calls[call].conn in Step(m, e).idle && !Clean(Step(m, e).conns[m.calls[call].conn])
  {
    var n := |text| % 0x1_0000;
    var got := WireBytes(ErrorWire(text));
    OversizeErrorLeavesResidue(text, []);
    assert got + [] == got == got[..|got|] && text[n..] + [] == text[n..];
  }

  ghost function ShortRead(call: nat, text: Str): Event {
    var n := |text| % 0x1_0000;
    Receive(call, |WireBytes(ErrorWire(text))|, ErrorWire(text[..n]), text[n..])
  }

  /** "jaydb cluster: no DB handler registered for namespace", in bytes. */
  const NO_HANDLER: Str := [
    106, 97, 121, 100, 98, 32, 99, 108, 117, 115, 116, 101, 114, 58, 32, 110, 111, 32,
    68, 66, 32, 104, 97, 110, 100, 108, 101, 114, 32, 114, 101, 103, 105, 115, 116, 101,
    114, 101, 100, 32, 102, 111, 114, 32, 110, 97, 109, 101, 115, 112, 97, 99, 101
  ]

  /** The answer for a namespace nobody serves, whose name `%q` has nothing to escape in. */
  function NoHandlerText(namespace: Str): (text: Str)
    ensures |text| == 56 + |namespace|
  {
    NO_HANDLER + [32, 34] + namespace + [34]
  }

  /** A run that gets there: one request for an unserved namespace with a name long enough. */
  lemma LongNamespacePoisonsPool(poolSize: nat, req: Request)
    requires poolSize > 0 && RequestFits(req) && |req.namespace| > 0xFFFF - 56
    ensures
      var text := NoHandlerText(req.namespace);
      var es := [Dial(0, 0, req), Send(0), Serve(0, req, [], Response(text, None)), ShortRead(0, text)];
      && RunOk(Fresh(poolSize), es)
      && var m := Run(Fresh(poolSize), es);
         0 in m.idle && 0 in m.conns && !Clean(m.conns[0])
  {
    var text := NoHandlerText(req.namespace);
    var m0 := Fresh(poolSize);
    var m1 := Step(m0, Dial(0, 0, req));
    var m2 := Step(m1, Send(0));
    assert [] + RequestFrame(req) == RequestFrame(req) == RequestFrame(req) + [];
    var serve := Serve(0, req, [], Response(text, None));
    assert Enabled(m2, serve);
    var m3 := Step(m2, serve);
    assert [] + WireBytes(ErrorWire(text)) == WireBytes(ErrorWire(text));
    OversizeAnswerPoisonsPool(m3, 0, text);
    FourSteps(m0, Dial(0, 0, req), Send(0), serve, ShortRead(0, text));
  }

  lemma FourSteps(m: Mesh, a: Event, b: Event, c: Event, d: Event)
    requires Enabled(m, a) && Enabled(Step(m, a), b) && Enabled(Step(Step(m, a), b), c)
    requires Enabled(Step(Step(Step(m, a), b), c), d)
    ensures RunOk(m, [a, b, c, d])
    ensures Run(m, [a, b, c, d]) == Step(Step(Step(Step(m, a), b), c), d)
  {
    var m1 := Step(m, a);
    var m2 := Step(m1, b);
    var m3 := Step(m2, c);
    assert [a, b, c, d][1..] == [b, c, d] && [b, c, d][1..] == [c, d] && [c, d][1..] == [d] && [d][1..] == [];
    assert RunOk(Step(m3, d), []) && Run(Step(m3, d), []) == Step(m3, d);
    assert RunOk(m3, [d]) && Run(m3, [d]) == Step(m3, d);
    assert RunOk(m2, [c, d]) && Run(m2, [c, d]) == Step(m3, d);
    assert RunOk(m1, [b, c, d]) && Run(m1, [b, c, d]) == Step(m3, d);
  }
}
