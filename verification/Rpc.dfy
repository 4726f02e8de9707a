/**
 * The remoting protocol of SocketListener.cpp as a labelled transition system: any number of
 * client calls and server workers, interleaved, over connections with a byte queue each way.
 *
 * A byte on its way to the server carries the number of the call that sent it. Only the
 * properties look at these marks.
 */
module Rpc {
  import opened Basics
  import opened Frames

  datatype Octet = Octet(value: Byte, from: nat)

  function Mark(b: seq<Byte>, c: nat): (o: seq<Octet>)
    ensures |o| == |b|
  {
    seq(|b|, i requires 0 <= i < |b| => Octet(b[i], c))
  }

  function Values(o: seq<Octet>): (b: seq<Byte>)
    ensures |b| == |o|
  {
    seq(|o|, i requires 0 <= i < |o| => o[i].value)
  }

  /** Where a client thread stands in SocketListener::send(const DDF&). */
  datatype Phase =
    | Fetching(retry: nat)               // about to ask the pool for a socket
    | Connecting(retry: nat)             // the pool was empty
    | Sending(sock: nat, retry: nat)     // inside the two sends
    | AwaitHead(sock: nat)               // reading the length of the reply
    | AwaitBody(sock: nat, left: nat, head: seq<Byte>, body: seq<Byte>)
    | Answered(reply: seq<Byte>)
    | Failed
  {
    /** The phases after both sends have succeeded, and failure. */
    predicate Past() { AwaitHead? || AwaitBody? || Answered? || Failed? }

    predicate On(k: nat) { (Sending? || AwaitHead? || AwaitBody?) && sock == k }

    /** The bytes of the reply read so far. */
    function Got(): seq<Byte> { if AwaitBody? then head + body else [] }
  }

  datatype Call = Call(request: Message, phase: Phase)

  /** Where the worker of a connection stands in ServerThread::run and job. */
  datatype Server =
    | Ready
    | Reading(left: nat, head: seq<Octet>, body: seq<Octet>)
    | Replying(rest: seq<Byte>)
    | Gone
  {
    /** The bytes of the current request that the worker has taken out of the queue. */
    function Taken(): seq<Octet> { if Reading? then head + body else [] }
  }

  /**
   * A connection. The last three fields are history: the call that last acquired the client's
   * socket, how many bytes of its frame were accepted, and the dispatch that served it.
   */
  datatype Conn = Conn(
    c2s: seq<Octet>, s2c: seq<Byte>, open: bool, server: Server,
    tenant: nat, sent: nat, served: Option<nat>)

  /** One call of SocketListener::receive: the bytes of the request frame and the reply. */
  datatype Dispatch = Dispatch(request: seq<Octet>, reply: Message)

  datatype State = State(calls: seq<Call>, conns: seq<Conn>, pool: seq<nat>, log: seq<Dispatch>)

  function Init(): State { State([], [], [], []) }

  function FrameOf(s: State, c: nat): (f: seq<Octet>)
    requires c < |s.calls|
    ensures |f| == 4 + |s.calls[c].request|
  {
    Mark(Frame(s.calls[c].request), c)
  }

  // ---- Steps ----

  datatype Step =
    | Invoke(request: Message)           // a thread calls send
    | Get(c: nat)                        // SocketPool::get finds a socket
    | Miss(c: nat)                       // SocketPool::get finds the pool empty
    | Connect(c: nat)                    // SocketPool::connect succeeds
    | Refused(c: nat)                    // SocketPool::connect throws
    | Push(c: nat, n: nat)               // the socket accepts n more bytes of the frame
    | Abandon(c: nat)                    // a send comes up short: close, then retry or throw
    | RecvHead(c: nat, n: nat)           // recv of the length returns n bytes
    | RecvBody(c: nat, n: nat)           // recv of the reply returns n bytes
    | Lose(c: nat)                       // recv of the reply fails
    | Finish(c: nat)                     // the reply is complete: SocketPool::put
    | TakeHead(k: nat, n: nat)           // the worker's recv of the length returns n bytes
    | TakeBody(k: nat, n: nat)           // the worker's recv of the request returns n bytes
    | Serve(k: nat, reply: Message)      // the request is complete: dispatch it
    | Reply(k: nat, n: nat)              // the socket accepts n more bytes of the reply frame
    | Quit(k: nat)                       // the worker fails, or stops for shutdown

  /** Call c has the socket of connection k in hand. */
  predicate Holds(s: State, c: nat, k: nat) { c < |s.calls| && s.calls[c].phase.On(k) }

  predicate Enabled(s: State, step: Step) {
    match step
    case Invoke(_) => true
    case Get(c) => c < |s.calls| && s.calls[c].phase.Fetching? && s.pool != [] && s.pool[|s.pool| - 1] < |s.conns|
    case Miss(c) => c < |s.calls| && s.calls[c].phase.Fetching? && s.pool == []
    case Connect(c) => c < |s.calls| && s.calls[c].phase.Connecting?
    case Refused(c) => c < |s.calls| && s.calls[c].phase.Connecting?
    case Push(c, n) =>
      && c < |s.calls| && s.calls[c].phase.Sending? && s.calls[c].phase.sock < |s.conns|
      && 0 < n && s.conns[s.calls[c].phase.sock].sent + n <= |FrameOf(s, c)|
    case Abandon(c) => c < |s.calls| && s.calls[c].phase.Sending? && s.calls[c].phase.sock < |s.conns|
    case RecvHead(c, n) =>
      && c < |s.calls| && s.calls[c].phase.AwaitHead? && s.calls[c].phase.sock < |s.conns|
      && n <= 4 && n <= |s.conns[s.calls[c].phase.sock].s2c|
    case RecvBody(c, n) =>
      && c < |s.calls| && s.calls[c].phase.AwaitBody? && s.calls[c].phase.sock < |s.conns|
      && s.calls[c].phase.left != 0 && 0 < n <= CHUNK && n <= |s.conns[s.calls[c].phase.sock].s2c|
    case Lose(c) =>
      && c < |s.calls| && s.calls[c].phase.AwaitBody? && s.calls[c].phase.sock < |s.conns|
      && s.calls[c].phase.left != 0
    case Finish(c) => c < |s.calls| && s.calls[c].phase.AwaitBody? && s.calls[c].phase.left == 0
    case TakeHead(k, n) => k < |s.conns| && s.conns[k].server.Ready? && n <= 4 && n <= |s.conns[k].c2s|
    case TakeBody(k, n) =>
      && k < |s.conns| && s.conns[k].server.Reading? && s.conns[k].server.left != 0
      && 0 < n <= CHUNK && n <= |s.conns[k].c2s|
    case Serve(k, _) => k < |s.conns| && s.conns[k].server.Reading? && s.conns[k].server.left == 0
    case Reply(k, n) => k < |s.conns| && s.conns[k].server.Replying? && 0 < n <= |s.conns[k].server.rest|
    case Quit(k) => k < |s.conns|
  }

  function SetPhase(s: State, c: nat, p: Phase): State
    requires c < |s.calls|
  {
    s.(calls := s.calls[c := s.calls[c].(phase := p)])
  }

  function SetConn(s: State, k: nat, q: Conn): State
    requires k < |s.conns|
  {
    s.(conns := s.conns[k := q])
  }

  /** The client closes its socket and the call moves on to phase p. */
  function CloseSock(s: State, c: nat, k: nat, p: Phase): State
    requires c < |s.calls| && k < |s.conns|
  {
    SetPhase(SetConn(s, k, s.conns[k].(open := false)), c, p)
  }

  function Apply(s: State, step: Step): State
    requires Enabled(s, step)
  {
    match step
    case Invoke(request) => s.(calls := s.calls + [Call(request, Fetching(1))])
    case Get(c) =>
      var k := s.pool[|s.pool| - 1];
      var q := s.conns[k].(tenant := c, sent := 0, served := None);
      SetPhase(SetConn(s, k, q), c, Sending(k, s.calls[c].phase.retry)).(pool := s.pool[..|s.pool| - 1])
    case Miss(c) => SetPhase(s, c, Connecting(s.calls[c].phase.retry))
    case Connect(c) =>
      var q := Conn([], [], true, Ready, c, 0, None);
      SetPhase(s, c, Sending(|s.conns|, s.calls[c].phase.retry)).(conns := s.conns + [q])
    case Refused(c) => SetPhase(s, c, Failed)
    case Push(c, n) =>
      var k := s.calls[c].phase.sock;
      var q, f := s.conns[k], FrameOf(s, c);
      var t := SetConn(s, k, q.(c2s := q.c2s + f[q.sent..q.sent + n], sent := q.sent + n));
      if q.sent + n == |f| then SetPhase(t, c, AwaitHead(k)) else t
    case Abandon(c) =>
      var r := s.calls[c].phase.retry;
      CloseSock(s, c, s.calls[c].phase.sock, if r > 0 then Fetching(r - 1) else Failed)
    case RecvHead(c, n) =>
      var k := s.calls[c].phase.sock;
      var q := s.conns[k];
      var t := SetConn(s, k, q.(s2c := q.s2c[n..]));
      if n == 4 then SetPhase(t, c, AwaitBody(k, Length(q.s2c[..4]), q.s2c[..4], []))
      else CloseSock(t, c, k, Failed)
    case RecvBody(c, n) =>
      var p := s.calls[c].phase;
      var q := s.conns[p.sock];
      SetPhase(SetConn(s, p.sock, q.(s2c := q.s2c[n..])), c,
               p.(left := Minus(p.left, n), body := p.body + q.s2c[..n]))
    case Lose(c) => CloseSock(s, c, s.calls[c].phase.sock, Failed)
    case Finish(c) =>
      SetPhase(s, c, Answered(s.calls[c].phase.body)).(pool := s.pool + [s.calls[c].phase.sock])
    case TakeHead(k, n) =>
      var q := s.conns[k];
      var server := if n == 4 then Reading(Length(Values(q.c2s[..4])), q.c2s[..4], []) else Gone;
      SetConn(s, k, q.(c2s := q.c2s[n..], server := server))
    case TakeBody(k, n) =>
      var q := s.conns[k];
      SetConn(s, k, q.(c2s := q.c2s[n..],
                       server := q.server.(left := Minus(q.server.left, n), body := q.server.body + q.c2s[..n])))
    case Serve(k, reply) =>
      var q := s.conns[k];
      SetConn(s, k, q.(server := Replying(Frame(reply)), served := Some(|s.log|)))
        .(log := s.log + [Dispatch(q.server.head + q.server.body, reply)])
    case Reply(k, n) =>
      var q := s.conns[k];
      var rest := q.server.rest[n..];
      SetConn(s, k, q.(s2c := q.s2c + q.server.rest[..n], server := if rest == [] then Ready else Replying(rest)))
    case Quit(k) => SetConn(s, k, s.conns[k].(server := Gone))
  }

  // ---- The invariant ----

  /** A connection whose current request has not been dispatched. */
  ghost predicate Unserved(s: State, k: nat)
    requires k < |s.conns| && s.conns[k].tenant < |s.calls|
  {
    var q := s.conns[k];
    var f, m := FrameOf(s, q.tenant), s.calls[q.tenant].request;
    && q.s2c == [] && !q.server.Replying? && q.sent <= |f|
    && (!q.server.Gone? ==> q.server.Taken() + q.c2s == f[..q.sent])
    && (q.server.Reading? ==> |q.server.head| == 4 && q.server.left + |q.server.body| == |m|)
  }

  /** got, the queue and what the worker still holds make up the reply frame r. */
  ghost predicate Replied(q: Conn, got: seq<Byte>, r: seq<Byte>) {
    match q.server
    case Replying(rest) => rest != [] && got + q.s2c + rest == r
    case Ready => got + q.s2c == r
    case Gone => got + q.s2c <= r
    case Reading(_, _, _) => false
  }

  /** A connection whose current request became dispatch e. */
  ghost predicate Served(s: State, k: nat, e: nat)
    requires k < |s.conns| && s.conns[k].tenant < |s.calls|
  {
    var q := s.conns[k];
    var f, p := FrameOf(s, q.tenant), s.calls[q.tenant].phase;
    && e < |s.log| && s.log[e].request == f && q.sent == |f| && q.c2s == [] && !q.server.Reading?
    && (q.open && p.Answered? ==> q.s2c == [] && !q.server.Replying?)
    && (q.open && !p.Answered? ==> Replied(q, p.Got(), Frame(s.log[e].reply)))
  }

  ghost predicate ConnOk(s: State, k: nat)
    requires k < |s.conns|
  {
    var q := s.conns[k];
    && q.tenant < |s.calls|
    && (if q.served.Some? then Served(s, k, q.served.value) else Unserved(s, k))
    && (q.sent == |FrameOf(s, q.tenant)| ==> s.calls[q.tenant].phase.Past())
    && (q.open && k !in s.pool ==> s.calls[q.tenant].phase.On(k))
  }

  ghost predicate PoolOk(s: State, k: nat) {
    && k < |s.conns| && s.conns[k].open && s.conns[k].served.Some?
    && s.conns[k].tenant < |s.calls| && s.calls[s.conns[k].tenant].phase.Answered?
  }

  /** Call c works on connection k. */
  ghost predicate Owns(s: State, c: nat, k: nat) {
    k < |s.conns| && s.conns[k].open && s.conns[k].tenant == c && k !in s.pool
  }

  /** Dispatch e was for the request of call c, and its reply is this one. */
  ghost predicate Answers(s: State, c: nat, e: nat, reply: seq<Byte>) {
    c < |s.calls| && e < |s.log| && s.log[e].request == FrameOf(s, c) && s.log[e].reply == reply
  }

  ghost predicate CallOk(s: State, c: nat)
    requires c < |s.calls|
  {
    match s.calls[c].phase
    case Fetching(r) => r <= 1
    case Connecting(r) => r <= 1
    case Sending(k, r) => r <= 1 && Owns(s, c, k) && s.conns[k].sent < |FrameOf(s, c)|
    case AwaitHead(k) => Owns(s, c, k) && s.conns[k].sent == |FrameOf(s, c)|
    case AwaitBody(k, left, head, body) =>
      && Owns(s, c, k) && |head| == 4 && s.conns[k].served.Some? && s.conns[k].served.value < |s.log|
      && left + |body| == |s.log[s.conns[k].served.value].reply|
    case Answered(reply) => exists e {:trigger Answers(s, c, e, reply)} :: Answers(s, c, e, reply)
    case Failed => true
  }

  /** The call whose bytes dispatch e consumed. */
  ghost function Caller(d: Dispatch): nat {
    if d.request == [] then 0 else d.request[0].from
  }

  ghost predicate LogOk(s: State, e: nat)
    requires e < |s.log|
  {
    var c := Caller(s.log[e]);
    c < |s.calls| && s.log[e].request == FrameOf(s, c) && s.calls[c].phase.Past()
  }

  /** The whole frame of the tenant of k has been accepted. */
  ghost predicate Complete(s: State, k: nat)
    requires k < |s.conns|
  {
    s.conns[k].tenant < |s.calls| && s.conns[k].sent == |FrameOf(s, s.conns[k].tenant)|
  }

  /** Two connections never hold the same call's whole frame. */
  ghost predicate OnlyFrame(s: State, j: nat, k: nat)
    requires j < |s.conns| && k < |s.conns|
  {
    Complete(s, j) && Complete(s, k) ==> s.conns[j].tenant != s.conns[k].tenant
  }

  /** A frame that may yet be dispatched from k is not the one of dispatch e. */
  ghost predicate Undone(s: State, k: nat, e: nat)
    requires k < |s.conns| && e < |s.log|
  {
    Complete(s, k) && s.conns[k].served.None? ==> Caller(s.log[e]) != s.conns[k].tenant
  }

  ghost predicate OtherCaller(s: State, d: nat, e: nat)
    requires d < |s.log| && e < |s.log|
  {
    Caller(s.log[d]) != Caller(s.log[e])
  }

  ghost predicate Inv(s: State) {
    && NoDup(s.pool)
    && (forall k {:trigger PoolOk(s, k)} {:trigger k in s.pool} | k in s.pool :: PoolOk(s, k))
    && (forall k {:trigger ConnOk(s, k)} | 0 <= k < |s.conns| :: ConnOk(s, k))
    && (forall c {:trigger CallOk(s, c)} | 0 <= c < |s.calls| :: CallOk(s, c))
    && (forall e {:trigger LogOk(s, e)} | 0 <= e < |s.log| :: LogOk(s, e))
    && (forall j, k {:trigger OnlyFrame(s, j, k)} | 0 <= j < k < |s.conns| :: OnlyFrame(s, j, k))
    && (forall k, e {:trigger Undone(s, k, e)} | 0 <= k < |s.conns| && 0 <= e < |s.log| :: Undone(s, k, e))
    && (forall d, e {:trigger OtherCaller(s, d, e)} | 0 <= d < e < |s.log| :: OtherCaller(s, d, e))
  }

  lemma InitInv()
    ensures Inv(Init())
  {
  }

  // ---- What a step leaves alone ----

  /** t may follow s: requests stay, calls past sending stay so, the log only grows. */
  ghost predicate Later(s: State, t: State) {
    && |s.calls| <= |t.calls| && s.log <= t.log
    && (forall c {:trigger t.calls[c]} | 0 <= c < |s.calls| ::
          t.calls[c].request == s.calls[c].request && (s.calls[c].phase.Past() ==> t.calls[c].phase.Past()))
  }

  /** The connection keeps its tenant and its history. */
  predicate SameTenure(s: State, t: State, k: nat) {
    k < |s.conns| && k < |t.conns|
    && t.conns[k].tenant == s.conns[k].tenant && t.conns[k].sent == s.conns[k].sent
      && t.conns[k].open == s.conns[k].open
    && (s.conns[k].served.Some? ==> t.conns[k].served == s.conns[k].served)
  }

  predicate SameHistory(s: State, t: State, k: nat) {
    k < |s.conns| && k < |t.conns| && s.conns[k].tenant < |s.calls|
    && t.conns[k].tenant == s.conns[k].tenant && t.conns[k].sent == s.conns[k].sent
      && t.conns[k].served == s.conns[k].served
  }

  lemma CallKept(s: State, t: State, c: nat)
    requires Later(s, t) && c < |s.calls| && CallOk(s, c) && t.calls[c] == s.calls[c]
    requires forall k: nat {:trigger SameTenure(s, t, k)} | s.calls[c].phase.On(k) ::
        SameTenure(s, t, k) && (k in t.pool ==> k in s.pool)
    ensures CallOk(t, c)
  {
    match s.calls[c].phase
    case Sending(k, _) => assert SameTenure(s, t, k);
    case AwaitHead(k) => assert SameTenure(s, t, k);
    case AwaitBody(k, _, _, _) => assert SameTenure(s, t, k);
    case Answered(reply) =>
      var e: nat :| Answers(s, c, e, reply);
      assert Answers(t, c, e, reply);
    case _ =>
  }

  lemma ConnKept(s: State, t: State, k: nat)
    requires Later(s, t) && k < |s.conns| && ConnOk(s, k) && k < |t.conns| && t.conns[k] == s.conns[k]
    requires s.conns[k].open ==> t.calls[s.conns[k].tenant] == s.calls[s.conns[k].tenant] && (k in s.pool ==>
             k in t.pool)
    ensures ConnOk(t, k)
  {
    assert FrameOf(t, s.conns[k].tenant) == FrameOf(s, s.conns[k].tenant);
  }

  lemma PoolKept(s: State, t: State, k: nat)
    requires Later(s, t) && PoolOk(s, k) && k < |t.conns|
    requires SameTenure(s, t, k) && t.calls[s.conns[k].tenant] == s.calls[s.conns[k].tenant]
    ensures PoolOk(t, k)
  {
  }

  /** The conditions across connections survive any step that completes no frame and dispatches nothing. */
  lemma AcrossKept(s: State, t: State)
    requires Inv(s) && Later(s, t) && t.log == s.log
    requires forall k {:trigger SameHistory(s, t, k)} | 0 <= k < |t.conns| :: SameHistory(s, t, k) || !Complete(t, k)
    ensures forall e {:trigger LogOk(t, e)} | 0 <= e < |t.log| :: LogOk(t, e)
    ensures forall j, k {:trigger OnlyFrame(t, j, k)} | 0 <= j < k < |t.conns| :: OnlyFrame(t, j, k)
    ensures forall k, e {:trigger Undone(t, k, e)} | 0 <= k < |t.conns| && 0 <= e < |t.log| :: Undone(t, k, e)
    ensures forall d, e {:trigger OtherCaller(t, d, e)} | 0 <= d < e < |t.log| :: OtherCaller(t, d, e)
  {
    forall e | 0 <= e < |t.log|
      ensures LogOk(t, e)
    {
      assert LogOk(s, e);
    }
    forall k | 0 <= k < |t.conns| && Complete(t, k)
      ensures SameHistory(s, t, k) && Complete(s, k)
    {
      assert SameHistory(s, t, k);
    }
    forall j, k | 0 <= j < k < |t.conns|
      ensures OnlyFrame(t, j, k)
    {
      assert k < |s.conns| ==> OnlyFrame(s, j, k);
    }
    forall k, e | 0 <= k < |t.conns| && 0 <= e < |t.log|
      ensures Undone(t, k, e)
    {
      assert k < |s.conns| ==> Undone(s, k, e);
    }
    forall d, e | 0 <= d < e < |t.log|
      ensures OtherCaller(t, d, e)
    {
      assert OtherCaller(s, d, e);
    }
  }

  // ---- Steps that change one connection or one call ----

  /** A worker step that keeps its connection in order keeps everything in order. */
  lemma ServerStep(s: State, k: nat, q: Conn)
    requires Inv(s) && k < |s.conns| && ConnOk(SetConn(s, k, q), k)
    requires q.tenant == s.conns[k].tenant && q.sent == s.conns[k].sent && q.served == s.conns[k].served
             && q.open == s.conns[k].open
    ensures Inv(SetConn(s, k, q))
  {
    var t := SetConn(s, k, q);
    forall j | 0 <= j < |t.conns|
      ensures ConnOk(t, j) && SameHistory(s, t, j)
    {
      assert ConnOk(s, j);
      if j != k {
        ConnKept(s, t, j);
      }
    }
    AcrossKept(s, t);
    forall c | 0 <= c < |t.calls|
      ensures CallOk(t, c)
    {
      assert CallOk(s, c);
      CallKept(s, t, c);
    }
    forall j | j in t.pool
      ensures PoolOk(t, j)
    {
      assert PoolOk(s, j);
      PoolKept(s, t, j);
    }
  }

  /** A step of a call with a socket in hand. */
  lemma ClientStep(s: State, c: nat, k: nat, q: Conn, p: Phase)
    requires Inv(s) && c < |s.calls| && s.calls[c].phase.On(k) && k < |s.conns|
    requires q.tenant == s.conns[k].tenant && q.sent == s.conns[k].sent && q.served == s.conns[k].served
    requires s.calls[c].phase.Past() ==> p.Past()
    requires var t := SetPhase(SetConn(s, k, q), c, p); ConnOk(t, k) && CallOk(t, c)
    ensures Inv(SetPhase(SetConn(s, k, q), c, p))
  {
    var t := SetPhase(SetConn(s, k, q), c, p);
    assert CallOk(s, c) && Owns(s, c, k);
    forall j | 0 <= j < |t.conns|
      ensures ConnOk(t, j) && SameHistory(s, t, j)
    {
      assert ConnOk(s, j);
      if j != k {
        assert j in s.pool ==> PoolOk(s, j);
        ConnKept(s, t, j);
      }
    }
    AcrossKept(s, t);
    forall d | 0 <= d < |t.calls|
      ensures CallOk(t, d)
    {
      assert CallOk(s, d);
      if d != c {
        forall j: nat | s.calls[d].phase.On(j)
          ensures SameTenure(s, t, j)
        {
          assert Owns(s, d, j);
        }
        CallKept(s, t, d);
      }
    }
    forall j | j in t.pool
      ensures PoolOk(t, j)
    {
      assert PoolOk(s, j);
      PoolKept(s, t, j);
    }
  }

  /** A step of a call that has no socket. */
  lemma PhaseStep(s: State, c: nat, p: Phase)
    requires Inv(s) && c < |s.calls| && (s.calls[c].phase.Fetching? || s.calls[c].phase.Connecting?)
    requires CallOk(SetPhase(s, c, p), c)
    ensures Inv(SetPhase(s, c, p))
  {
    var t := SetPhase(s, c, p);
    forall j | 0 <= j < |t.conns|
      ensures ConnOk(t, j) && SameHistory(s, t, j)
    {
      assert ConnOk(s, j);
      assert j in s.pool ==> PoolOk(s, j);
      ConnKept(s, t, j);
    }
    AcrossKept(s, t);
    forall d | 0 <= d < |t.calls|
      ensures CallOk(t, d)
    {
      assert CallOk(s, d);
      if d != c {
        forall j: nat | s.calls[d].phase.On(j)
          ensures SameTenure(s, t, j)
        {
          assert Owns(s, d, j);
        }
        CallKept(s, t, d);
      }
    }
    forall j | j in t.pool
      ensures PoolOk(t, j)
    {
      assert PoolOk(s, j);
      PoolKept(s, t, j);
    }
  }

  /** A head of four bytes is the one of the frame, so it gives the length. */
  lemma HeadTaken(m: Message, c: nat, queue: seq<Octet>, sent: nat)
    requires sent <= 4 + |m| && [] + queue == Mark(Frame(m), c)[..sent] && |queue| >= 4
    ensures Length(Values(queue[..4])) == |m| && queue[..4] + [] + queue[4..] == Mark(Frame(m), c)[..sent]
  {
    assert queue == [] + queue;
    assert Values(queue[..4]) == Frame(m)[..4] == Header(|m|);
    HeaderLength(|m|);
  }

  lemma TakeHeadConn(s: State, k: nat, n: nat)
    requires Inv(s) && Enabled(s, TakeHead(k, n))
    ensures ConnOk(Apply(s, TakeHead(k, n)), k)
  {
    var q := s.conns[k];
    assert ConnOk(s, k);
    if q.served.None? && n == 4 {
      HeadTaken(s.calls[q.tenant].request, q.tenant, q.c2s, q.sent);
    }
  }

  lemma TakeHeadInv(s: State, k: nat, n: nat)
    requires Inv(s) && Enabled(s, TakeHead(k, n))
    ensures Inv(Apply(s, TakeHead(k, n)))
  {
    TakeHeadConn(s, k, n);
    ServerStep(s, k, Apply(s, TakeHead(k, n)).conns[k]);
  }

  /** The worker never reads past the end of the frame: the counter does not wrap. */
  lemma TakeBodyFits(s: State, k: nat, n: nat)
    requires Inv(s) && Enabled(s, TakeBody(k, n))
    ensures n <= s.conns[k].server.left && Minus(s.conns[k].server.left, n) == s.conns[k].server.left - n
  {
    var q := s.conns[k];
    assert ConnOk(s, k);
    var f := FrameOf(s, q.tenant);
    assert |q.server.head + q.server.body + q.c2s| == |f[..q.sent]|;
  }

  lemma TakeBodyInv(s: State, k: nat, n: nat)
    requires Inv(s) && Enabled(s, TakeBody(k, n))
    ensures Inv(Apply(s, TakeBody(k, n)))
  {
    var q, t := s.conns[k], Apply(s, TakeBody(k, n));
    assert ConnOk(s, k);
    TakeBodyFits(s, k, n);
    assert q.server.head + (q.server.body + q.c2s[..n]) + q.c2s[n..] == q.server.head + q.server.body + q.c2s;
    assert ConnOk(t, k);
    ServerStep(s, k, t.conns[k]);
  }

  lemma ReplyInv(s: State, k: nat, n: nat)
    requires Inv(s) && Enabled(s, Reply(k, n))
    ensures Inv(Apply(s, Reply(k, n)))
  {
    var q, t := s.conns[k], Apply(s, Reply(k, n));
    assert ConnOk(s, k);
    var rest := q.server.rest;
    if q.open {
      var got := s.calls[q.tenant].phase.Got();
      assert got + (q.s2c + rest[..n]) + rest[n..] == got + q.s2c + rest;
      assert got + (q.s2c + rest[..n]) + [] == got + (q.s2c + rest[..n]);
    }
    assert ConnOk(t, k);
    ServerStep(s, k, t.conns[k]);
  }

  lemma QuitInv(s: State, k: nat)
    requires Inv(s) && Enabled(s, Quit(k))
    ensures Inv(Apply(s, Quit(k)))
  {
    var q, t := s.conns[k], Apply(s, Quit(k));
    assert ConnOk(s, k);
    assert ConnOk(t, k);
    ServerStep(s, k, t.conns[k]);
  }

  /** Closing the socket and giving up or retrying. */
  lemma CloseInv(s: State, c: nat, k: nat, q: Conn, p: Phase)
    requires Inv(s) && c < |s.calls| && s.calls[c].phase.On(k) && k < |s.conns|
    requires p == Failed || (s.calls[c].phase.Sending? && p.Fetching? && p.retry <= 1)
    requires q == s.conns[k].(s2c := q.s2c, open := false) && (s.conns[k].s2c == [] ==> q.s2c == [])
    ensures Inv(SetPhase(SetConn(s, k, q), c, p))
  {
    var t := SetPhase(SetConn(s, k, q), c, p);
    assert ConnOk(s, k) && CallOk(s, c);
    assert FrameOf(t, c) == FrameOf(s, c);
    assert ConnOk(t, k);
    ClientStep(s, c, k, q, p);
  }

  lemma RecvHeadPart(s: State, c: nat, n: nat)
    requires Inv(s) && Enabled(s, RecvHead(c, n)) && n < 4
    ensures Inv(Apply(s, RecvHead(c, n)))
  {
    var k := s.calls[c].phase.sock;
    var q := s.conns[k].(s2c := s.conns[k].s2c[n..], open := false);
    CloseInv(s, c, k, q, Failed);
    assert Apply(s, RecvHead(c, n)) == SetPhase(SetConn(s, k, q), c, Failed);
  }

  lemma RecvHeadWhole(s: State, c: nat)
    requires Inv(s) && Enabled(s, RecvHead(c, 4))
    ensures var t := Apply(s, RecvHead(c, 4)); CallOk(t, c) && ConnOk(t, s.calls[c].phase.sock)
  {
    var k, t := s.calls[c].phase.sock, Apply(s, RecvHead(c, 4));
    var q := s.conns[k];
    assert CallOk(s, c) && ConnOk(s, k);
    var m := s.log[q.served.value].reply;
    assert q.s2c[..4] == Frame(m)[..4] == Header(|m|);
    HeaderLength(|m|);
    assert q.s2c[..4] + [] + q.s2c[4..] == q.s2c;
    assert FrameOf(t, c) == FrameOf(s, c);
  }

  lemma RecvHeadInv(s: State, c: nat, n: nat)
    requires Inv(s) && Enabled(s, RecvHead(c, n))
    ensures Inv(Apply(s, RecvHead(c, n)))
  {
    if n < 4 {
      RecvHeadPart(s, c, n);
    } else {
      var k, t := s.calls[c].phase.sock, Apply(s, RecvHead(c, n));
      RecvHeadWhole(s, c);
      assert CallOk(s, c);
      ClientStep(s, c, k, t.conns[k], t.calls[c].phase);
    }
  }

  /** The client never reads past the end of the reply: the counter does not wrap. */
  lemma RecvBodyFits(s: State, c: nat, n: nat)
    requires Inv(s) && Enabled(s, RecvBody(c, n))
    ensures n <= s.calls[c].phase.left && Minus(s.calls[c].phase.left, n) == s.calls[c].phase.left - n
  {
    var p := s.calls[c].phase;
    assert CallOk(s, c) && ConnOk(s, p.sock);
    var q := s.conns[p.sock];
    assert |p.head + p.body + q.s2c| <= |Frame(s.log[q.served.value].reply)|;
  }

  lemma RecvBodyInv(s: State, c: nat, n: nat)
    requires Inv(s) && Enabled(s, RecvBody(c, n))
    ensures Inv(Apply(s, RecvBody(c, n)))
  {
    var p, t := s.calls[c].phase, Apply(s, RecvBody(c, n));
    var q := s.conns[p.sock];
    RecvBodyFits(s, c, n);
    assert CallOk(s, c) && ConnOk(s, p.sock);
    assert p.head + (p.body + q.s2c[..n]) + q.s2c[n..] == p.head + p.body + q.s2c;
    assert FrameOf(t, c) == FrameOf(s, c);
    assert ConnOk(t, p.sock);
    ClientStep(s, c, p.sock, t.conns[p.sock], t.calls[c].phase);
  }

  /** The calls other than c keep their sockets, which are not k. */
  lemma OthersKept(s: State, t: State, c: nat, k: nat)
    requires Inv(s) && Later(s, t) && c < |s.calls| && |t.calls| == |s.calls|
    requires forall d | 0 <= d < |s.calls| && d != c :: t.calls[d] == s.calls[d]
    requires |s.conns| <= |t.conns| && forall j | 0 <= j < |s.conns| && j != k :: t.conns[j] == s.conns[j]
    requires k < |s.conns| ==> s.conns[k].open && (s.conns[k].tenant == c || k in s.pool)
    requires forall j | j in t.pool :: j in s.pool || j == k
    ensures forall d {:trigger CallOk(t, d)} | 0 <= d < |t.calls| && d != c :: CallOk(t, d)
  {
    forall d | 0 <= d < |t.calls| && d != c
      ensures CallOk(t, d)
    {
      assert CallOk(s, d);
      forall j: nat | s.calls[d].phase.On(j)
        ensures SameTenure(s, t, j) && (j in t.pool ==> j in s.pool)
      {
        assert Owns(s, d, j) && j != k;
      }
      CallKept(s, t, d);
    }
  }

  /** Connections other than k do not notice what call c does. */
  lemma ConnsKept(s: State, t: State, c: nat, k: nat)
    requires Inv(s) && Later(s, t) && c < |s.calls| && |t.calls| == |s.calls| && !s.calls[c].phase.Answered?
    requires forall d | 0 <= d < |s.calls| && d != c :: t.calls[d] == s.calls[d]
    requires |s.conns| <= |t.conns| && forall j | 0 <= j < |s.conns| && j != k :: t.conns[j] == s.conns[j]
    requires s.calls[c].phase.Sending? || s.calls[c].phase.AwaitHead? || s.calls[c].phase.AwaitBody? ==>
             s.calls[c].phase.On(k)
    requires forall j | j in s.pool && j != k :: j in t.pool
    ensures forall j {:trigger ConnOk(t, j)} | 0 <= j < |s.conns| && j != k :: ConnOk(t, j)
  {
    forall j | 0 <= j < |s.conns| && j != k
      ensures ConnOk(t, j)
    {
      assert ConnOk(s, j);
      assert j in s.pool ==> PoolOk(s, j);
      ConnKept(s, t, j);
    }
  }

  lemma MoreSent<T>(taken: seq<T>, queue: seq<T>, f: seq<T>, sent: nat, n: nat)
    requires sent + n <= |f| && taken + queue == f[..sent]
    ensures taken + (queue + f[sent..sent + n]) == f[..sent + n]
  {
    assert f[..sent] + f[sent..sent + n] == f[..sent + n];
    assert taken + (queue + f[sent..sent + n]) == taken + queue + f[sent..sent + n];
  }

  lemma PushCall(s: State, c: nat, n: nat)
    requires Inv(s) && Enabled(s, Push(c, n))
    ensures CallOk(Apply(s, Push(c, n)), c)
  {
    assert CallOk(s, c) && FrameOf(Apply(s, Push(c, n)), c) == FrameOf(s, c);
  }

  lemma PushUnserved(s: State, k: nat, c: nat)
    requires Inv(s) && c < |s.calls| && s.calls[c].phase.Sending? && k == s.calls[c].phase.sock
    ensures Owns(s, c, k) && s.conns[k].served.None? && Unserved(s, k)
  {
    assert CallOk(s, c) && ConnOk(s, k);
  }

  lemma PushConn(s: State, c: nat, n: nat)
    requires Inv(s) && Enabled(s, Push(c, n))
    ensures ConnOk(Apply(s, Push(c, n)), s.calls[c].phase.sock)
  {
    var k, t := s.calls[c].phase.sock, Apply(s, Push(c, n));
    var q, f := s.conns[k], FrameOf(s, c);
    PushUnserved(s, k, c);
    if !q.server.Gone? {
      MoreSent(q.server.Taken(), q.c2s, f, q.sent, n);
    }
    assert FrameOf(t, c) == f;
    assert Unserved(t, k);
  }

  /** The last byte of a frame is accepted by one connection only, and before the call was ever served. */
  lemma PushAcross(s: State, c: nat, n: nat)
    requires Inv(s) && Enabled(s, Push(c, n))
    ensures var t := Apply(s, Push(c, n));
            && (forall j, k {:trigger OnlyFrame(t, j, k)} | 0 <= j < k < |t.conns| :: OnlyFrame(t, j, k))
            && (forall k, e {:trigger Undone(t, k, e)} | 0 <= k < |t.conns| && 0 <= e < |t.log| :: Undone(t, k, e))
            && (forall e {:trigger LogOk(t, e)} | 0 <= e < |t.log| :: LogOk(t, e))
  {
    var i, t := s.calls[c].phase.sock, Apply(s, Push(c, n));
    assert CallOk(s, c);
    forall k | 0 <= k < |t.conns| && k != i && Complete(t, k)
      ensures Complete(s, k) && s.conns[k].tenant != c
    {
      assert ConnOk(s, k);
    }
    forall j, k | 0 <= j < k < |t.conns|
      ensures OnlyFrame(t, j, k)
    {
      assert OnlyFrame(s, j, k);
    }
    forall e | 0 <= e < |t.log|
      ensures LogOk(t, e) && Caller(t.log[e]) != c
    {
      assert LogOk(s, e);
    }
    forall k, e | 0 <= k < |t.conns| && 0 <= e < |t.log|
      ensures Undone(t, k, e)
    {
      assert Undone(s, k, e);
    }
  }

  lemma PushInv(s: State, c: nat, n: nat)
    requires Inv(s) && Enabled(s, Push(c, n))
    ensures Inv(Apply(s, Push(c, n)))
  {
    var k, t := s.calls[c].phase.sock, Apply(s, Push(c, n));
    assert CallOk(s, c) && Owns(s, c, k);
    PushConn(s, c, n);
    PushCall(s, c, n);
    PushAcross(s, c, n);
    OthersKept(s, t, c, k);
    ConnsKept(s, t, c, k);
    forall d, e | 0 <= d < e < |t.log|
      ensures OtherCaller(t, d, e)
    {
      assert OtherCaller(s, d, e);
    }
    forall j | j in t.pool
      ensures PoolOk(t, j)
    {
      assert PoolOk(s, j);
      PoolKept(s, t, j);
    }
  }

  /** A complete message is the one its caller sent, and its caller was not served before. */
  lemma ServeFrame(s: State, k: nat, reply: Message)
    requires Inv(s) && Enabled(s, Serve(k, reply))
    ensures s.conns[k].tenant < |s.calls|
    ensures s.conns[k].server.head + s.conns[k].server.body == FrameOf(s, s.conns[k].tenant)
    ensures Values(s.conns[k].server.body) == s.calls[s.conns[k].tenant].request
    ensures Complete(s, k) && s.conns[k].served.None? && s.conns[k].c2s == []
    ensures forall e | 0 <= e < |s.log| :: Caller(s.log[e]) != s.conns[k].tenant
  {
    var q := s.conns[k];
    assert ConnOk(s, k);
    var f, m := FrameOf(s, q.tenant), s.calls[q.tenant].request;
    var taken := q.server.head + q.server.body;
    assert |taken + q.c2s| == |f[..q.sent]| && |taken| == |f|;
    assert q.c2s == [] && taken + [] == taken && f[..|f|] == f;
    assert q.server.body == taken[4..] == f[4..];
    assert Values(q.server.body) == Frame(m)[4..] == m;
    forall e | 0 <= e < |s.log|
      ensures Caller(s.log[e]) != q.tenant
    {
      assert Undone(s, k, e);
    }
  }

  lemma ServeConn(s: State, k: nat, reply: Message)
    requires Inv(s) && Enabled(s, Serve(k, reply))
    ensures ConnOk(Apply(s, Serve(k, reply)), k)
  {
    var q, t := s.conns[k], Apply(s, Serve(k, reply));
    ServeFrame(s, k, reply);
    assert ConnOk(s, k) && FrameOf(t, q.tenant) == FrameOf(s, q.tenant);
    if q.open {
      assert k in s.pool ==> PoolOk(s, k);
      assert CallOk(s, q.tenant);
      assert s.calls[q.tenant].phase.AwaitHead?;
      assert [] + [] + Frame(reply) == Frame(reply);
    }
  }

  lemma ServeAcross(s: State, k: nat, reply: Message)
    requires Inv(s) && Enabled(s, Serve(k, reply))
    ensures var t := Apply(s, Serve(k, reply));
            && (forall i, j {:trigger OnlyFrame(t, i, j)} | 0 <= i < j < |t.conns| :: OnlyFrame(t, i, j))
            && (forall j, e {:trigger Undone(t, j, e)} | 0 <= j < |t.conns| && 0 <= e < |t.log| :: Undone(t, j, e))
            && (forall e {:trigger LogOk(t, e)} | 0 <= e < |t.log| :: LogOk(t, e))
            && (forall d, e {:trigger OtherCaller(t, d, e)} | 0 <= d < e < |t.log| :: OtherCaller(t, d, e))
  {
    var q, t := s.conns[k], Apply(s, Serve(k, reply));
    ServeFrame(s, k, reply);
    var f := FrameOf(s, q.tenant);
    assert t.log[|s.log|].request == f && f[0].from == q.tenant && FrameOf(t, q.tenant) == f;
    assert Caller(t.log[|s.log|]) == q.tenant;
    assert ConnOk(s, k);
    forall i, j | 0 <= i < j < |t.conns|
      ensures OnlyFrame(t, i, j)
    {
      assert OnlyFrame(s, i, j);
    }
    forall e | 0 <= e < |t.log|
      ensures LogOk(t, e)
    {
      assert e < |s.log| ==> LogOk(s, e);
    }
    forall j, e | 0 <= j < |t.conns| && 0 <= e < |t.log|
      ensures Undone(t, j, e)
    {
      assert e < |s.log| ==> Undone(s, j, e);
      assert j < k ==> OnlyFrame(s, j, k);
      assert k < j ==> OnlyFrame(s, k, j);
    }
    forall d, e | 0 <= d < e < |t.log|
      ensures OtherCaller(t, d, e)
    {
      assert e < |s.log| ==> OtherCaller(s, d, e);
    }
  }

  lemma ServeInv(s: State, k: nat, reply: Message)
    requires Inv(s) && Enabled(s, Serve(k, reply))
    ensures Inv(Apply(s, Serve(k, reply)))
  {
    var t := Apply(s, Serve(k, reply));
    ServeFrame(s, k, reply);
    ServeConn(s, k, reply);
    ServeAcross(s, k, reply);
    forall j | 0 <= j < |t.conns| && j != k
      ensures ConnOk(t, j)
    {
      assert ConnOk(s, j);
      ConnKept(s, t, j);
    }
    forall c | 0 <= c < |t.calls|
      ensures CallOk(t, c)
    {
      assert CallOk(s, c);
      CallKept(s, t, c);
    }
    forall j | j in t.pool
      ensures PoolOk(t, j)
    {
      assert PoolOk(s, j);
      PoolKept(s, t, j);
    }
  }

  // ---- Steps that move a socket in or out of the pool ----

  lemma PopNoDup(p: seq<nat>)
    requires NoDup(p) && p != []
    ensures NoDup(p[..|p| - 1])
    ensures forall k {:trigger k in p[..|p| - 1]} :: k in p[..|p| - 1] <==> k in p && k != p[|p| - 1]
  {
    var top, rest := p[|p| - 1], p[..|p| - 1];
    OnlyAt(p, |p| - 1);
    forall i, j | 0 <= i < j < |rest|
      ensures Apart(rest, i, j)
    {
      assert Apart(p, i, j);
    }
    forall k | k in p && k != top
      ensures k in rest
    {
      assert rest[Index(p, k)] == k;
    }
  }

  lemma PushNoDup(p: seq<nat>, k: nat)
    requires NoDup(p) && k !in p
    ensures NoDup(p + [k])
  {
    var t := p + [k];
    forall i, j | 0 <= i < j < |t|
      ensures Apart(t, i, j)
    {
      assert j < |p| ==> Apart(p, i, j);
    }
  }

  lemma GetConn(s: State, c: nat)
    requires Inv(s) && Enabled(s, Get(c))
    ensures var k, t := s.pool[|s.pool| - 1], Apply(s, Get(c));
            && NoDup(t.pool) && k !in t.pool && (forall j | j in t.pool :: j in s.pool)
            && (forall j | j in s.pool && j != k :: j in t.pool)
            && s.conns[k].tenant != c && ConnOk(t, k)
  {
    var k, t := s.pool[|s.pool| - 1], Apply(s, Get(c));
    PopNoDup(s.pool);
    assert k in s.pool && PoolOk(s, k) && ConnOk(s, k) && CallOk(s, c);
    assert FrameOf(t, c) == FrameOf(s, c) && FrameOf(s, c)[..0] == [];
  }

  /** A pooled socket is idle, so the next request starts on empty queues. */
  lemma GetInv(s: State, c: nat)
    requires Inv(s) && Enabled(s, Get(c))
    ensures Inv(Apply(s, Get(c)))
  {
    var k, t := s.pool[|s.pool| - 1], Apply(s, Get(c));
    GetConn(s, c);
    assert CallOk(s, c) && PoolOk(s, k);
    forall j | 0 <= j < |t.conns|
      ensures SameHistory(s, t, j) || !Complete(t, j)
    {
      assert ConnOk(s, j);
    }
    AcrossKept(s, t);
    OthersKept(s, t, c, k);
    ConnsKept(s, t, c, k);
    forall j | j in t.pool
      ensures PoolOk(t, j)
    {
      assert PoolOk(s, j) && ConnOk(s, j);
      PoolKept(s, t, j);
    }
  }

  lemma ConnectInv(s: State, c: nat)
    requires Inv(s) && Enabled(s, Connect(c))
    ensures Inv(Apply(s, Connect(c)))
  {
    var k, t := |s.conns|, Apply(s, Connect(c));
    assert CallOk(s, c);
    assert k !in s.pool by {
      assert forall j | j in s.pool :: PoolOk(s, j);
    }
    assert FrameOf(t, c) == FrameOf(s, c) && FrameOf(s, c)[..0] == [];
    assert ConnOk(t, k);
    forall j | 0 <= j < |t.conns|
      ensures SameHistory(s, t, j) || !Complete(t, j)
    {
      assert j < k ==> ConnOk(s, j);
    }
    AcrossKept(s, t);
    OthersKept(s, t, c, k);
    ConnsKept(s, t, c, k);
    forall j | j in t.pool
      ensures PoolOk(t, j)
    {
      assert PoolOk(s, j);
      PoolKept(s, t, j);
    }
  }

  /**
   * What the client has and what is in the queue start the reply; as long as the worker holds more,
   * that is not all.
   */
  lemma RepliedPart(q: Conn, got: seq<Byte>, r: seq<Byte>)
    requires Replied(q, got, r)
    ensures got + q.s2c <= r && got <= r
    ensures q.server.Replying? ==> |got| + |q.s2c| < |r|
    ensures q.server.Ready? ==> |got| + |q.s2c| == |r|
  {
    if q.server.Replying? {
      assert r[..|got + q.s2c|] == got + q.s2c;
    }
    assert r[..|got|] == (got + q.s2c)[..|got|] == got;
  }

  /** When the reply is complete, it is the reply to this very request and nothing is left unread. */
  lemma FinishReply(s: State, c: nat)
    requires Inv(s) && Enabled(s, Finish(c))
    ensures var k := s.calls[c].phase.sock;
            && k < |s.conns| && k !in s.pool && s.conns[k].served.Some? && s.conns[k].open && s.conns[k].tenant == c
            && Answers(s, c, s.conns[k].served.value, s.calls[c].phase.body)
            && s.conns[k].s2c == [] && s.conns[k].c2s == [] && (s.conns[k].server.Ready? || s.conns[k].server.Gone?)
  {
    var p := s.calls[c].phase;
    assert CallOk(s, c) && ConnOk(s, p.sock);
    var q := s.conns[p.sock];
    var m := s.log[q.served.value].reply;
    var taken, r := p.head + p.body, Frame(m);
    RepliedPart(q, taken, r);
    assert |taken| == |r| && q.s2c == [] && taken == r[..|taken|] == r;
    assert p.body == taken[4..] == r[4..] == m;
  }

  lemma FinishInv(s: State, c: nat)
    requires Inv(s) && Enabled(s, Finish(c))
    ensures Inv(Apply(s, Finish(c)))
  {
    var k, t := s.calls[c].phase.sock, Apply(s, Finish(c));
    FinishReply(s, c);
    assert ConnOk(s, k) && CallOk(s, c);
    PushNoDup(s.pool, k);
    assert FrameOf(t, c) == FrameOf(s, c);
    assert Answers(t, c, s.conns[k].served.value, s.calls[c].phase.body);
    assert ConnOk(t, k) && CallOk(t, c);
    forall j | 0 <= j < |t.conns|
      ensures SameHistory(s, t, j)
    {
      assert ConnOk(s, j);
    }
    AcrossKept(s, t);
    OthersKept(s, t, c, k);
    ConnsKept(s, t, c, k);
    forall j | j in t.pool
      ensures PoolOk(t, j)
    {
      assert j != k ==> PoolOk(s, j);
    }
  }

  lemma InvokeInv(s: State, request: Message)
    requires Inv(s)
    ensures Inv(Apply(s, Invoke(request)))
  {
    var t := Apply(s, Invoke(request));
    forall j | 0 <= j < |t.conns|
      ensures ConnOk(t, j) && SameHistory(s, t, j)
    {
      assert ConnOk(s, j);
      ConnKept(s, t, j);
    }
    AcrossKept(s, t);
    forall c | 0 <= c < |t.calls|
      ensures CallOk(t, c)
    {
      if c < |s.calls| {
        assert CallOk(s, c);
        forall j: nat | s.calls[c].phase.On(j)
          ensures SameTenure(s, t, j)
        {
          assert Owns(s, c, j);
        }
        CallKept(s, t, c);
      }
    }
    forall j | j in t.pool
      ensures PoolOk(t, j)
    {
      assert PoolOk(s, j);
      PoolKept(s, t, j);
    }
  }

  lemma AbandonInv(s: State, c: nat)
    requires Inv(s) && Enabled(s, Abandon(c))
    ensures Inv(Apply(s, Abandon(c)))
  {
    var k, r := s.calls[c].phase.sock, s.calls[c].phase.retry;
    assert CallOk(s, c);
    CloseInv(s, c, k, s.conns[k].(open := false), if r > 0 then Fetching(r - 1) else Failed);
  }

  lemma LoseInv(s: State, c: nat)
    requires Inv(s) && Enabled(s, Lose(c))
    ensures Inv(Apply(s, Lose(c)))
  {
    var k := s.calls[c].phase.sock;
    CloseInv(s, c, k, s.conns[k].(open := false), Failed);
  }

  /** Every step keeps the invariant. */
  lemma StepInv(s: State, step: Step)
    requires Inv(s) && Enabled(s, step)
    ensures Inv(Apply(s, step))
  {
    match step
    case Invoke(request) => InvokeInv(s, request);
    case Get(c) => GetInv(s, c);
    case Miss(c) =>
      assert CallOk(s, c);
      PhaseStep(s, c, Connecting(s.calls[c].phase.retry));
    case Connect(c) => ConnectInv(s, c);
    case Refused(c) => PhaseStep(s, c, Failed);
    case Push(c, n) => PushInv(s, c, n);
    case Abandon(c) => AbandonInv(s, c);
    case RecvHead(c, n) => RecvHeadInv(s, c, n);
    case RecvBody(c, n) => RecvBodyInv(s, c, n);
    case Lose(c) => LoseInv(s, c);
    case Finish(c) => FinishInv(s, c);
    case TakeHead(k, n) => TakeHeadInv(s, k, n);
    case TakeBody(k, n) => TakeBodyInv(s, k, n);
    case Serve(k, reply) => ServeInv(s, k, reply);
    case Reply(k, n) => ReplyInv(s, k, n);
    case Quit(k) => QuitInv(s, k);
  }

  // ---- Over all runs ----

  predicate Possible(s: State, steps: seq<Step>)
    decreases |steps|
  {
    steps == [] || (Enabled(s, steps[0]) && Possible(Apply(s, steps[0]), steps[1..]))
  }

  function After(s: State, steps: seq<Step>): State
    requires Possible(s, steps)
    decreases |steps|
  {
    if steps == [] then s else After(Apply(s, steps[0]), steps[1..])
  }

  lemma {:induction false} RunInv(s: State, steps: seq<Step>)
    requires Inv(s) && Possible(s, steps)
    ensures Inv(After(s, steps))
    decreases |steps|
  {
    if steps == [] {
    } else {
      StepInv(s, steps[0]);
      RunInv(Apply(s, steps[0]), steps[1..]);
    }
  }

  /** The states the protocol can get into. */
  ghost predicate Reachable(s: State) {
    exists steps {:trigger Possible(Init(), steps)} :: Possible(Init(), steps) && s == After(Init(), steps)
  }

  lemma InitReachable()
    ensures Reachable(Init())
  {
    assert Possible(Init(), []) && After(Init(), []) == Init();
  }

  lemma {:induction false} RunsJoin(s: State, steps: seq<Step>, more: seq<Step>)
    requires Possible(s, steps) && Possible(After(s, steps), more)
    ensures Possible(s, steps + more) && After(s, steps + more) == After(After(s, steps), more)
    decreases |steps|
  {
    var all := steps + more;
    if steps == [] {
      assert all == more;
    } else {
      assert all[0] == steps[0] && all[1..] == steps[1..] + more;
      RunsJoin(Apply(s, steps[0]), steps[1..], more);
    }
  }

  lemma ReachableOn(s: State, more: seq<Step>)
    requires Reachable(s) && Possible(s, more)
    ensures Reachable(After(s, more))
  {
    var steps :| Possible(Init(), steps) && s == After(Init(), steps);
    RunsJoin(Init(), steps, more);
    assert Possible(Init(), steps + more);
  }

  lemma ReachableNext(s: State, step: Step)
    requires Reachable(s) && Enabled(s, step)
    ensures Reachable(Apply(s, step))
  {
    var t := Apply(s, step);
    assert [step][1..] == [] && Possible(t, []) && After(t, []) == t;
    assert Possible(s, [step]) && After(s, [step]) == t;
    ReachableOn(s, [step]);
  }

  lemma ReachableInv(s: State)
    requires Reachable(s)
    ensures Inv(s)
  {
    var steps :| Possible(Init(), steps) && s == After(Init(), steps);
    RunInv(Init(), steps);
  }

  /**
   * At most once: two dispatches never consume bytes of the same call, whatever retries,
   * failures and interleavings came before, and what a dispatch consumes is one whole frame.
   */
  lemma AtMostOnce(s: State, d: nat, i: nat, e: nat, j: nat)
    requires Reachable(s) && d < |s.log| && e < |s.log| && i < |s.log[d].request| && j < |s.log[e].request|
    ensures s.log[d].request[i].from == s.log[e].request[j].from ==> d == e
    ensures s.log[d].request[i].from < |s.calls| && s.log[d].request == FrameOf(s, s.log[d].request[i].from)
  {
    ReachableInv(s);
    assert LogOk(s, d) && LogOk(s, e);
    assert d < e ==> OtherCaller(s, d, e);
    assert e < d ==> OtherCaller(s, e, d);
  }

  /** The request of call c was dispatched exactly once, and this was the reply. */
  ghost predicate AnsweredOnce(s: State, c: nat, reply: seq<Byte>) {
    c < |s.calls|
    && exists e {:trigger Answers(s, c, e, reply)} ::
      Answers(s, c, e, reply) && forall d | 0 <= d < |s.log| && s.log[d].request == FrameOf(s, c) :: d == e
  }

  /** A call that returns was dispatched exactly once, and returns the reply to its own request. */
  lemma ReplyMatches(s: State, c: nat)
    requires Reachable(s) && c < |s.calls| && s.calls[c].phase.Answered?
    ensures AnsweredOnce(s, c, s.calls[c].phase.reply)
  {
    ReachableInv(s);
    assert CallOk(s, c);
    var e: nat :| Answers(s, c, e, s.calls[c].phase.reply);
    forall d | 0 <= d < |s.log| && s.log[d].request == FrameOf(s, c)
      ensures d == e
    {
      AtMostOnce(s, d, 0, e, 0);
    }
  }

  /** As long as a call may still retry, every socket it used has accepted only a strict prefix of its frame. */
  lemma FailedAttemptsFallShort(s: State, k: nat)
    requires Reachable(s) && k < |s.conns|
    ensures s.conns[k].tenant < |s.calls|
    ensures !s.calls[s.conns[k].tenant].phase.Past() ==>
              s.conns[k].sent < |FrameOf(s, s.conns[k].tenant)| && s.conns[k].served.None?
  {
    ReachableInv(s);
    assert ConnOk(s, k);
  }

  /** Lock-step framing towards the server: unread bytes end what was sent of one frame. */
  lemma RequestLockStep(s: State, k: nat)
    requires Reachable(s) && k < |s.conns| && !s.conns[k].server.Gone?
    ensures var q := s.conns[k];
            && q.tenant < |s.calls| && q.sent <= |FrameOf(s, q.tenant)| && |q.c2s| <= q.sent
            && q.c2s == FrameOf(s, q.tenant)[q.sent - |q.c2s|..q.sent]
            && (q.server.Reading? ==>
                  && q.server.head + q.server.body == FrameOf(s, q.tenant)[..q.sent - |q.c2s|]
                  && q.server.left + |q.server.body| == |s.calls[q.tenant].request|)
  {
    ReachableInv(s);
    assert ConnOk(s, k);
    var q := s.conns[k];
    if q.served.None? {
      var f, taken := FrameOf(s, q.tenant)[..q.sent], q.server.Taken();
      assert |taken + q.c2s| == |f|;
      assert f[|taken|..] == q.c2s && f[..|taken|] == taken;
    }
  }

  /** Lock-step framing towards the client: what it read and what is queued start one reply frame. */
  lemma ReplyLockStep(s: State, c: nat)
    requires Reachable(s) && c < |s.calls| && (s.calls[c].phase.AwaitHead? || s.calls[c].phase.AwaitBody?)
    ensures var p := s.calls[c].phase;
            && p.sock < |s.conns|
            && (s.conns[p.sock].served.None? ==> p.AwaitHead? && s.conns[p.sock].s2c == [])
            && (s.conns[p.sock].served.Some? ==>
                  && s.conns[p.sock].served.value < |s.log|
                  && s.log[s.conns[p.sock].served.value].request == FrameOf(s, c)
                  && p.Got() + s.conns[p.sock].s2c <= Frame(s.log[s.conns[p.sock].served.value].reply))
  {
    ReachableInv(s);
    var p := s.calls[c].phase;
    assert CallOk(s, c) && ConnOk(s, p.sock);
    var q := s.conns[p.sock];
    if q.served.Some? {
      RepliedPart(q, p.Got(), Frame(s.log[q.served.value].reply));
    }
  }

  /** For any chunking the unsigned counters of both read loops count down to zero without wrapping. */
  lemma NoUnderflow(s: State, step: Step)
    requires Reachable(s) && Enabled(s, step)
    ensures step.TakeBody? ==> step.n <= s.conns[step.k].server.left
    ensures step.RecvBody? ==> step.n <= s.calls[step.c].phase.left
  {
    ReachableInv(s);
    if step.TakeBody? {
      TakeBodyFits(s, step.k, step.n);
    }
    if step.RecvBody? {
      RecvBodyFits(s, step.c, step.n);
    }
  }

  /** The message job reassembles is the message some call sent. */
  lemma ReassembledIsSent(s: State, k: nat, reply: Message)
    requires Reachable(s) && Enabled(s, Serve(k, reply))
    ensures s.conns[k].tenant < |s.calls| && Values(s.conns[k].server.body) == s.calls[s.conns[k].tenant].request
    ensures forall i | 0 <= i < |s.conns[k].server.body| :: s.conns[k].server.body[i].from == s.conns[k].tenant
  {
    ReachableInv(s);
    ServeFrame(s, k, reply);
    var q := s.conns[k];
    forall i | 0 <= i < |q.server.body|
      ensures q.server.body[i].from == q.tenant
    {
      assert ConnOk(s, k);
      assert q.server.body[i] == (q.server.head + q.server.body)[4 + i] == FrameOf(s, q.tenant)[4 + i];
    }
  }

  /**
   * Pool discipline: an open socket is in the pool once and with no caller, or with exactly one
   * caller and not in the pool; a closed socket is in neither place; a pooled socket has no
   * request outstanding and nothing unread.
   */
  lemma PoolDiscipline(s: State, k: nat)
    requires Reachable(s) && k < |s.conns|
    ensures NoDup(s.pool)
    ensures s.conns[k].open && k !in s.pool ==>
              exists c: nat :: Holds(s, c, k) && forall d: nat | Holds(s, d, k) :: d == c
    ensures !s.conns[k].open || k in s.pool ==> forall d: nat :: !Holds(s, d, k)
    ensures k in s.pool ==>
              && s.conns[k].open && s.conns[k].c2s == [] && s.conns[k].s2c == []
              && (s.conns[k].server.Ready? || s.conns[k].server.Gone?)
  {
    ReachableInv(s);
    var q := s.conns[k];
    assert ConnOk(s, k);
    forall d: nat | Holds(s, d, k)
      ensures d == q.tenant && q.open && k !in s.pool
    {
      assert CallOk(s, d);
    }
    if q.open && k !in s.pool {
      assert Holds(s, q.tenant, k);
    }
    if k in s.pool {
      assert PoolOk(s, k);
    }
  }

  /** A socket that was closed is never opened or pooled again. */
  lemma {:induction false} ClosedForGood(s: State, steps: seq<Step>, k: nat)
    requires Inv(s) && Possible(s, steps) && k < |s.conns| && !s.conns[k].open
    ensures k < |After(s, steps).conns| && !After(s, steps).conns[k].open && k !in After(s, steps).pool
    decreases |steps|
  {
    if steps == [] {
      assert k in s.pool ==> PoolOk(s, k);
    } else {
      StepInv(s, steps[0]);
      ClosedForGood(Apply(s, steps[0]), steps[1..], k);
    }
  }

  // ---- A run with a retry ----

  lemma Go(s: State, step: Step) returns (t: State)
    requires Reachable(s) && Enabled(s, step)
    ensures t == Apply(s, step) && Reachable(t)
  {
    ReachableNext(s, step);
    t := Apply(s, step);
  }

  lemma SmallFrame(x: Byte)
    ensures Frame([x]) == [0, 0, 0, 1, x] && Length([0, 0, 0, 1]) == 1
  {
  }

  /** The first connection takes two bytes and then fails. */
  lemma CutShort() returns (s: State)
    ensures Reachable(s) && s.calls == [Call([7], Fetching(0))] && s.pool == [] && s.log == []
    ensures |s.conns| == 1 && !s.conns[0].open && s.conns[0].sent == 2
  {
    InitReachable();
    s := Go(Init(), Invoke([7]));
    s := Go(s, Miss(0));
    s := Go(s, Connect(0));
    s := Go(s, Push(0, 2));
    s := Go(s, Abandon(0));
  }

  /** The second one takes the whole frame. */
  lemma SentAgain() returns (s: State)
    ensures Reachable(s) && s.calls == [Call([7], AwaitHead(1))] && s.pool == [] && s.log == []
    ensures |s.conns| == 2 && !s.conns[0].open && s.conns[0].sent == 2
    ensures s.conns[1] == Conn(Mark([0, 0, 0, 1, 7], 0), [], true, Ready, 0, 5, None)
  {
    s := CutShort();
    s := Go(s, Miss(0));
    s := Go(s, Connect(0));
    SmallFrame(7);
    assert FrameOf(s, 0) == Mark([0, 0, 0, 1, 7], 0) && FrameOf(s, 0)[0..5] == FrameOf(s, 0);
    s := Go(s, Push(0, 5));
  }

  lemma ReadThere() returns (s: State)
    ensures Reachable(s) && s.calls == [Call([7], AwaitHead(1))] && s.pool == [] && s.log == []
    ensures |s.conns| == 2 && !s.conns[0].open && s.conns[0].sent == 2
    ensures s.conns[1].(c2s := [], server := Ready) == Conn([], [], true, Ready, 0, 5, None)
    ensures s.conns[1].server == Reading(0, Mark([0, 0, 0, 1], 0), Mark([7], 0))
  {
    s := SentAgain();
    SmallFrame(7);
    var f := Mark([0, 0, 0, 1, 7], 0);
    assert f[..4] == Mark([0, 0, 0, 1], 0) && f[4..] == Mark([7], 0) && Values(f[..4]) == [0, 0, 0, 1];
    s := Go(s, TakeHead(1, 4));
    assert f[4..][..1] == Mark([7], 0) && [] + Mark([7], 0) == Mark([7], 0);
    s := Go(s, TakeBody(1, 1));
  }

  lemma ServedThere() returns (s: State)
    ensures Reachable(s) && s.calls == [Call([7], AwaitHead(1))] && s.pool == [] && |s.log| == 1
    ensures |s.conns| == 2 && !s.conns[0].open && s.conns[0].sent == 2
    ensures s.conns[1].s2c == [0, 0, 0, 1, 9]
  {
    s := ReadThere();
    SmallFrame(9);
    s := Go(s, Serve(1, [9]));
    assert [] + Frame([9])[..5] == [0, 0, 0, 1, 9];
    s := Go(s, Reply(1, 5));
  }

  /** A call whose first attempt is cut short gets its reply through the second, with one dispatch. */
  lemma RetrySucceeds() returns (s: State)
    ensures Reachable(s) && s.calls == [Call([7], Answered([9]))] && |s.log| == 1
    ensures |s.conns| == 2 && !s.conns[0].open && s.conns[0].sent == 2 && s.pool == [1]
  {
    s := ServedThere();
    SmallFrame(9);
    assert s.conns[1].s2c[..4] == [0, 0, 0, 1] && s.conns[1].s2c[4..] == [9];
    s := Go(s, RecvHead(0, 4));
    assert s.conns[1].s2c[..1] == [9] && [] + [9] == [9];
    s := Go(s, RecvBody(0, 1));
    s := Go(s, Finish(0));
  }
}
