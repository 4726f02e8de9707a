/**
 * The code of SocketListener.cpp that runs the protocol: SocketPool, SocketListener::send and
 * ServerThread::job, each shown to take only steps of the transition system in Rpc.dfy.
 *
 * world is the state of the sockets and of all threads. Before each of its own actions a thread
 * lets the others run for as long as they like.
 */
module Sockets {
  import opened Basics
  import opened Frames
  import opened Rpc

  /** The call that takes a step, if a call does. */
  function Actor(step: Step): Option<nat> {
    match step
    case Get(c) => Some(c)
    case Miss(c) => Some(c)
    case Connect(c) => Some(c)
    case Refused(c) => Some(c)
    case Push(c, _) => Some(c)
    case Abandon(c) => Some(c)
    case RecvHead(c, _) => Some(c)
    case RecvBody(c, _) => Some(c)
    case Lose(c) => Some(c)
    case Finish(c) => Some(c)
    case _ => None
  }

  /** The connection whose worker takes a step, if a worker does. */
  function WorkerOf(step: Step): Option<nat> {
    match step
    case TakeHead(k, _) => Some(k)
    case TakeBody(k, _) => Some(k)
    case Serve(k, _) => Some(k)
    case Reply(k, _) => Some(k)
    case Quit(k) => Some(k)
    case _ => None
  }

  predicate NotBy(steps: seq<Step>, c: nat) {
    forall i | 0 <= i < |steps| :: Actor(steps[i]) != Some(c)
  }

  predicate NotByWorker(steps: seq<Step>, k: nat) {
    forall i | 0 <= i < |steps| :: WorkerOf(steps[i]) != Some(k)
  }

  /** What a call can rely on while others run: its own phase and the tenure of its socket. */
  ghost predicate CallSteady(s: State, t: State, c: nat) {
    && c < |s.calls| && c < |t.calls| && t.calls[c] == s.calls[c]
    && forall k: nat {:trigger SameTenure(s, t, k)} | s.calls[c].phase.On(k) :: SameTenure(s, t, k)
  }

  /** The socket another call works on, or is about to get, is not the one in use here. */
  lemma ActorElsewhere(s: State, step: Step, c: nat, d: nat, k: nat)
    requires Inv(s) && Enabled(s, step) && Actor(step) == Some(d) && c < |s.calls| && d != c && s.calls[c].phase.On(k)
    ensures Owns(s, c, k) && d < |s.calls| && !s.calls[d].phase.On(k)
    ensures step.Get? ==> s.pool[|s.pool| - 1] != k
  {
    assert CallOk(s, c) && CallOk(s, d);
  }

  /** A step of somebody else leaves the tenure of a socket in use alone. */
  lemma StepTenure(s: State, step: Step, c: nat, k: nat)
    requires Inv(s) && Enabled(s, step) && c < |s.calls| && Actor(step) != Some(c) && s.calls[c].phase.On(k)
    ensures SameTenure(s, Apply(s, step), k)
  {
    if Actor(step).Some? {
      ActorElsewhere(s, step, c, Actor(step).value, k);
    } else if step.Serve? {
      assert CallOk(s, c) && ConnOk(s, step.k);
    } else {
      assert CallOk(s, c);
    }
  }

  lemma StepSteady(s: State, step: Step, c: nat)
    requires Inv(s) && Enabled(s, step) && c < |s.calls| && Actor(step) != Some(c)
    ensures CallSteady(s, Apply(s, step), c)
  {
    forall k: nat | s.calls[c].phase.On(k)
      ensures SameTenure(s, Apply(s, step), k)
    {
      StepTenure(s, step, c, k);
    }
  }

  lemma {:induction false} RunSteady(s: State, steps: seq<Step>, c: nat)
    requires Inv(s) && Possible(s, steps) && c < |s.calls| && NotBy(steps, c)
    ensures CallSteady(s, After(s, steps), c)
    decreases |steps|
  {
    if steps == [] {
      assert CallOk(s, c);
    } else {
      StepSteady(s, steps[0], c);
      StepInv(s, steps[0]);
      RunSteady(Apply(s, steps[0]), steps[1..], c);
      forall k: nat | s.calls[c].phase.On(k)
        ensures SameTenure(s, After(s, steps), k)
      {
        assert SameTenure(s, Apply(s, steps[0]), k);
        assert SameTenure(Apply(s, steps[0]), After(s, steps), k);
      }
    }
  }

  /** What a worker can rely on while others run: its own state; nobody else takes from its queue. */
  ghost predicate WorkerSteady(s: State, t: State, k: nat) {
    && k < |s.conns| && k < |t.conns| && t.conns[k].server == s.conns[k].server
    && s.conns[k].c2s <= t.conns[k].c2s && s.log <= t.log
  }

  lemma StepWorkerSteady(s: State, step: Step, k: nat)
    requires Enabled(s, step) && k < |s.conns| && WorkerOf(step) != Some(k)
    ensures WorkerSteady(s, Apply(s, step), k)
  {
  }

  lemma {:induction false} RunWorkerSteady(s: State, steps: seq<Step>, k: nat)
    requires Possible(s, steps) && k < |s.conns| && NotByWorker(steps, k)
    ensures WorkerSteady(s, After(s, steps), k)
    decreases |steps|
  {
    if steps == [] {
    } else {
      StepWorkerSteady(s, steps[0], k);
      RunWorkerSteady(Apply(s, steps[0]), steps[1..], k);
    }
  }

  /** A call that sends owns its socket. */
  lemma OwnsSent(s: State, c: nat)
    requires Reachable(s) && c < |s.calls| && s.calls[c].phase.Sending?
    ensures Owns(s, c, s.calls[c].phase.sock)
  {
    ReachableInv(s);
    assert CallOk(s, c);
  }

  /** What can go wrong with a system call; an interrupted one that is repeated is no trouble. */
  datatype Trouble = NoConnection | Closed | ShortLength | ShortSend | FailedRead

  class Process {
    var world: State
    var pool: seq<nat>                // SocketPool::m_pool
    var signals: nat                  // how many more system calls will be interrupted
    ghost var troubles: seq<Trouble>  // what has gone wrong with the system calls so far

    ghost predicate Valid()
      reads this
    {
      Reachable(world) && pool == world.pool
    }

    /** Call c is in phase p. */
    ghost predicate In(c: nat, p: Phase)
      reads this
    {
      c < |world.calls| && world.calls[c].phase == p
    }

    /** The socket is call c's alone, open, out of the pool, and nothing was sent of this request. */
    ghost predicate Unused(c: nat, sock: nat)
      reads this
    {
      Owns(world, c, sock) && world.conns[sock].sent == 0
    }

    constructor (signals: nat)
      ensures Valid() && world == Init() && troubles == []
    {
      world, pool := Init(), [];
      this.signals, troubles := signals, [];
      new;
      InitReachable();
    }

    /** One step of the transition system. */
    method Take(step: Step)
      requires Reachable(world) && Enabled(world, step)
      modifies this`world
      ensures Reachable(world) && world == Apply(old(world), step)
    {
      ReachableNext(world, step);
      world := Apply(world, step);
    }

    /** Everybody but call c runs. */
    method Others(c: nat)
      requires Valid() && c < |world.calls|
      modifies this`world, this`pool
      ensures Valid() && CallSteady(old(world), world, c)
    {
      var steps: seq<Step> := *;
      if !Possible(world, steps) || !NotBy(steps, c) {
        steps := [];
      }
      ReachableInv(world);
      RunSteady(world, steps, c);
      ReachableOn(world, steps);
      world := After(world, steps);
      pool := world.pool;
    }

    /** Everybody but the worker of connection k runs. */
    method OthersThanWorker(k: nat)
      requires Valid() && k < |world.conns|
      modifies this`world, this`pool
      ensures Valid() && WorkerSteady(old(world), world, k)
    {
      var steps: seq<Step> := *;
      if !Possible(world, steps) || !NotByWorker(steps, k) {
        steps := [];
      }
      RunWorkerSteady(world, steps, k);
      ReachableOn(world, steps);
      world := After(world, steps);
      pool := world.pool;
    }

    // ---- SocketPool ----

    /**
     * SocketPool::connect: None is the exception. The answers are those of the operating system
     * to the creation of the socket and to the attempts to connect it.
     */
    method Connect(c: nat, r: nat, created: bool, answers: seq<bool>) returns (sock: Option<nat>, tries: nat)
      requires Valid() && In(c, Connecting(r)) && |answers| == 3
      modifies this
      ensures Valid() && c < |world.calls| && world.calls[c].request == old(world.calls[c].request)
      ensures sock.Some? <==> created && true in answers
      ensures tries <= 3 && (sock.Some? ==> 0 < tries && answers[tries - 1] && true !in answers[..tries - 1])
      ensures sock.Some? ==> In(c, Sending(sock.value, r)) && sock.value + 1 == |world.conns| && Unused(c, sock.value)
      ensures sock.None? ==> In(c, Failed)
      ensures troubles == old(troubles) + if sock.Some? then [] else [NoConnection]
    {
      tries := 0;
      var connected := false;
      if created {
        var i := 2;
        while i >= 0 && !connected
          invariant Valid() && -1 <= i <= 2 && (if connected then 0 < tries <= 3 && tries == 3 - i else tries == 2 - i)
          invariant In(c, Connecting(r)) && world.calls[c].request == old(world.calls[c].request)
          invariant true !in answers[..if connected then tries - 1 else tries]
          invariant (connected ==> answers[tries - 1]) && troubles == old(troubles)
          decreases i, !connected
        {
          Others(c);
          connected := answers[tries];
          tries := tries + 1;
          if !connected {
            i := i - 1;
          }
        }
      }
      if connected {
        sock := Some(|world.conns|);
        Take(Step.Connect(c));
        OwnsSent(world, c);
      } else {
        sock := None;
        troubles := troubles + [NoConnection];
        Take(Refused(c));
      }
    }

    /**
     * SocketPool::get; found is the state in which it looked at the pool. A pooled socket is the top
     * of the stack and is popped; with an empty pool the socket is the newest connection.
     */
    method Get(c: nat, r: nat) returns (sock: Option<nat>, ghost found: State)
      requires Valid() && In(c, Fetching(r))
      modifies this
      ensures Valid() && c < |world.calls| && world.calls[c].request == old(world.calls[c].request)
      ensures CallSteady(old(world), found, c)
      ensures found.pool != [] ==> sock == Some(found.pool[|found.pool| - 1]) && pool + [sock.value] == found.pool
      ensures found.pool == [] && sock.Some? ==> sock.value + 1 == |world.conns|
      ensures sock.Some? ==> In(c, Sending(sock.value, r)) && Unused(c, sock.value)
      ensures sock.None? ==> In(c, Failed)
      ensures troubles == old(troubles) + if sock.Some? then [] else [NoConnection]
    {
      Others(c);
      found := world;
      if pool == [] {
        Take(Miss(c));
        var created: bool := *;
        var first: bool, second: bool, third: bool := *, *, *;
        var tries;
        sock, tries := Connect(c, r, created, [first, second, third]);
        return;
      }
      var ret := pool[|pool| - 1];
      ReachableInv(world);
      assert ret in world.pool && PoolOk(world, ret);
      pool := pool[..|pool| - 1];
      Take(Step.Get(c));
      sock := Some(ret);
      OwnsSent(world, c);
    }

    /** SocketPool::put: the socket becomes the top of the stack. */
    method Put(c: nat, sock: nat, head: seq<Byte>, body: seq<Byte>)
      requires Valid() && In(c, AwaitBody(sock, 0, head, body))
      modifies this
      ensures Valid() && In(c, Answered(body)) && world.calls[c].request == old(world.calls[c].request)
      ensures pool != [] && pool[|pool| - 1] == sock && troubles == old(troubles)
    {
      Others(c);
      pool := pool + [sock];
      Take(Finish(c));
    }

    // ---- System calls of a client ----

    /** send(2), repeated until all is accepted or something is wrong: b is the next part of the frame. */
    method SendBytes(c: nat, sock: nat, r: nat, b: seq<Byte>) returns (n: int)
      requires Valid() && In(c, Sending(sock, r)) && sock < |world.conns| && b != []
      requires world.conns[sock].sent + |b| <= |Frame(world.calls[c].request)|
      requires b == Frame(world.calls[c].request)[world.conns[sock].sent..world.conns[sock].sent + |b|]
      modifies this
      ensures Valid() && c < |world.calls| && world.calls[c].request == old(world.calls[c].request)
      ensures -1 <= n <= |b| && sock < |world.conns|
      ensures world.conns[sock].sent == old(world.conns[sock].sent) + if n < 0 then 0 else n
      ensures In(c, if world.conns[sock].sent == |Frame(world.calls[c].request)| then AwaitHead(sock)
              else Sending(sock, r))
      ensures troubles == old(troubles) + if n == |b| then [] else [ShortSend]
    {
      n := 0;
      while n < |b|
        invariant troubles == old(troubles)
        invariant 0 <= n <= |b| && Valid() && c < |world.calls| && world.calls[c].request == old(world.calls[c].request)
        invariant sock < |world.conns| && world.conns[sock].sent == old(world.conns[sock].sent) + n
        invariant In(c, if world.conns[sock].sent == |Frame(world.calls[c].request)| then AwaitHead(sock)
                  else Sending(sock, r))
      {
        ghost var before := world;
        Others(c);
        assert SameTenure(before, world, sock);
        var stop: bool := *;
        if stop {
          troubles := troubles + [ShortSend];
          return if n == 0 then -1 else n;
        }
        var m: nat :| 0 < m <= |b| - n;
        Take(Push(c, m));
        n := n + m;
      }
    }

    /** recv(2) of the reply length. */
    method RecvLength(c: nat, sock: nat) returns (n: nat, head: seq<Byte>, interrupted: bool)
      requires Valid() && In(c, AwaitHead(sock))
      modifies this
      ensures Valid() && c < |world.calls| && world.calls[c].request == old(world.calls[c].request)
      ensures n <= 4 && (n == 4 ==> |head| == 4 && In(c, AwaitBody(sock, Length(head), head, [])))
      ensures n < 4 ==> In(c, AwaitHead(sock)) && sock < |world.conns|
      ensures interrupted ==> n < 4 && signals < old(signals)
      ensures signals <= old(signals)
      ensures troubles == old(troubles) + if n == 4 || interrupted then [] else [ShortLength]
    {
      Others(c);
      ReachableInv(world);
      assert CallOk(world, c);
      var arrived: bool := *;
      interrupted, head, n := false, [], 0;
      if arrived && |world.conns[sock].s2c| >= 4 {
        head := world.conns[sock].s2c[..4];
        n := 4;
        Take(RecvHead(c, 4));
        return;
      }
      interrupted := *;
      if interrupted && signals > 0 {
        signals := signals - 1;
      } else {
        interrupted := false;
        n :| 0 <= n < 4;
        troubles := troubles + [ShortLength];
      }
    }

    /** recv(2) of part of the reply: no bytes means an error or the end of the stream. */
    method RecvPart(c: nat, sock: nat, left: nat, head: seq<Byte>, body: seq<Byte>)
      returns (b: seq<Byte>, interrupted: bool)
      requires Valid() && In(c, AwaitBody(sock, left, head, body)) && left != 0
      modifies this
      ensures Valid() && c < |world.calls| && world.calls[c].request == old(world.calls[c].request)
      ensures |b| <= CHUNK && |b| <= left && Minus(left, |b|) == left - |b|
      ensures In(c, AwaitBody(sock, left - |b|, head, body + b)) && sock < |world.conns|
      ensures interrupted ==> b == [] && signals < old(signals)
      ensures signals <= old(signals)
      ensures troubles == old(troubles) + if b != [] || interrupted then [] else [FailedRead]
    {
      Others(c);
      ReachableInv(world);
      assert CallOk(world, c);
      var n: nat := *;
      b, interrupted := [], false;
      if 0 < n <= CHUNK && n <= |world.conns[sock].s2c| {
        RecvBodyFits(world, c, n);
        b := world.conns[sock].s2c[..n];
        Take(RecvBody(c, n));
        return;
      }
      assert left < WIDTH && body + [] == body;
      interrupted := *;
      if interrupted && signals > 0 {
        signals := signals - 1;
      } else {
        interrupted := false;
        troubles := troubles + [FailedRead];
      }
    }

    // ---- SocketListener::send ----

    /**
     * The retry loop: get a socket and push the whole frame through it. It gives up only when there is
     * no connection or a second send comes up short.
     */
    method Deliver(c: nat, request: Message) returns (sock: Option<nat>, ghost met: seq<Trouble>)
      requires Valid() && In(c, Fetching(1)) && world.calls[c].request == request && request != []
      modifies this
      ensures Valid() && c < |world.calls| && world.calls[c].request == request
      ensures In(c, if sock.Some? then AwaitHead(sock.value) else Failed)
      ensures troubles == old(troubles) + met
      ensures sock.Some? <==> met == [] || met == [ShortSend]
      ensures sock.None? <==> met == [NoConnection] || met == [ShortSend, NoConnection] || met == [ShortSend, ShortSend]
    {
      var retry := 1;
      sock, met := None, [];
      while retry >= 0
        invariant troubles == old(troubles) + met
        invariant retry == 1 ==> met == []
        invariant retry == 0 ==> met == [ShortSend]
        invariant retry == -1 ==> met == [] || met == [ShortSend]
        invariant -1 <= retry <= 1 && Valid() && c < |world.calls| && world.calls[c].request == request
        invariant if retry >= 0 then In(c, Fetching(retry)) else sock.Some? && In(c, AwaitHead(sock.value))
        decreases retry
      {
        ghost var found;
        sock, found := Get(c, retry);
        if sock.None? {
          met := met + [NoConnection];
          assert met[|met| - 1] == NoConnection;
          return;
        }
        var sent := Attempt(c, sock.value, retry, request);
        if !sent {
          Take(Abandon(c));
          met := met + [ShortSend];
          if retry > 0 {
            retry := retry - 1;
          } else {
            return None, met;
          }
        } else {
          retry := -1;
        }
      }
    }

    /** The length, then the message. */
    method Attempt(c: nat, sock: nat, r: nat, request: Message) returns (sent: bool)
      requires Valid() && In(c, Sending(sock, r)) && sock < |world.conns| && world.conns[sock].sent == 0
      requires world.calls[c].request == request && request != []
      modifies this
      ensures Valid() && c < |world.calls| && world.calls[c].request == request && sock < |world.conns|
      ensures In(c, if sent then AwaitHead(sock) else Sending(sock, r))
      ensures troubles == old(troubles) + if sent then [] else [ShortSend]
    {
      var len := Header(|request|);
      assert Frame(request)[0..4] == len && Frame(request)[4..4 + |request|] == request;
      var n := SendBytes(c, sock, r, len);
      sent := false;
      if n == 4 {
        n := SendBytes(c, sock, r, request);
        sent := n == |request|;
      }
    }

    /** The second loop of the reply: left is what the counter says when it stops, zero unless a read failed. */
    method ReadBody(c: nat, sock: nat, head: seq<Byte>, request: Message) returns (input: seq<Byte>, left: nat)
      requires Valid() && |head| == 4 && In(c, AwaitBody(sock, Length(head), head, []))
      requires world.calls[c].request == request
      modifies this
      ensures Valid() && c < |world.calls| && world.calls[c].request == request
      ensures In(c, AwaitBody(sock, left, head, input))
      ensures troubles == old(troubles) + if left == 0 then [] else [FailedRead]
    {
      input, left := [], Length(head);
      while left != 0
        invariant troubles == old(troubles)
        invariant Valid() && c < |world.calls| && world.calls[c].request == request
        invariant In(c, AwaitBody(sock, left, head, input))
        decreases left, signals
      {
        var b, again := RecvPart(c, sock, left, head, input);
        if b != [] {
          input := input + b;
          left := Minus(left, |b|);
        } else if !again {
          break;
        }
      }
    }

    /** The first loop of the reply: no length after a read that came up short. */
    method ReadLength(c: nat, sock: nat, request: Message) returns (head: Option<seq<Byte>>)
      requires Valid() && In(c, AwaitHead(sock)) && world.calls[c].request == request
      modifies this
      ensures Valid() && c < |world.calls| && world.calls[c].request == request
      ensures head.Some? ==> |head.value| == 4 && In(c, AwaitBody(sock, Length(head.value), head.value, []))
      ensures head.None? ==> In(c, AwaitHead(sock)) && sock < |world.conns|
      ensures troubles == old(troubles) + if head.Some? then [] else [ShortLength]
    {
      var n, len, interrupted := RecvLength(c, sock);
      while n != 4 && interrupted
        invariant troubles == old(troubles) + if n == 4 || interrupted then [] else [ShortLength]
        invariant n <= 4 && Valid() && c < |world.calls| && world.calls[c].request == request
        invariant
          if n == 4 then |len| == 4 && In(c, AwaitBody(sock, Length(len), len, []))
          else In(c, AwaitHead(sock)) && sock < |world.conns|
        decreases n != 4, signals + if interrupted then 1 else 0
      {
        n, len, interrupted := RecvLength(c, sock);
      }
      head := if n == 4 then Some(len) else None;
    }

    /**
     * Reading the reply: the socket ends on top of the pool, or closed. The reply is lost exactly when
     * a read fails or the length comes up short.
     */
    method ReadReply(c: nat, sock: nat, request: Message)
      returns (reply: Option<seq<Byte>>, ghost met: seq<Trouble>)
      requires Valid() && In(c, AwaitHead(sock)) && world.calls[c].request == request
      modifies this
      ensures Valid() && c < |world.calls| && world.calls[c].request == request
      ensures In(c, if reply.Some? then Answered(reply.value) else Failed)
      ensures reply.Some? ==> pool != [] && pool[|pool| - 1] == sock
      ensures reply.None? ==> sock < |world.conns| && !world.conns[sock].open
      ensures troubles == old(troubles) + met
      ensures reply.Some? <==> met == []
      ensures reply.None? <==> met == [ShortLength] || met == [FailedRead]
    {
      var head := ReadLength(c, sock, request);
      if head.None? {
        Take(RecvHead(c, 0));
        return None, [ShortLength];
      }
      var input, left := ReadBody(c, sock, head.value, request);
      if left != 0 {
        ReachableInv(world);
        assert CallOk(world, c);
        Take(Lose(c));
        return None, [FailedRead];
      }
      Put(c, sock, head.value, input);
      return Some(input), [];
    }

    /**
     * SocketListener::send: a reply it returns is the one produced by the only dispatch of this
     * request; None is an exception, which there is exactly when more went wrong than one short send.
     */
    method Send(request: Message) returns (reply: Option<seq<Byte>>, c: nat, ghost met: seq<Trouble>)
      requires Valid() && request != []
      modifies this
      ensures Valid() && c < |world.calls| && world.calls[c].request == request
      ensures In(c, if reply.Some? then Answered(reply.value) else Failed)
      ensures reply.Some? ==> AnsweredOnce(world, c, reply.value)
      ensures troubles == old(troubles) + met
      ensures reply.Some? <==> met == [] || met == [ShortSend]
    {
      c := |world.calls|;
      Take(Invoke(request));
      var sock;
      sock, met := Deliver(c, request);
      if sock.None? {
        return None, c, met;
      }
      ghost var more;
      reply, more := ReadReply(c, sock.value, request);
      met := met + more;
      assert more != [] ==> met[|met| - 1] == more[0];
      if reply.Some? {
        ReplyMatches(world, c);
      }
    }

    // ---- ServerThread ----

    /** The worker of connection k is in state v. */
    ghost predicate WorkerIn(k: nat, v: Server)
      reads this
    {
      k < |world.conns| && world.conns[k].server == v
    }

    /** recv(2) of the request length; the bytes of a short read are lost with the connection. */
    method TakeLength(k: nat) returns (n: nat, head: seq<Octet>)
      requires Valid() && WorkerIn(k, Ready)
      modifies this
      ensures Valid() && n <= 4
      ensures n == 4 ==> |head| == 4 && WorkerIn(k, Reading(Length(Values(head)), head, []))
      ensures n < 4 ==> WorkerIn(k, Ready)
      ensures old(world.log) <= world.log
      ensures troubles == old(troubles) + if n == 4 then [] else if n == 0 then [Closed] else [ShortLength]
    {
      OthersThanWorker(k);
      var arrived: bool := *;
      n, head := 0, [];
      if arrived && |world.conns[k].c2s| >= 4 {
        head := world.conns[k].c2s[..4];
        n := 4;
        Take(TakeHead(k, 4));
      } else {
        n :| 0 <= n < 4;
        troubles := troubles + if n == 0 then [Closed] else [ShortLength];
      }
    }

    /** recv(2) of part of the request: no bytes means an error or the end of the stream. */
    method TakePart(k: nat, left: nat, head: seq<Octet>, body: seq<Octet>) returns (b: seq<Octet>)
      requires Valid() && WorkerIn(k, Reading(left, head, body)) && left != 0
      modifies this
      ensures Valid() && |b| <= CHUNK && |b| <= left
      ensures b != [] ==> Minus(left, |b|) == left - |b|
      ensures WorkerIn(k, Reading(left - |b|, head, body + b))
      ensures old(world.log) <= world.log
      ensures troubles == old(troubles) + if b != [] then [] else [FailedRead]
    {
      OthersThanWorker(k);
      var n: nat := *;
      b := [];
      if 0 < n <= CHUNK && n <= |world.conns[k].c2s| {
        ReachableInv(world);
        TakeBodyFits(world, k, n);
        b := world.conns[k].c2s[..n];
        Take(TakeBody(k, n));
      } else {
        assert body + [] == body;
        troubles := troubles + [FailedRead];
      }
    }

    /** send(2) of the next part of the reply frame. */
    method ReplyBytes(k: nat, b: seq<Byte>, ghost more: seq<Byte>) returns (n: int)
      requires Valid() && WorkerIn(k, if b + more == [] then Ready else Replying(b + more))
      modifies this
      ensures Valid() && -1 <= n <= |b| && k < |world.conns|
      ensures n == |b| ==> WorkerIn(k, if more == [] then Ready else Replying(more))
      ensures old(world.log) <= world.log
      ensures troubles == old(troubles) + if n == |b| then [] else [ShortSend]
    {
      n := 0;
      while n < |b|
        invariant troubles == old(troubles)
        invariant 0 <= n <= |b| && Valid() && old(world.log) <= world.log
        invariant WorkerIn(k, if b[n..] + more == [] then Ready else Replying(b[n..] + more))
      {
        OthersThanWorker(k);
        var stop: bool := *;
        if stop {
          troubles := troubles + [ShortSend];
          return if n == 0 then -1 else n;
        }
        var m: nat :| 0 < m <= |b| - n;
        assert (b[n..] + more)[m..] == b[n + m..] + more;
        Take(Step.Reply(k, m));
        n := n + m;
      }
      assert b[n..] + more == more;
    }

    /** SocketListener::receive on an unmarshalled request, including the reply job makes up for an exception. */
    method Receive(k: nat, head: seq<Octet>, body: seq<Octet>) returns (response: Message)
      requires Valid() && WorkerIn(k, Reading(0, head, body))
      modifies this
      ensures Valid() && WorkerIn(k, Replying(Frame(response)))
      ensures old(world.log) < world.log && world.log[|world.log| - 1] == Dispatch(head + body, response)
      ensures troubles == old(troubles)
    {
      OthersThanWorker(k);
      response := *;
      Take(Serve(k, response));
    }

    /**
     * ServerThread::job: 0 for success, 1 for a closed connection, -1 for an error; the result is fixed
     * by what went wrong with the system calls.
     */
    method Job(k: nat)
      returns (result: int, ghost request: seq<Octet>, ghost response: Message, ghost met: seq<Trouble>)
      requires Valid() && WorkerIn(k, Ready)
      modifies this
      ensures Valid() && k < |world.conns| && result in {-1, 0, 1}
      ensures result == 0 ==> WorkerIn(k, Ready)
      ensures result == 0 ==>
          exists e :: |old(world.log)| <= e < |world.log| && world.log[e] == Dispatch(request, response)
      ensures result == 0 ==> exists c: nat :: c < |world.calls| && request == FrameOf(world, c)
      ensures result == 1 ==> WorkerIn(k, Ready)
      ensures troubles == old(troubles) + met
      ensures result == 0 <==> met == []
      ensures result == 1 <==> met == [Closed]
      ensures result == -1 <==> met == [ShortLength] || met == [FailedRead] || met == [ShortSend]
    {
      request, response, met := [], [], [];
      var readlength, head := TakeLength(k);
      if readlength == 0 {
        return 1, request, response, [Closed];
      } else if readlength != 4 {
        return -1, request, response, [ShortLength];
      }
      var len := Length(Values(head));
      var input: seq<Octet> := [];
      while len != 0
        invariant troubles == old(troubles)
        invariant Valid() && WorkerIn(k, Reading(len, head, input)) && old(world.log) <= world.log
      {
        var b := TakePart(k, len, head, input);
        if b == [] {
          break;
        }
        input := input + b;
        len := Minus(len, |b|);
      }
      assert len != 0 ==> troubles == old(troubles) + [FailedRead];
      if len != 0 {
        return -1, request, response, [FailedRead];
      }
      var reply := Receive(k, head, input);
      request, response := head + input, reply;
      ghost var e := |world.log| - 1;
      var outlen := Header(|reply|);
      var n := ReplyBytes(k, outlen, reply);
      if n != 4 {
        return -1, request, response, [ShortSend];
      }
      n := ReplyBytes(k, reply, []);
      if n != |reply| {
        return -1, request, response, [ShortSend];
      }
      AtMostOnce(world, e, 0, e, 0);
      result := 0;
    }
  }
}
