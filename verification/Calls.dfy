/**
 * Remote calls end to end: the protocol of Rpc.dfy carrying the trees of Wire.dfy. What is proved
 * is that calling through the socket is calling the handler, up to the normal form of trees.
 */
module Calls {
  import opened Basics
  import opened Trees
  import opened Wire
  import opened Frames
  import opened Rpc
  import opened Records
  import opened Remoting
  import opened Responses

  /** Text as it is printed and as bytes; only that text can be got back from its bytes matters. */
  datatype Charset = Charset(codec: UrlCodec, bytes: string -> seq<Byte>, text: seq<Byte> -> string)

  ghost predicate CharsetOk(m: Charset) {
    CodecOk(m.codec) && forall s {:trigger m.bytes(s)} :: m.text(m.bytes(s)) == s
  }

  function Marshalled(m: Charset, t: Tree): seq<Byte> { m.bytes(Encode(m.codec, t)) }

  function Unmarshalled(m: Charset, b: seq<Byte>): Option<Tree> { Decode(m.codec, m.text(b)) }

  lemma Unmarshal(m: Charset, t: Tree)
    requires CharsetOk(m) && TreeOk(t)
    ensures Unmarshalled(m, Marshalled(m, t)) == Some(Normal(t))
  {
    WireRoundTrip(m.codec, t);
  }

  // ---- Handlers ----

  /** What a handler does with a message, and what the caller of send gets: a tree or an exception. */
  datatype Reaction = Gives(tree: Tree) | Throws(text: string)

  /** What the handler makes of the message of a dispatch; different dispatches may differ. */
  type Handler = (nat, Tree) -> Reaction

  /** The tree job prints: the answer, or a string named "exception". */
  function ReplyTree(r: Reaction): Tree {
    match r
    case Gives(t) => t
    case Throws(text) => Leaf(Some("exception"), SafeText(Some(text)))
  }

  /** An answer that send takes for an exception. */
  predicate LooksThrown(t: Tree) {
    t.value.Str? && t.value.text.Some? && t.name == Some("exception")
  }

  /** The end of send: a string named "exception" is raised. */
  function Outcome(t: Tree): Reaction {
    if LooksThrown(t) then Throws(t.value.text.value) else Gives(t)
  }

  /** An exception is raised with its text unless the text is empty; an answer is returned unless it looks like one. */
  lemma OutcomeExact(r: Reaction)
    ensures r.Throws? ==> (Outcome(Normal(ReplyTree(r))) == r <==> r.text != "")
    ensures r.Gives? ==> (Outcome(Normal(ReplyTree(r))) == Gives(Normal(r.tree)) <==> !LooksThrown(r.tree))
  {
  }

  // ---- Conversations ----

  /** A step in which callers send trees and workers answer with what the handler makes of theirs. */
  ghost predicate Talks(m: Charset, h: Handler, s: State, step: Step)
    requires Enabled(s, step)
  {
    match step
    case Invoke(request) => exists t {:trigger Marshalled(m, t)} :: TreeOk(t) && request == Marshalled(m, t)
    case Serve(k, reply) =>
      var input := Unmarshalled(m, Values(s.conns[k].server.body));
      input.Some? ==>
        var t := ReplyTree(h(|s.log|, input.value));
        TreeOk(t) && reply == Marshalled(m, t)
    case _ => true
  }

  /** A run in which all steps are of that kind. */
  ghost predicate Conversation(m: Charset, h: Handler, s: State, steps: seq<Step>)
    requires Possible(s, steps)
    decreases |steps|
  {
    steps == [] || (Talks(m, h, s, steps[0]) && Conversation(m, h, Apply(s, steps[0]), steps[1..]))
  }

  /** Call c was made with tree t. */
  ghost predicate Asks(m: Charset, s: State, c: nat, t: Tree) {
    c < |s.calls| && TreeOk(t) && s.calls[c].request == Marshalled(m, t)
  }

  ghost predicate Asked(m: Charset, s: State, c: nat) {
    exists t {:trigger Asks(m, s, c, t)} :: Asks(m, s, c, t)
  }

  /** Dispatch e had the tree of its caller as input, and its reply is the handler's. */
  ghost predicate Reacts(m: Charset, h: Handler, s: State, e: nat, t: Tree)
    requires e < |s.log|
  {
    var d := s.log[e];
    && |d.request| >= 4 && Unmarshalled(m, Values(d.request[4..])) == Some(Normal(t))
    && d.reply == Marshalled(m, ReplyTree(h(e, Normal(t)))) && TreeOk(ReplyTree(h(e, Normal(t))))
  }

  ghost predicate Exchanged(m: Charset, h: Handler, s: State) {
    && (forall c {:trigger Asked(m, s, c)} | 0 <= c < |s.calls| :: Asked(m, s, c))
    && (forall e, t {:trigger Reacts(m, h, s, e, t)} | 0 <= e < |s.log| && Asks(m, s, Caller(s.log[e]), t) ::
          Reacts(m, h, s, e, t))
  }

  /** No step touches the requests of calls or the entries of the log. */
  lemma HistoryGrows(s: State, step: Step)
    requires Enabled(s, step)
    ensures var t := Apply(s, step);
            && |t.calls| == |s.calls| + (if step.Invoke? then 1 else 0)
            && (forall c | 0 <= c < |s.calls| :: t.calls[c].request == s.calls[c].request)
            && s.log <= t.log && |t.log| == |s.log| + if step.Serve? then 1 else 0
  {
  }

  /** What a worker is about to dispatch is the tree of its caller. */
  lemma ServesTree(m: Charset, s: State, k: nat, reply: Message, t: Tree)
    requires CharsetOk(m) && Inv(s) && Enabled(s, Serve(k, reply)) && Asks(m, s, s.conns[k].tenant, t)
    ensures Unmarshalled(m, Values(s.conns[k].server.body)) == Some(Normal(t))
  {
    ServeFrame(s, k, reply);
    Unmarshal(m, t);
  }

  lemma ServeReacts(m: Charset, h: Handler, s: State, k: nat, reply: Message, t: Tree)
    requires CharsetOk(m) && Inv(s) && Enabled(s, Serve(k, reply)) && Talks(m, h, s, Serve(k, reply))
    requires Asks(m, s, Caller(Apply(s, Serve(k, reply)).log[|s.log|]), t)
    ensures Reacts(m, h, Apply(s, Serve(k, reply)), |s.log|, t)
  {
    var q := s.conns[k];
    ServeFrame(s, k, reply);
    assert ConnOk(s, k) && Unserved(s, k);
    assert (q.server.head + q.server.body)[0].from == q.tenant;
    assert (q.server.head + q.server.body)[4..] == q.server.body;
    ServesTree(m, s, k, reply, t);
  }

  lemma StepAsked(m: Charset, h: Handler, s: State, step: Step, c: nat)
    requires Enabled(s, step) && Talks(m, h, s, step) && Exchanged(m, h, s) && c < |Apply(s, step).calls|
    ensures Asked(m, Apply(s, step), c)
  {
    var u := Apply(s, step);
    HistoryGrows(s, step);
    if c < |s.calls| {
      assert Asked(m, s, c);
      var t :| Asks(m, s, c, t);
      assert Asks(m, u, c, t);
    } else {
      var t :| TreeOk(t) && step.request == Marshalled(m, t);
      assert Asks(m, u, c, t);
    }
  }

  lemma StillReacts(m: Charset, h: Handler, s: State, step: Step, e: nat, t: Tree)
    requires Inv(s) && Enabled(s, step) && Exchanged(m, h, s) && e < |s.log|
    requires e < |Apply(s, step).log| && Asks(m, Apply(s, step), Caller(Apply(s, step).log[e]), t)
    ensures Reacts(m, h, Apply(s, step), e, t)
  {
    HistoryGrows(s, step);
    assert LogOk(s, e) && Apply(s, step).log[e] == s.log[e];
    assert Asks(m, s, Caller(s.log[e]), t);
    assert Reacts(m, h, s, e, t);
  }

  lemma NewReacts(m: Charset, h: Handler, s: State, step: Step, t: Tree)
    requires CharsetOk(m) && Inv(s) && Enabled(s, step) && Talks(m, h, s, step)
    requires |s.log| < |Apply(s, step).log| && Asks(m, Apply(s, step), Caller(Apply(s, step).log[|s.log|]), t)
    ensures Reacts(m, h, Apply(s, step), |s.log|, t)
  {
    HistoryGrows(s, step);
    ServeFrame(s, step.k, step.reply);
    ServeReacts(m, h, s, step.k, step.reply, t);
  }

  lemma StepExchanged(m: Charset, h: Handler, s: State, step: Step)
    requires CharsetOk(m) && Inv(s) && Enabled(s, step) && Talks(m, h, s, step) && Exchanged(m, h, s)
    ensures Exchanged(m, h, Apply(s, step))
  {
    var u := Apply(s, step);
    HistoryGrows(s, step);
    forall c | 0 <= c < |u.calls|
      ensures Asked(m, u, c)
    {
      StepAsked(m, h, s, step, c);
    }
    forall e, t | 0 <= e < |u.log| && Asks(m, u, Caller(u.log[e]), t)
      ensures Reacts(m, h, u, e, t)
    {
      if e < |s.log| {
        StillReacts(m, h, s, step, e, t);
      } else {
        NewReacts(m, h, s, step, t);
      }
    }
  }

  lemma {:induction false} RunExchanged(m: Charset, h: Handler, s: State, steps: seq<Step>)
    requires CharsetOk(m) && Inv(s) && Possible(s, steps) && Conversation(m, h, s, steps) && Exchanged(m, h, s)
    ensures Exchanged(m, h, After(s, steps))
    decreases |steps|
  {
    if steps == [] {
    } else {
      StepExchanged(m, h, s, steps[0]);
      StepInv(s, steps[0]);
      RunExchanged(m, h, Apply(s, steps[0]), steps[1..]);
    }
  }

  // ---- The results ----

  /** The tree that every dispatch reads is the one that the call it serves was made with. */
  lemma DispatchReads(m: Charset, h: Handler, steps: seq<Step>, e: nat)
    requires CharsetOk(m) && Possible(Init(), steps) && Conversation(m, h, Init(), steps)
    requires e < |After(Init(), steps).log|
    ensures var s := After(Init(), steps);
            exists t {:trigger Asks(m, s, Caller(s.log[e]), t)} ::
              && Asks(m, s, Caller(s.log[e]), t)
              && |s.log[e].request| >= 4 && Unmarshalled(m, Values(s.log[e].request[4..])) == Some(Normal(t))
  {
    var s := After(Init(), steps);
    InitInv();
    RunInv(Init(), steps);
    RunExchanged(m, h, Init(), steps);
    assert LogOk(s, e) && Asked(m, s, Caller(s.log[e]));
    var t :| Asks(m, s, Caller(s.log[e]), t);
    assert Reacts(m, h, s, e, t);
  }

  /** Call c has one dispatch, e, and its caller gets what the handler made of tree t there. */
  ghost predicate Called(m: Charset, h: Handler, s: State, c: nat, t: Tree, e: nat, reply: seq<Byte>) {
    && Answers(s, c, e, reply)
    && (forall d | 0 <= d < |s.log| && s.log[d].request == FrameOf(s, c) :: d == e)
    && Unmarshalled(m, reply) == Some(Normal(ReplyTree(h(e, Normal(t)))))
  }

  lemma OnlyAnswer(s: State, c: nat, reply: seq<Byte>) returns (e: nat)
    requires AnsweredOnce(s, c, reply)
    ensures Answers(s, c, e, reply) && Caller(s.log[e]) == c
    ensures forall d | 0 <= d < |s.log| && s.log[d].request == FrameOf(s, c) :: d == e
  {
    e :| Answers(s, c, e, reply) && forall d | 0 <= d < |s.log| && s.log[d].request == FrameOf(s, c) :: d == e;
    assert s.log[e].request[0] == FrameOf(s, c)[0];
  }

  /**
   * A remote call is a call of the handler: whatever retries, chunking and other calls there were,
   * a call that returns had exactly one dispatch, and the tree its caller unmarshals is the normal
   * form of what the handler made, in that dispatch, of the normal form of the tree sent.
   */
  lemma RemoteCall(m: Charset, h: Handler, steps: seq<Step>, c: nat, t: Tree)
    requires CharsetOk(m) && Possible(Init(), steps) && Conversation(m, h, Init(), steps)
    requires Asks(m, After(Init(), steps), c, t) && After(Init(), steps).calls[c].phase.Answered?
    ensures var s := After(Init(), steps);
            exists e {:trigger Called(m, h, s, c, t, e, s.calls[c].phase.reply)} ::
              Called(m, h, s, c, t, e, s.calls[c].phase.reply)
  {
    var s := After(Init(), steps);
    var reply := s.calls[c].phase.reply;
    InitInv();
    RunExchanged(m, h, Init(), steps);
    assert Reachable(s);
    ReplyMatches(s, c);
    var e := OnlyAnswer(s, c, reply);
    assert Reacts(m, h, s, e, t);
    Unmarshal(m, ReplyTree(h(e, Normal(t))));
    assert Called(m, h, s, c, t, e, reply);
  }

  /** The caller of send sees what the handler did, with the two provisos of OutcomeExact. */
  ghost predicate Felt(r: Reaction, o: Reaction) {
    && (r.Throws? ==> (o == r <==> r.text != ""))
    && (r.Gives? ==> (o == Gives(Normal(r.tree)) <==> !LooksThrown(r.tree)))
  }

  /**
   * What send does at the end: it raises what the handler of the only dispatch threw unless the
   * text is empty, and it returns what the handler gave unless that looks like an exception.
   */
  lemma SendOutcome(m: Charset, h: Handler, steps: seq<Step>, c: nat, t: Tree)
    requires CharsetOk(m) && Possible(Init(), steps) && Conversation(m, h, Init(), steps)
    requires Asks(m, After(Init(), steps), c, t) && After(Init(), steps).calls[c].phase.Answered?
    ensures var s := After(Init(), steps);
            var reply := s.calls[c].phase.reply;
            exists e {:trigger Called(m, h, s, c, t, e, reply)} ::
              Called(m, h, s, c, t, e, reply) && Felt(h(e, Normal(t)), Outcome(Unmarshalled(m, reply).value))
  {
    var s := After(Init(), steps);
    RemoteCall(m, h, steps, c, t);
    var e :| Called(m, h, s, c, t, e, s.calls[c].phase.reply);
    OutcomeExact(h(e, Normal(t)));
    assert Called(m, h, s, c, t, e, s.calls[c].phase.reply);
  }

  /** The handler answers every message from which request r is read with the header sequence hs. */
  ghost predicate AnswersWith(h: Handler, r: Request, hs: seq<Header>) {
    forall e, t {:trigger h(e, t)} | Reads(t, r) && CertificatesAt(t) == UpToEmpty(r.certificates) ::
      h(e, t) == Gives(Response(hs))
  }

  /**
   * The whole way: a wrapped request is sent, the remote handler reads it and sets headers, and
   * what the caller of send gets replays as those headers do after any trip over the wire.
   */
  lemma RequestAnswered(m: Charset, h: Handler, steps: seq<Step>, c: nat, address: string, r: Request, hs: seq<Header>)
    requires CharsetOk(m) && Possible(Init(), steps) && Conversation(m, h, Init(), steps)
    requires PlainText(address, r) && Asks(m, After(Init(), steps), c, Wrapped(address, r))
    requires After(Init(), steps).calls[c].phase.Answered?
    requires AnswersWith(h, r, hs) && forall x | x in hs :: NamedHeader(x)
    ensures var t := Unmarshalled(m, After(Init(), steps).calls[c].phase.reply);
            t.Some? && Outcome(t.value) == Gives(t.value)
            && Replayable(HeadersAt(t.value)) && Replay(HeadersAt(t.value)) == Arriving(hs)
            && Finished(t.value) == Unfinished
  {
    var s, t := After(Init(), steps), Wrapped(address, r);
    RemoteCall(m, h, steps, c, t);
    var e :| Called(m, h, s, c, t, e, s.calls[c].phase.reply);
    RequestSurvives(m.codec, address, r);
    WireRoundTrip(m.codec, t);
    assert h(e, Normal(t)) == Gives(Response(hs));
    HeadersArrive(hs);
    HeadersUnfinished(hs);
  }
}
