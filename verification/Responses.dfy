/** RemotedHandler.cpp: response headers set on the remote side and replayed on the local side. */
module Responses {
  import opened Basics
  import opened Forest
  import opened Paths
  import opened Trees
  import opened Grafts
  import opened Xml
  import opened Wire
  import opened Ddf
  import opened Reading
  import opened Records
  import opened Remoting

  datatype Header = Header(name: string, value: string)

  // ---- The remote side ----

  function HeaderLeaf(h: Header): Tree { Leaf(Stored(Some(h.name)), SafeText(Some(h.value))) }

  function HeaderTrees(hs: seq<Header>): seq<Tree> {
    seq(|hs|, i requires 0 <= i < |hs| => HeaderLeaf(hs[i]))
  }

  /** The output tree once it has a list of headers. */
  function Opened(hs: seq<Header>): Tree {
    Tree(None, Struct, [Tree(Some("headers"), List, HeaderTrees(hs), None)], None)
  }

  /** The output tree after the given calls of setResponseHeader. */
  function Response(hs: seq<Header>): Tree {
    if hs == [] then Leaf(None, Empty) else Opened(hs)
  }

  /** c is the list of headers of the output node m. */
  ghost predicate HeaderList(h: Heap, m: Body, c: Body) {
    LastKidIs(h, m, c) && h[c].value.List? && h[c].cursor == null
  }

  lemma OpenedHeaders(f: Heap, h: Heap, m: Body, hs: seq<Header>)
    requires Detached(f, h, m, Opened(hs))
    ensures h[m].value.Struct? && |h[m].kids| == 1 && HeaderList(h, m, h[m].kids[0])
    ensures PathGet(h, m, "headers") == h[m].kids[0]
  {
    TreeOfKids(h, m);
    var k := h[m].kids[0];
    assert Linked(h, m) && k in h[m].kids;
    LastIsList(f, h, m, Opened(hs), k);
    assert TreeOf(h, k) == Opened(hs).kids[0];
    OwnName(h, m, k);
  }

  lemma HeaderNext(hs: seq<Header>, x: Header)
    ensures var last := Opened(hs).kids[0];
            Opened(hs + [x]) == WithLast(Opened(hs), last.(kids := last.kids + [HeaderLeaf(x)]))
  {
    assert HeaderTrees(hs + [x]) == HeaderTrees(hs) + [HeaderLeaf(x)];
  }

  /** What adding the list to an empty struct makes. */
  lemma ListMakesOpened(f: Heap, h: Heap, m: Body)
    requires Detached(f, h, m, Leaf(None, Struct).(kids := [] + [Leaf(Some("headers"), List)]))
    ensures Detached(f, h, m, Opened([]))
    ensures |h[m].kids| == 1 && HeaderList(h, m, h[m].kids[0])
  {
    assert HeaderTrees([]) == [] && [] + [Leaf(Some("headers"), List)] == [Leaf(Some("headers"), List)];
    OpenedHeaders(f, h, m, []);
  }

  /** The first header turns the output into a struct and makes the list. */
  method FirstHeaders(st: Store, ghost f: Heap, m: Body) returns (hdrs: Body)
    requires st.Valid() && m in st.live && Detached(f, st.View(), m, Leaf(None, Empty))
    modifies st, st.live
    ensures st.Valid() && m in st.live && hdrs in st.live
    ensures forall b | b in st.live :: b in old(st.live) || fresh(b)
    ensures Detached(f, st.View(), m, Opened([])) && HeaderList(st.View(), m, hdrs)
  {
    SetRead(st, f, m, Struct, None);
    hdrs := AddField(st, f, m, Leaf(None, Struct), "headers", List);
    ListMakesOpened(f, st.View(), m);
  }

  /** The list the headers go to, created by the first of them. */
  method Headers(st: Store, ghost f: Heap, m: Body, ghost hs: seq<Header>) returns (hdrs: Body)
    requires st.Valid() && m in st.live && Detached(f, st.View(), m, Response(hs))
    modifies st, st.live
    ensures st.Valid() && m in st.live && hdrs in st.live
    ensures forall b | b in st.live :: b in old(st.live) || fresh(b)
    ensures Detached(f, st.View(), m, Opened(hs)) && HeaderList(st.View(), m, hdrs)
  {
    TreeOfKids(st.View(), m);
    assert NodeOf(m) == st.View()[m];
    if !m.value.Struct? {
      hdrs := FirstHeaders(st, f, m);
      return;
    }
    OpenedHeaders(f, st.View(), m, hs);
    hdrs := st.GetMember(m, "headers");
  }

  /** Append a header to the list. */
  method AddHeader(st: Store, ghost f: Heap, m: Body, ghost hs: seq<Header>, hdrs: Body, name: string, value: string)
    requires st.Valid() && m in st.live && hdrs in st.live && Detached(f, st.View(), m, Opened(hs))
    requires HeaderList(st.View(), m, hdrs)
    modifies st, st.live
    ensures st.Valid() && m in st.live && (forall b | b in st.live :: b in old(st.live) || fresh(b))
    ensures Detached(f, st.View(), m, Response(hs + [Header(name, value)]))
  {
    ghost var h := st.View();
    HeaderNext(hs, Header(name, value));
    var x := NewLeaf(st, Some(name), SafeText(Some(value)));
    AddToLast(st, f, h, m, Opened(hs), hdrs, x, HeaderLeaf(Header(name, value)));
  }

  /** Both steps of setResponseHeader on the output node. */
  method PutHeader(st: Store, ghost f: Heap, m: Body, ghost hs: seq<Header>, name: string, value: string)
    requires st.Valid() && m in st.live && Detached(f, st.View(), m, Response(hs))
    modifies st, st.live
    ensures st.Valid() && m in st.live && (forall b | b in st.live :: b in old(st.live) || fresh(b))
    ensures Detached(f, st.View(), m, Response(hs + [Header(name, value)]))
  {
    var hdrs := Headers(st, f, m, hs);
    AddHeader(st, f, m, hs, hdrs, name, value);
  }

  /** The response shim: output stands for m_output, sent for the calls made so far. */
  class RemotedResponse {
    const st: Store
    const output: Body
    ghost const before: Heap
    ghost var sent: seq<Header>

    ghost predicate Valid()
      reads this, st, st.live
    {
      st.Valid() && output in st.live && Detached(before, st.View(), output, Response(sent))
    }

    constructor (st: Store, output: Body, ghost before: Heap)
      requires st.Valid() && output in st.live && Detached(before, st.View(), output, Leaf(None, Empty))
      ensures Valid() && this.st == st && this.output == output && this.before == before && sent == []
    {
      this.st, this.output, this.before := st, output, before;
      sent := [];
    }

    /** RemotedResponse::setResponseHeader. */
    method SetResponseHeader(name: string, value: string)
      requires Valid()
      modifies this`sent, st, st.live
      ensures Valid() && sent == old(sent) + [Header(name, value)]
      ensures forall b | b in st.live :: b in old(st.live) || fresh(b)
    {
      PutHeader(st, before, output, sent, name, value);
      sent := sent + [Header(name, value)];
    }
  }

  // ---- The local side ----

  /** The headers unwrap replays: the strings at the start of the list. */
  function Replay(kids: seq<Tree>): seq<Header> {
    if kids == [] || !kids[0].value.Str? || kids[0].value.text.None? || kids[0].name.None? then []
    else [Header(kids[0].name.value, kids[0].value.text.value)] + Replay(kids[1..])
  }

  /** Every string unwrap comes across has a name and a text, as trees read from the wire do. */
  predicate Replayable(kids: seq<Tree>) {
    kids == [] || !kids[0].value.Str?
    || (kids[0].value.text.Some? && kids[0].name.Some? && Replayable(kids[1..]))
  }

  function HeadersIn(k: Option<Tree>): seq<Tree> {
    if k.None? || !k.value.value.Container() then [] else k.value.kids
  }

  function HeadersAt(t: Tree): seq<Tree> { HeadersIn(TreeGet(t, "headers")) }

  /** The replay takes the strings at the start of the list, in order, and stops at the first other child. */
  lemma {:induction false} ReplayUpTo(kids: seq<Tree>)
    requires Replayable(kids)
    ensures var k := |Replay(kids)|;
            && k <= |kids| && (k < |kids| ==> !kids[k].value.Str?)
            && (forall i | 0 <= i < k :: kids[i].value.Str?
                  && kids[i].name == Some(Replay(kids)[i].name) && kids[i].value.text == Some(Replay(kids)[i].value))
  {
    if kids == [] || !kids[0].value.Str? {
    } else {
      ReplayUpTo(kids[1..]);
      forall i | 0 < i < |Replay(kids)|
        ensures Replay(kids)[i] == Replay(kids[1..])[i - 1] && kids[i] == kids[1..][i - 1]
      {
      }
    }
  }

  /** The map a sequence of setResponseHeader calls leaves behind. */
  function Registered(calls: seq<Header>): map<string, string> {
    if calls == [] then map[] else
      var last := calls[|calls| - 1];
      Registered(calls[..|calls| - 1])[last.name := last.value]
  }

  /** The last value wins. */
  lemma {:induction false} LastWins(calls: seq<Header>, i: nat)
    requires i < |calls| && forall j | i < j < |calls| :: calls[j].name != calls[i].name
    ensures calls[i].name in Registered(calls) && Registered(calls)[calls[i].name] == calls[i].value
  {
    if i < |calls| - 1 {
      LastWins(calls[..|calls| - 1], i);
    }
  }

  lemma {:induction false} OnlyNames(calls: seq<Header>, name: string)
    requires name in Registered(calls)
    ensures exists i :: 0 <= i < |calls| && calls[i].name == name
  {
    var last := calls[|calls| - 1];
    if last.name != name {
      OnlyNames(calls[..|calls| - 1], name);
      var i :| 0 <= i < |calls| - 1 && calls[..|calls| - 1][i].name == name;
      assert calls[i].name == name;
    }
  }

  /**
   * HTTPResponse::setResponseHeader of the tool library, which is called before a header is
   * registered: whether it lets a name and a value pass or throws. It is arbitrary here.
   */
  type Acceptance = (string, string) -> bool

  /** The headers before the first one that is refused. */
  function UpToRefused(accepts: Acceptance, hs: seq<Header>): (r: seq<Header>)
    ensures r <= hs
    ensures forall h | h in r :: accepts(h.name, h.value)
    ensures |r| < |hs| ==> !accepts(hs[|r|].name, hs[|r|].value)
  {
    if hs == [] || !accepts(hs[0].name, hs[0].value) then []
    else [hs[0]] + UpToRefused(accepts, hs[1..])
  }

  /**
   * What unwrap reports: whether the response is finished, and with what; Thrown is the exception of
   * a refused header.
   */
  datatype Outcome =
    | Redirected(url: Option<string>)
    | Responded(data: Option<string>, status: int)
    | Unfinished
    | Thrown

  /** PEPRequestImpl, as far as response headers go; calls is the history of the registered headers. */
  class LocalRequest {
    const accepts: Acceptance
    var responseHeaders: map<string, string>
    ghost var calls: seq<Header>

    ghost predicate Valid()
      reads this
    {
      responseHeaders == Registered(calls)
    }

    constructor (accepts: Acceptance)
      ensures Valid() && calls == [] && this.accepts == accepts
    {
      this.accepts := accepts;
      responseHeaders := map[];
      calls := [];
    }

    /** PEPRequestImpl::setResponseHeader: not ok is the exception, which leaves the map alone. */
    method SetResponseHeader(name: string, value: string) returns (ok: bool)
      requires Valid()
      modifies this
      ensures Valid() && ok == accepts(name, value)
      ensures calls == if ok then old(calls) + [Header(name, value)] else old(calls)
    {
      ok := accepts(name, value);
      if ok {
        responseHeaders := responseHeaders[name := value];
        calls := calls + [Header(name, value)];
        assert calls[..|calls| - 1] == old(calls);
      }
    }

    /** setContentType, which the class inherits from the tool library: it sets the header of that name. */
    method SetContentType(value: string) returns (ok: bool)
      requires Valid()
      modifies this
      ensures Valid() && ok == accepts("Content-Type", value)
      ensures calls == if ok then old(calls) + [Header("Content-Type", value)] else old(calls)
    {
      ok := SetResponseHeader("Content-Type", value);
    }

    /** PEPRequestImpl::getResponseHeader. */
    method GetResponseHeader(name: string) returns (value: string)
      requires Valid()
      ensures value == if name in Registered(calls) then Registered(calls)[name] else ""
    {
      value := if name in responseHeaders then responseHeaders[name] else "";
    }
  }

  /** The headers replayed so far are the first i children. */
  ghost predicate Replayed(ts: seq<Tree>, i: nat, done: seq<Header>) {
    i <= |ts| && Replay(ts) == done + Replay(ts[i..]) && Replayable(ts[i..])
  }

  lemma ReplayOne(ts: seq<Tree>, i: nat, done: seq<Header>)
    requires Replayed(ts, i, done) && i < |ts| && ts[i].value.Str?
    ensures ts[i].value.text.Some? && ts[i].name.Some?
    ensures Replayed(ts, i + 1, done + [Header(ts[i].name.value, ts[i].value.text.value)])
  {
  }

  predicate AllAccepted(accepts: Acceptance, hs: seq<Header>) {
    forall h | h in hs :: accepts(h.name, h.value)
  }

  /** After accepted headers, the replay is over at the end or at a refused one. */
  lemma {:induction false} UpToRefusedAt(accepts: Acceptance, done: seq<Header>, rest: seq<Header>)
    requires AllAccepted(accepts, done) && (rest != [] ==> !accepts(rest[0].name, rest[0].value))
    ensures UpToRefused(accepts, done + rest) == done
  {
    if done == [] {
      assert done + rest == rest;
    } else {
      assert (done + rest)[0] == done[0] && (done + rest)[1..] == done[1..] + rest;
      UpToRefusedAt(accepts, done[1..], rest);
    }
  }

  lemma ReplayAll(accepts: Acceptance, ts: seq<Tree>, i: nat, done: seq<Header>)
    requires Replayed(ts, i, done) && (i < |ts| ==> !ts[i].value.Str?) && AllAccepted(accepts, done)
    ensures done == Replay(ts) == UpToRefused(accepts, Replay(ts))
  {
    UpToRefusedAt(accepts, done, []);
  }

  lemma ReplayRefused(accepts: Acceptance, ts: seq<Tree>, i: nat, done: seq<Header>)
    requires Replayed(ts, i, done) && i < |ts| && ts[i].value.Str? && AllAccepted(accepts, done)
    requires ts[i].name.Some? && ts[i].value.text.Some? ==> !accepts(ts[i].name.value, ts[i].value.text.value)
    ensures done == UpToRefused(accepts, Replay(ts)) && done != Replay(ts)
  {
    UpToRefusedAt(accepts, done, Replay(ts[i..]));
  }

  /** What holds between the rounds of the loop of unwrap. */
  ghost predicate Replaying(st: Store, f: Heap, list: Body, ts: seq<Tree>, i: nat, hdr: Body?, done: seq<Header>)
    reads st, st.live, hdr
  {
    && st.Valid() && list in st.live && st.Has(hdr)
    && HandedOut(f, st.View(), list, i, hdr) && Replayed(ts, i, done)
    && (hdr == null <==> i == |ts|)
    && (hdr != null ==> i < |ts| && hdr.value == ts[i].value && hdr.name == ts[i].name)
  }

  method StartReplay(st: Store, ghost f: Heap, list: Body, ghost ts: seq<Tree>) returns (hdr: Body?)
    requires st.Valid() && list in st.live && list.value.Container() && f == st.View()
    requires list in f && ts == TreeOf(f, list).kids && Replayable(ts)
    modifies st.live
    ensures Replaying(st, f, list, ts, 0, hdr, [])
  {
    assert NodeOf(list) == f[list];
    hdr := Begin(st, list);
    InHand(st, f, list, 0, hdr);
    assert ts[0..] == ts && [] + Replay(ts) == Replay(ts);
  }

  lemma CallsCat(was: seq<Header>, done: seq<Header>, x: Header)
    ensures was + done + [x] == was + (done + [x])
  {
  }

  /** One header: the content type has a method of its own. */
  method ReplayHeader(request: LocalRequest, name: string, value: string) returns (ok: bool)
    requires request.Valid()
    modifies request
    ensures request.Valid() && ok == request.accepts(name, value)
    ensures request.calls == if ok then old(request.calls) + [Header(name, value)] else old(request.calls)
  {
    if name == "Content-Type" {
      ok := request.SetContentType(value);
    } else {
      ok := request.SetResponseHeader(name, value);
    }
  }

  /** The request's side of a round: offer it the header in hand. */
  method Offer(ghost ts: seq<Tree>, ghost i: nat, name: string, value: string,
      ghost was: seq<Header>, ghost done: seq<Header>, request: LocalRequest)
    returns (ok: bool, ghost more: seq<Header>)
    requires Replayed(ts, i, done) && i < |ts| && ts[i].value.Str?
    requires ts[i].name == Some(name) && ts[i].value.text == Some(value)
    requires request.Valid() && request.calls == was + done && AllAccepted(request.accepts, done)
    modifies request
    ensures request.Valid() && request.calls == was + more
    ensures ok ==> Replayed(ts, i + 1, more) && AllAccepted(request.accepts, more)
    ensures !ok ==> more == UpToRefused(request.accepts, Replay(ts)) && more != Replay(ts)
  {
    ReplayOne(ts, i, done);
    ok := ReplayHeader(request, name, value);
    more := done;
    if ok {
      more := done + [Header(name, value)];
      CallsCat(was, done, Header(name, value));
    } else {
      ReplayRefused(request.accepts, ts, i, done);
    }
  }

  /** The list's side of a round: move on to the next child. */
  method MoveOn(st: Store, ghost f: Heap, list: Body, ghost ts: seq<Tree>, ghost i: nat, hdr: Body,
      ghost done: seq<Header>, ghost more: seq<Header>) returns (next: Body?)
    requires Replaying(st, f, list, ts, i, hdr, done) && Replayed(ts, i + 1, more)
    requires list in f && ts == TreeOf(f, list).kids
    modifies st.live
    ensures Replaying(st, f, list, ts, i + 1, next, more)
  {
    next := GoOn(st, f, list, i);
    InHand(st, f, list, i + 1, next);
  }

  /** One round of the loop of unwrap; not ok is the exception. */
  method NextReplay(st: Store, ghost f: Heap, list: Body, ghost ts: seq<Tree>, ghost i: nat, hdr: Body,
      ghost was: seq<Header>, ghost done: seq<Header>, request: LocalRequest)
      returns (ok: bool, next: Body?, ghost more: seq<Header>)
    requires Replaying(st, f, list, ts, i, hdr, done) && hdr.value.Str? && request.Valid()
    requires list in f && ts == TreeOf(f, list).kids
    requires request.calls == was + done && AllAccepted(request.accepts, done)
    modifies st.live, request
    ensures st.Valid() && request.Valid() && request.calls == was + more
    ensures ok ==> Replaying(st, f, list, ts, i + 1, next, more) && AllAccepted(request.accepts, more)
    ensures !ok ==> more == UpToRefused(request.accepts, Replay(ts)) && more != Replay(ts)
  {
    ReplayOne(ts, i, done);
    ok, more := Offer(ts, i, hdr.name.value, hdr.value.text.value, was, done, request);
    next := hdr;
    st.Untouched();
    if ok {
      next := MoveOn(st, f, list, ts, i, hdr, done, more);
    }
  }

  /** The loop of unwrap over the headers. */
  method ReplayRest(st: Store, ghost f: Heap, list: Body, ghost ts: seq<Tree>, first: Body?,
      ghost was: seq<Header>, request: LocalRequest) returns (ok: bool)
    requires Replaying(st, f, list, ts, 0, first, []) && list in f && ts == TreeOf(f, list).kids
    requires request.Valid() && request.calls == was
    modifies st.live, request
    ensures st.Valid() && request.Valid()
    ensures request.calls == was + UpToRefused(request.accepts, Replay(ts))
    ensures ok == (UpToRefused(request.accepts, Replay(ts)) == Replay(ts))
  {
    var hdr := first;
    ghost var i, done := 0, [];
    assert was + [] == was;
    ok := true;
    while hdr != null && hdr.value.Str?
      invariant Replaying(st, f, list, ts, i, hdr, done) && request.Valid() && request.calls == was + done
      invariant AllAccepted(request.accepts, done)
      decreases |ts| - i
    {
      ok, hdr, done := NextReplay(st, f, list, ts, i, hdr, was, done, request);
      if !ok {
        return;
      }
      i := i + 1;
    }
    ReplayAll(request.accepts, ts, i, done);
    ok := true;
  }

  /** The replay of the headers; not ok is the exception of a refused header. */
  method ReplayHeaders(st: Store, list: Body, request: LocalRequest) returns (ok: bool)
    requires st.Valid() && list in st.live && list.value.Container() && request.Valid()
    requires list in st.View() && Replayable(TreeOf(st.View(), list).kids)
    modifies st.live, request
    ensures st.Valid() && request.Valid() && list in old(st.View())
    ensures var hs := Replay(TreeOf(old(st.View()), list).kids);
            && request.calls == old(request.calls) + UpToRefused(request.accepts, hs)
            && ok == (UpToRefused(request.accepts, hs) == hs)
  {
    ghost var f := st.View();
    ghost var ts := TreeOf(f, list).kids;
    var hdr := StartReplay(st, f, list, ts);
    ok := ReplayRest(st, f, list, ts, hdr, request.calls, request);
  }

  function Answer(response: Option<Tree>): Outcome {
    if response.Some? && response.value.value.Struct? then
      Responded(StringAt(response.value, "data"), IntegerAt(response.value, "status"))
    else Unfinished
  }

  /** The part of unwrap after the headers, for the two members it looks at. */
  function FinishedBy(redirect: Option<Tree>, response: Option<Tree>): Outcome {
    if redirect.Some? && redirect.value.value.Str? then Redirected(redirect.value.value.text)
    else Answer(response)
  }

  function Finished(t: Tree): Outcome { FinishedBy(TreeGet(t, "redirect"), TreeGet(t, "response")) }

  /** operator[] of DDF, and what it finds in terms of trees. */
  method Lookup(st: Store, n: Body, name: string) returns (h: Body?)
    requires st.Valid() && n in st.live
    ensures n in st.View() && st.Has(h) && (h != null ==> h in st.View())
    ensures TreeGet(TreeOf(st.View(), n), name) == if h == null then None else Some(TreeOf(st.View(), h))
    ensures h != null ==> TreeOf(st.View(), h).value == h.value
  {
    h := st.GetMember(n, name);
    GetAgrees(st.View(), n, name);
    assert h != null ==> NodeOf(h) == st.View()[h];
  }

  method ReadAnswer(st: Store, h: Body) returns (outcome: Outcome)
    requires st.Valid() && h in st.live
    ensures h in st.View()
    ensures var t := TreeOf(st.View(), h); outcome == Responded(StringAt(t, "data"), IntegerAt(t, "status"))
  {
    var data := GetString(st, h, "data");
    var status := GetInteger(st, h, "status");
    outcome := Responded(data, status);
  }

  method FinishResponse(st: Store, out: Body, name: string) returns (outcome: Outcome)
    requires st.Valid() && out in st.live
    ensures out in st.View() && outcome == Answer(TreeGet(TreeOf(st.View(), out), name))
  {
    var h := Lookup(st, out, name);
    outcome := Unfinished;
    if h != null && h.value.Struct? {
      outcome := ReadAnswer(st, h);
    }
  }

  method FinishBy(st: Store, out: Body, redirect: string, response: string) returns (outcome: Outcome)
    requires st.Valid() && out in st.live
    ensures out in st.View()
    ensures var t := TreeOf(st.View(), out); outcome == FinishedBy(TreeGet(t, redirect), TreeGet(t, response))
  {
    var h := Lookup(st, out, redirect);
    if h != null && h.value.Str? {
      outcome := Redirected(h.value.text);
    } else {
      outcome := FinishResponse(st, out, response);
    }
  }

  /** The part of unwrap that deals with the headers; not ok is the exception. */
  method UnwrapHeaders(st: Store, request: LocalRequest, out: Body, headers: string) returns (ok: bool)
    requires st.Valid() && out in st.live && request.Valid()
    requires out in st.View() && Replayable(HeadersIn(TreeGet(TreeOf(st.View(), out), headers)))
    modifies st.live, request
    ensures st.Valid() && request.Valid() && out in old(st.View())
    ensures var hs := Replay(HeadersIn(TreeGet(TreeOf(old(st.View()), out), headers)));
            && request.calls == old(request.calls) + UpToRefused(request.accepts, hs)
            && ok == (UpToRefused(request.accepts, hs) == hs)
  {
    var h := Lookup(st, out, headers);
    ok := true;
    if h != null && h.value.Container() {
      ok := ReplayHeaders(st, h, request);
    }
  }

  /** RemotedHandler::unwrap for any names of the members it reads. */
  method UnwrapBy(st: Store, request: LocalRequest, out: Body, headers: string, redirect: string, response: string)
    returns (outcome: Outcome)
    requires st.Valid() && out in st.live && request.Valid()
    requires out in st.View() && Replayable(HeadersIn(TreeGet(TreeOf(st.View(), out), headers)))
    modifies st.live, request
    ensures st.Valid() && request.Valid() && out in old(st.View()) && out in st.View()
    ensures var hs := Replay(HeadersIn(TreeGet(TreeOf(old(st.View()), out), headers)));
            && request.calls == old(request.calls) + UpToRefused(request.accepts, hs)
            && outcome == if UpToRefused(request.accepts, hs) != hs then Thrown
                          else var t := TreeOf(st.View(), out); FinishedBy(TreeGet(t, redirect), TreeGet(t, response))
  {
    var ok := UnwrapHeaders(st, request, out, headers);
    if ok {
      outcome := FinishBy(st, out, redirect, response);
    } else {
      outcome := Thrown;
    }
  }

  /** RemotedHandler::unwrap. */
  method Unwrap(st: Store, request: LocalRequest, out: Body) returns (outcome: Outcome)
    requires st.Valid() && out in st.live && request.Valid()
    requires out in st.View() && Replayable(HeadersAt(TreeOf(st.View(), out)))
    modifies st.live, request
    ensures st.Valid() && request.Valid() && out in old(st.View()) && out in st.View()
    ensures var hs := Replay(HeadersAt(TreeOf(old(st.View()), out)));
            && request.calls == old(request.calls) + UpToRefused(request.accepts, hs)
            && outcome == if UpToRefused(request.accepts, hs) == hs then Finished(TreeOf(st.View(), out)) else Thrown
  {
    outcome := UnwrapBy(st, request, out, "headers", "redirect", "response");
  }

  // ---- Responses survive the wire ----

  predicate NamedHeader(h: Header) {
    h.name != "" && AttrOnly(h.name) && TextOnly(h.value)
  }

  function CutName(s: string): (r: string)
    ensures r <= s && |r| <= MAX_NAME_LEN && (r == s || |r| == MAX_NAME_LEN)
  {
    if |s| <= MAX_NAME_LEN then s else s[..MAX_NAME_LEN]
  }

  /** What is left of a header sequence after the trip: names cut at MAX_NAME_LEN, up to the first empty value. */
  function Arriving(hs: seq<Header>): (r: seq<Header>)
    ensures |r| <= |hs|
  {
    if hs == [] || hs[0].value == "" then []
    else [Header(CutName(hs[0].name), hs[0].value)] + Arriving(hs[1..])
  }

  /** What arrives is everything before the first empty value, in order, each name cut if it is too long. */
  lemma {:induction false} ArrivingUpTo(hs: seq<Header>)
    ensures var k := |Arriving(hs)|;
            && (k < |hs| ==> hs[k].value == "")
            && (forall i | 0 <= i < k :: hs[i].value != "" && Arriving(hs)[i].value == hs[i].value
                                         && Arriving(hs)[i].name <= hs[i].name)
  {
    if hs == [] || hs[0].value == "" {
    } else {
      ArrivingUpTo(hs[1..]);
      forall i | 0 <= i < |Arriving(hs)|
        ensures hs[i].value != "" && Arriving(hs)[i].value == hs[i].value && Arriving(hs)[i].name <= hs[i].name
      {
        assert i > 0 ==> Arriving(hs)[i] == Arriving(hs[1..])[i - 1];
      }
    }
  }

  /** What unwrap registers of a header sequence: of what arrives, the part before the first refusal. */
  function Delivered(accepts: Acceptance, hs: seq<Header>): seq<Header> {
    UpToRefused(accepts, Arriving(hs))
  }

  /** A header that ends the replay. */
  predicate Blocked(accepts: Acceptance, h: Header) {
    h.value == "" || !accepts(CutName(h.name), h.value)
  }

  lemma ResponseOk(hs: seq<Header>)
    requires forall h | h in hs :: NamedHeader(h)
    ensures TreeOk(Response(hs))
  {
    forall i | 0 <= i < |hs|
      ensures LeafOk(HeaderTrees(hs)[i])
    {
      assert NamedHeader(hs[i]);
      StoredPlain(hs[i].name);
    }
    if hs != [] {
      assert AttrOnly("headers");
      ListOk("headers", HeaderTrees(hs));
      assert DistinctNames(Response(hs).kids);
    }
  }

  lemma {:induction false} ReplayDelivers(hs: seq<Header>, ts: seq<Tree>)
    requires |ts| == |hs| && forall i | 0 <= i < |hs| :: hs[i].name != "" && ts[i] == Normal(HeaderLeaf(hs[i]))
    ensures Replayable(ts) && Replay(ts) == Arriving(hs)
  {
    if hs == [] {
    } else {
      assert ts[0] == Normal(HeaderLeaf(hs[0]));
      if hs[0].value != "" {
        ReplayDelivers(hs[1..], ts[1..]);
      }
    }
  }

  lemma HeadersFound(hs: seq<Header>)
    ensures HeadersAt(Normal(Opened(hs))) == Normal(Opened(hs).kids[0]).kids
  {
  }

  lemma HeadersArrive(hs: seq<Header>)
    requires forall h | h in hs :: NamedHeader(h)
    ensures Replayable(HeadersAt(Normal(Response(hs)))) && Replay(HeadersAt(Normal(Response(hs)))) == Arriving(hs)
  {
    if hs == [] {
      assert MemberName("headers");
      NameIsAddable("headers");
    } else {
      HeadersFound(hs);
      NormalKids(Opened(hs).kids[0]);
      forall i | 0 <= i < |hs|
        ensures hs[i].name != ""
      {
        assert NamedHeader(hs[i]);
      }
      ReplayDelivers(hs, Normal(Opened(hs).kids[0]).kids);
    }
  }

  // ---- What unwrap reports ----

  /** A string member "redirect" is reported, whatever else there is. */
  lemma RedirectBy(t: Tree, redirect: string, k: Tree, response: Option<Tree>)
    requires HasMember(t, redirect, k) && k.value.Str?
    ensures FinishedBy(TreeGet(t, redirect), response) == Redirected(k.value.text)
  {
    MemberFound(t, redirect, k);
  }

  /** Without one, a struct "response" is reported with what it says of the data and the status. */
  lemma ResponseBy(redirect: Option<Tree>, t: Tree, response: string, k: Tree)
    requires redirect.Some? ==> !redirect.value.value.Str?
    requires HasMember(t, response, k) && k.value.Struct?
    ensures FinishedBy(redirect, TreeGet(t, response)) == Responded(StringAt(k, "data"), IntegerAt(k, "status"))
  {
    MemberFound(t, response, k);
  }

  lemma NothingBy(t: Tree, redirect: string, response: string)
    requires LacksMember(t, redirect) && LacksMember(t, response)
    ensures FinishedBy(TreeGet(t, redirect), TreeGet(t, response)) == Unfinished
  {
    MemberMissing(t, redirect);
    MemberMissing(t, response);
  }

  lemma ReportNames()
    ensures MemberName("redirect") && MemberName("response") && MemberName("data") && MemberName("status")
    ensures |"redirect"| != |"headers"| && |"response"| != |"headers"|
  {
  }

  /** After the wire a redirect is reported with its URL, even if there is a response as well. */
  lemma RedirectArrives(u: UrlCodec, t: Tree, k: Tree, url: string)
    requires CodecOk(u) && TreeOk(t) && HasMember(t, "redirect", k) && k.value.Str? && k.value.text == Some(url)
    ensures var r := Decode(u, Encode(u, t)); r.Some? && Finished(r.value) == Redirected(Some(url))
  {
    WireRoundTrip(u, t);
    MemberArrives(t, "redirect", k);
    NormalKids(k);
    RedirectBy(Normal(t), "redirect", Normal(k), TreeGet(Normal(t), "response"));
  }

  lemma AnswerArrives(k: Tree, data: string, d: Tree, status: string, s: Tree, text: string, n: Long)
    requires k.value.Struct? && HasMember(k, data, d) && d.value.Str? && d.value.text == Some(text)
    requires HasMember(k, status, s) && s.value == Int(n)
    ensures StringAt(Normal(k), data) == Some(text) && IntegerAt(Normal(k), status) == n
  {
    MemberArrives(k, data, d);
    MemberArrives(k, status, s);
    NormalKids(d);
    NormalKids(s);
    StringOf(Normal(k), data, Normal(d));
    IntegerOf(Normal(k), status, Normal(s));
  }

  /** After the wire a response is reported with its data and its status. */
  lemma ResponseArrives(u: UrlCodec, t: Tree, k: Tree, d: Tree, s: Tree, text: string, n: Long)
    requires CodecOk(u) && TreeOk(t) && LacksMember(t, "redirect")
    requires HasMember(t, "response", k) && k.value.Struct?
    requires HasMember(k, "data", d) && d.value.Str? && d.value.text == Some(text)
    requires HasMember(k, "status", s) && s.value == Int(n)
    ensures var r := Decode(u, Encode(u, t)); r.Some? && Finished(r.value) == Responded(Some(text), n)
  {
    WireRoundTrip(u, t);
    MemberStaysAway(t, "redirect");
    MemberMissing(Normal(t), "redirect");
    MemberArrives(t, "response", k);
    NormalKids(k);
    AnswerArrives(k, "data", d, "status", s, text, n);
    ResponseBy(None, Normal(t), "response", Normal(k));
  }

  /** Headers alone finish nothing: the request goes on. */
  lemma HeadersUnfinished(hs: seq<Header>)
    ensures Finished(Normal(Response(hs))) == Unfinished
  {
    ReportNames();
    MemberStaysAway(Response(hs), "redirect");
    MemberStaysAway(Response(hs), "response");
    NothingBy(Normal(Response(hs)), "redirect", "response");
  }

  /** A response read from the wire can be replayed: what unwrap comes across is what arrives. */
  lemma ResponseSurvives(u: UrlCodec, hs: seq<Header>)
    requires CodecOk(u) && forall h | h in hs :: NamedHeader(h)
    ensures var t := Decode(u, Encode(u, Response(hs)));
            && t.Some? && Replayable(HeadersAt(t.value)) && Replay(HeadersAt(t.value)) == Arriving(hs)
            && Finished(t.value) == Unfinished
  {
    ResponseOk(hs);
    WireRoundTrip(u, Response(hs));
    HeadersArrive(hs);
    HeadersUnfinished(hs);
  }

  /** What is delivered of a sequence in terms of its first header. */
  lemma DeliveredStep(accepts: Acceptance, hs: seq<Header>)
    requires hs != []
    ensures Delivered(accepts, hs) ==
            if Blocked(accepts, hs[0]) then []
            else [Header(CutName(hs[0].name), hs[0].value)] + Delivered(accepts, hs[1..])
  {
    if hs[0].value != "" {
      assert Arriving(hs)[1..] == Arriving(hs[1..]);
    }
  }

  /** A header that arrives as it was sent. */
  predicate Unharmed(accepts: Acceptance, h: Header) {
    h.value != "" && |h.name| <= MAX_NAME_LEN && accepts(h.name, h.value)
  }

  lemma AllCons(accepts: Acceptance, hs: seq<Header>)
    requires hs != []
    ensures (forall h | h in hs :: Unharmed(accepts, h))
            <==> Unharmed(accepts, hs[0]) && forall h | h in hs[1..] :: Unharmed(accepts, h)
  {
    assert hs[0] in hs;
    forall h | h in hs
      ensures h == hs[0] || h in hs[1..]
    {
      var i := Index(hs, h);
      assert i > 0 ==> hs[1..][i - 1] == h;
    }
  }

  lemma SameCons<T>(a: T, s: seq<T>, t: seq<T>)
    requires t != []
    ensures [a] + s == t <==> a == t[0] && s == t[1..]
  {
    assert t == [t[0]] + t[1..] && ([a] + s)[1..] == s;
  }

  /** The same sequence is registered exactly when no value is empty, no name is cut and no header is refused. */
  lemma {:induction false} DeliveredExactly(accepts: Acceptance, hs: seq<Header>)
    ensures Delivered(accepts, hs) == hs <==> forall h | h in hs :: Unharmed(accepts, h)
  {
    if hs == [] {
    } else {
      DeliveredStep(accepts, hs);
      DeliveredExactly(accepts, hs[1..]);
      AllCons(accepts, hs);
      SameCons(Header(CutName(hs[0].name), hs[0].value), Delivered(accepts, hs[1..]), hs);
    }
  }
}
