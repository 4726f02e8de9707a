/**
 * AuthorizationHandler.cpp and api.cpp: from the response of the decision point to the decision
 * the caller sees. Elements of the response document are values of type Item.
 */
module Authorization {
  import opened Basics
  import opened Forest
  import opened Xml
  import opened Documents
  import opened Responses
  import Wire
  import Ddf
  import Records
  import Packets
  import Trees

  // AuthorizationConstants.h
  const DECISION := "_pep-Authz-Decision"
  const STATUS := "_pep-Authz-Status"
  const REMOTE_USER := "_pep-Obligation-Set-Remote-User"
  const REDIRECT := "_pep-Obligation-Redirect"
  const PERMIT := "PERMIT"
  const DENY := "DENY"
  const OK := "OK"
  const ERROR := "ERROR"

  // XACMLConstants.cpp
  const STATUS_OK_VAL := "urn:oasis:names:tc:xacml:1.0:status:ok"
  const UPDATE_REMOTE_USER_ID := "urn:cvut:fit:swinpro:obligation:update-remote-user"
  const REDIRECT_ID := "urn:cvut:fit:swinpro:obligation:redirect"

  // ---- The headers a response gives rise to ----

  /** The headers for an obligation with an identifier of the given kind: its first assignment. */
  function Assigned(o: Item, header: string): seq<Header>
    requires o.Elem?
  {
    var a := ByTag(o.kids, "AttributeAssignment");
    if a == [] then [] else [Header(header, TextContent(a[0].kids))]
  }

  function FromObligation(o: Item): seq<Header> {
    if o.Text? then [] else
      var id := Wire.AttrValue(o.attrs, "ObligationId");
      (if id == UPDATE_REMOTE_USER_ID then Assigned(o, REMOTE_USER) else [])
      + (if id == REDIRECT_ID then Assigned(o, REDIRECT) else [])
  }

  function FromObligations(xs: seq<Item>): seq<Header> {
    if xs == [] then [] else FromObligations(xs[..|xs| - 1]) + FromObligation(xs[|xs| - 1])
  }

  /** The headers for one child of the Result element. */
  function FromChild(x: Item): seq<Header> {
    if Is(x, "Decision") then [Header(DECISION, if TextContent(x.kids) == "Permit" then PERMIT else DENY)]
    else if Is(x, "Status") then [Header(STATUS, if TextContent(x.kids) == STATUS_OK_VAL then OK else ERROR)]
    else if Is(x, "Obligations") then FromObligations(x.kids)
    else []
  }

  function FromChildren(xs: seq<Item>): seq<Header> {
    if xs == [] then [] else FromChildren(xs[..|xs| - 1]) + FromChild(xs[|xs| - 1])
  }

  /** The only Result element of the first Response element. */
  function ResultOf(body: Item): (r: Option<Item>)
    requires body.Elem?
    ensures r.Some? ==> r.value.Elem?
  {
    var responses := ByTag(body.kids, "Response");
    if responses == [] then None else
      var results := ByTag(responses[0].kids, "Result");
      if |results| == 1 then Some(results[0]) else None
  }

  /** The first Response element is at p, and the only Result element in it at q. */
  ghost predicate ResultAt(body: Item, p: seq<nat>, q: seq<nat>)
    requires body.Elem?
  {
    FirstAt(body.kids, "Response", p) && SoleAt(At(body.kids, p).value.kids, "Result", q)
  }

  /** The Result that is processed is the only one in the first Response, at whatever depth they are. */
  lemma ResultOfExactly(body: Item)
    requires body.Elem?
    ensures ResultOf(body).Some? <==> exists p, q :: ResultAt(body, p, q)
    ensures forall p, q {:trigger ResultAt(body, p, q)} | ResultAt(body, p, q) ::
              ResultOf(body) == At(At(body.kids, p).value.kids, q)
  {
    var responses := ByTag(body.kids, "Response");
    FirstByTag(body.kids, "Response");
    if responses != [] {
      OnlyByTag(responses[0].kids, "Result");
      if ResultOf(body).Some? {
        var p :| FirstAt(body.kids, "Response", p);
        var q :| SoleAt(responses[0].kids, "Result", q);
        assert ResultAt(body, p, q);
      }
    }
  }

  function Emitted(body: Item): seq<Header>
    requires body.Elem?
  {
    var r := ResultOf(body);
    if r.None? then [] else FromChildren(r.value.kids)
  }

  /** Every Status element of the result holds a StatusCode; the code looks for one without a check. */
  predicate StatusCoded(body: Item)
    requires body.Elem?
  {
    var r := ResultOf(body);
    r.Some? ==> forall x | x in r.value.kids && Is(x, "Status") :: ByTag(x.kids, "StatusCode") != []
  }

  // ---- processAuthzResponse ----

  /**
   * processUpdateRemoteUserObligation and processRedirectObligation: only elements have the tag, so
   * the first one is used.
   */
  method ProcessAssignment(o: Item, header: string, response: RemotedResponse)
    requires o.Elem? && response.Valid()
    modifies response`sent, response.st, response.st.live
    ensures response.Valid() && response.sent == old(response.sent) + Assigned(o, header)
    ensures forall b | b in response.st.live :: b in old(response.st.live) || fresh(b)
  {
    var assignList := ByTag(o.kids, "AttributeAssignment");
    if assignList != [] {
      assert assignList[0] in assignList;
      response.SetResponseHeader(header, TextContent(assignList[0].kids));
    }
  }

  /** One child of the Obligations element. */
  method ProcessObligation(o: Item, response: RemotedResponse)
    requires response.Valid()
    modifies response`sent, response.st, response.st.live
    ensures response.Valid() && response.sent == old(response.sent) + FromObligation(o)
    ensures forall b | b in response.st.live :: b in old(response.st.live) || fresh(b)
  {
    if o.Elem? {
      var id := Wire.AttrValue(o.attrs, "ObligationId");
      if id == UPDATE_REMOTE_USER_ID {
        ProcessAssignment(o, REMOTE_USER, response);
      }
      if id == REDIRECT_ID {
        ProcessAssignment(o, REDIRECT, response);
      }
    }
  }

  lemma ObligationsNext(xs: seq<Item>, i: nat, was: seq<Header>)
    requires i < |xs|
    ensures was + FromObligations(xs[..i]) + FromObligation(xs[i]) == was + FromObligations(xs[..i + 1])
  {
    assert xs[..i + 1][..i] == xs[..i];
  }

  /** The loop over the children of an Obligations element. */
  method ProcessObligations(xs: seq<Item>, response: RemotedResponse)
    requires response.Valid()
    modifies response`sent, response.st, response.st.live
    ensures response.Valid() && response.sent == old(response.sent) + FromObligations(xs)
    ensures forall b | b in response.st.live :: b in old(response.st.live) || fresh(b)
  {
    var i := 0;
    assert xs[..0] == [];
    while i < |xs|
      invariant 0 <= i <= |xs| && response.Valid()
      invariant response.sent == old(response.sent) + FromObligations(xs[..i])
      invariant forall b | b in response.st.live :: b in old(response.st.live) || fresh(b)
    {
      ProcessObligation(xs[i], response);
      ObligationsNext(xs, i, old(response.sent));
      i := i + 1;
    }
    assert xs[..i] == xs;
  }

  /** One child of the Result element: the deny bias is in the first branch. */
  method ProcessChild(x: Item, response: RemotedResponse)
    requires response.Valid()
    requires Is(x, "Status") ==> ByTag(x.kids, "StatusCode") != []
    modifies response`sent, response.st, response.st.live
    ensures response.Valid() && response.sent == old(response.sent) + FromChild(x)
    ensures forall b | b in response.st.live :: b in old(response.st.live) || fresh(b)
  {
    if Is(x, "Decision") {
      if TextContent(x.kids) == "Permit" {
        response.SetResponseHeader(DECISION, PERMIT);
      } else {
        response.SetResponseHeader(DECISION, DENY);
      }
    } else if Is(x, "Status") {
      var statusCode := ByTag(x.kids, "StatusCode")[0];
      if TextContent(x.kids) == STATUS_OK_VAL {
        response.SetResponseHeader(STATUS, OK);
      } else {
        response.SetResponseHeader(STATUS, ERROR);
      }
    } else if Is(x, "Obligations") {
      ProcessObligations(x.kids, response);
    }
  }

  lemma ChildrenNext(xs: seq<Item>, i: nat, was: seq<Header>)
    requires i < |xs|
    ensures was + FromChildren(xs[..i]) + FromChild(xs[i]) == was + FromChildren(xs[..i + 1])
  {
    assert xs[..i + 1][..i] == xs[..i];
  }

  /** The loop over the children of the Result element. */
  method ProcessResult(xs: seq<Item>, response: RemotedResponse)
    requires response.Valid()
    requires forall x | x in xs && Is(x, "Status") :: ByTag(x.kids, "StatusCode") != []
    modifies response`sent, response.st, response.st.live
    ensures response.Valid() && response.sent == old(response.sent) + FromChildren(xs)
    ensures forall b | b in response.st.live :: b in old(response.st.live) || fresh(b)
  {
    assert xs[..0] == [];
    for i := 0 to |xs|
      invariant response.Valid()
      invariant response.sent == old(response.sent) + FromChildren(xs[..i])
      invariant forall b | b in response.st.live :: b in old(response.st.live) || fresh(b)
    {
      assert xs[i] in xs;
      ProcessChild(xs[i], response);
      ChildrenNext(xs, i, old(response.sent));
    }
    assert xs[..|xs|] == xs;
  }

  /** AuthorizationHandler::processAuthzResponse. */
  method ProcessAuthzResponse(body: Item, response: RemotedResponse)
    requires body.Elem? && StatusCoded(body) && response.Valid()
    modifies response`sent, response.st, response.st.live
    ensures response.Valid() && response.sent == old(response.sent) + Emitted(body)
    ensures forall b | b in response.st.live :: b in old(response.st.live) || fresh(b)
  {
    assert response.sent + [] == response.sent;
    var children := ByTag(body.kids, "Response");
    if |children| < 1 {
      return;
    }
    assert children[0] in children;
    children := ByTag(children[0].kids, "Result");
    if |children| < 1 {
      return;
    }
    if |children| > 1 {
      return;
    }
    assert children[0] in children;
    ProcessResult(children[0].kids, response);
  }

  // ---- processResponse ----

  datatype Decision = Permit | Deny

  datatype Status = StatusOk | StatusError

  /** t_authz_response. */
  datatype AuthzResponse = AuthzResponse(
    decision: Decision, status: Status, remoteUser: Option<string>, redirect: Option<string>)

  /** The value of a header; an empty one counts as missing. */
  function Shown(headers: map<string, string>, name: string): Option<string> {
    if name in headers && headers[name] != "" then Some(headers[name]) else None
  }

  /** The decision for the header map that is left. */
  function DecisionOf(headers: map<string, string>): Decision {
    if DECISION in headers && headers[DECISION] == PERMIT && STATUS in headers
      && headers[STATUS] != "" then Permit else Deny
  }

  /** What the caller is told; the status value is compared with the name of the header. */
  function AnswerOf(headers: map<string, string>): AuthzResponse {
    AuthzResponse(DecisionOf(headers), if Shown(headers, STATUS) == Some(STATUS) then StatusOk else StatusError,
                  Shown(headers, REMOTE_USER), Shown(headers, REDIRECT))
  }

  /** processResponse of api.cpp. */
  method ProcessResponse(request: LocalRequest) returns (answer: AuthzResponse)
    requires request.Valid()
    ensures answer == AnswerOf(Registered(request.calls))
  {
    var decision, status := Deny, StatusError;
    var decisionHeader := request.GetResponseHeader(DECISION);
    if decisionHeader == "" {
      decision := Deny;
    } else if decisionHeader == PERMIT {
      decision := Permit;
    } else {
      decision := Deny;
    }
    var statusHeader := request.GetResponseHeader(STATUS);
    if statusHeader == "" {
      status, decision := StatusError, Deny;
    } else {
      status := if statusHeader == STATUS then StatusOk else StatusError;
    }
    var remoteUser := request.GetResponseHeader(REMOTE_USER);
    var redirect := request.GetResponseHeader(REDIRECT);
    answer := AuthzResponse(decision, status, if remoteUser != "" then Some(remoteUser) else None,
                            if redirect != "" then Some(redirect) else None);
  }

  // ---- Deny bias ----

  /** The value of the last header of a name. */
  function LastValue(hs: seq<Header>, name: string): Option<string> {
    if hs == [] then None
    else if hs[|hs| - 1].name == name then Some(hs[|hs| - 1].value)
    else LastValue(hs[..|hs| - 1], name)
  }

  lemma {:induction false} RegisteredLast(hs: seq<Header>, name: string)
    ensures name in Registered(hs) <==> LastValue(hs, name).Some?
    ensures name in Registered(hs) ==> LastValue(hs, name) == Some(Registered(hs)[name])
  {
    if hs == [] {
    } else {
      RegisteredLast(hs[..|hs| - 1], name);
    }
  }

  lemma {:induction false} LastValueCat(a: seq<Header>, b: seq<Header>, name: string)
    ensures LastValue(a + b, name) == if LastValue(b, name).Some? then LastValue(b, name) else LastValue(a, name)
  {
    if b == [] {
      assert a + b == a;
    } else {
      var last, init := b[|b| - 1], b[..|b| - 1];
      assert (a + b)[|a + b| - 1] == last && (a + b)[..|a + b| - 1] == a + init;
      LastValueCat(a, init, name);
    }
  }

  lemma HeaderNames()
    ensures |DECISION| == 19 && |STATUS| == 17 && |REMOTE_USER| == 31 && |REDIRECT| == 24
  {
  }

  lemma FromObligationNames(o: Item)
    ensures forall h | h in FromObligation(o) :: h.name == REMOTE_USER || h.name == REDIRECT
  {
  }

  lemma {:induction false} FromObligationsNames(xs: seq<Item>)
    ensures forall h | h in FromObligations(xs) :: h.name == REMOTE_USER || h.name == REDIRECT
  {
    if xs == [] {
    } else {
      FromObligationsNames(xs[..|xs| - 1]);
      FromObligationNames(xs[|xs| - 1]);
    }
  }

  lemma {:induction false} NoValue(hs: seq<Header>, name: string)
    requires forall h | h in hs :: h.name != name
    ensures LastValue(hs, name) == None
  {
    if hs == [] {
    } else {
      NoValue(hs[..|hs| - 1], name);
    }
  }

  /** The last child with a tag. */
  function LastChild(xs: seq<Item>, tag: string): (r: Option<Item>)
    ensures r.Some? ==> r.value in xs && Is(r.value, tag)
  {
    if xs == [] then None
    else if Is(xs[|xs| - 1], tag) then Some(xs[|xs| - 1])
    else LastChild(xs[..|xs| - 1], tag)
  }

  function DecisionValue(x: Option<Item>): Option<string>
    requires x.Some? ==> x.value.Elem?
  {
    if x.None? then None else Some(if TextContent(x.value.kids) == "Permit" then PERMIT else DENY)
  }

  lemma SingleValue(h: Header, name: string)
    ensures LastValue([h], name) == if h.name == name then Some(h.value) else None
  {
  }

  lemma ChildValues(x: Item)
    ensures LastValue(FromChild(x), DECISION) == if Is(x, "Decision") then DecisionValue(Some(x)) else None
    ensures LastValue(FromChild(x), STATUS).Some? <==> Is(x, "Status")
  {
    HeaderNames();
    if Is(x, "Decision") || Is(x, "Status") {
      SingleValue(FromChild(x)[0], DECISION);
      SingleValue(FromChild(x)[0], STATUS);
    } else if Is(x, "Obligations") {
      FromObligationsNames(x.kids);
      NoValue(FromChild(x), DECISION);
      NoValue(FromChild(x), STATUS);
    }
  }

  /** The last decision header comes from the last Decision child. */
  lemma {:induction false} ResultValues(xs: seq<Item>)
    ensures LastValue(FromChildren(xs), DECISION) == DecisionValue(LastChild(xs, "Decision"))
  {
    if xs == [] {
    } else {
      var init, x := xs[..|xs| - 1], xs[|xs| - 1];
      ResultValues(init);
      ChildValues(x);
      LastValueCat(FromChildren(init), FromChild(x), DECISION);
    }
  }

  /** The last status header says OK exactly when the text of the last Status child is the OK value. */
  lemma {:induction false} StatusValue(xs: seq<Item>)
    ensures LastValue(FromChildren(xs), STATUS) ==
            var x := LastChild(xs, "Status");
            if x.None? then None else Some(if TextContent(x.value.kids) == STATUS_OK_VAL then OK else ERROR)
  {
    if xs == [] {
    } else {
      var init, x := xs[..|xs| - 1], xs[|xs| - 1];
      StatusValue(init);
      ChildValues(x);
      if Is(x, "Status") {
        SingleValue(FromChild(x)[0], STATUS);
      }
      LastValueCat(FromChildren(init), FromChild(x), STATUS);
    }
  }

  /** There is a status header when there is a Status child. */
  lemma {:induction false} ResultStatus(xs: seq<Item>)
    ensures LastValue(FromChildren(xs), STATUS).Some? <==> exists x :: x in xs && Is(x, "Status")
  {
    if xs == [] {
    } else {
      var init, x := xs[..|xs| - 1], xs[|xs| - 1];
      ResultStatus(init);
      ChildValues(x);
      LastValueCat(FromChildren(init), FromChild(x), STATUS);
      assert x in xs && forall y | y in xs :: y == x || y in init;
    }
  }

  // ---- Obligations ----

  /** The obligations of a Result, in document order: the children of its Obligations elements. */
  function Obligations(xs: seq<Item>): seq<Item> {
    if xs == [] then [] else
      Obligations(xs[..|xs| - 1]) + if Is(xs[|xs| - 1], "Obligations") then xs[|xs| - 1].kids else []
  }

  /** An obligation with this identifier that assigns something. */
  predicate Grants(o: Item, id: string) {
    o.Elem? && Wire.AttrValue(o.attrs, "ObligationId") == id && ByTag(o.kids, "AttributeAssignment") != []
  }

  /** The text of its first assignment. */
  function Granted(o: Item): string
    requires o.Elem? && ByTag(o.kids, "AttributeAssignment") != []
  {
    TextContent(ByTag(o.kids, "AttributeAssignment")[0].kids)
  }

  /** What the last obligation with this identifier grants, of those that assign something. */
  function LastGrant(os: seq<Item>, id: string): Option<string> {
    if os == [] then None
    else if Grants(os[|os| - 1], id) then Some(Granted(os[|os| - 1]))
    else LastGrant(os[..|os| - 1], id)
  }

  lemma {:induction false} NoGrant(os: seq<Item>, id: string)
    requires forall i | 0 <= i < |os| :: !Grants(os[i], id)
    ensures LastGrant(os, id) == None
  {
    if os == [] {
    } else {
      NoGrant(os[..|os| - 1], id);
    }
  }

  lemma {:induction false} LastGrantAt(os: seq<Item>, id: string, i: nat)
    requires i < |os| && Grants(os[i], id) && forall j | i < j < |os| :: !Grants(os[j], id)
    ensures LastGrant(os, id) == Some(Granted(os[i]))
  {
    if i == |os| - 1 {
    } else {
      LastGrantAt(os[..|os| - 1], id, i);
    }
  }

  lemma {:induction false} LastGrantCat(a: seq<Item>, b: seq<Item>, id: string)
    ensures LastGrant(a + b, id) == if LastGrant(b, id).Some? then LastGrant(b, id) else LastGrant(a, id)
  {
    if b == [] {
      assert a + b == a;
    } else {
      var last, init := b[|b| - 1], b[..|b| - 1];
      assert (a + b)[|a + b| - 1] == last && (a + b)[..|a + b| - 1] == a + init;
      LastGrantCat(a, init, id);
    }
  }

  /** Which header an obligation identifier stands for. */
  predicate Sets(id: string, header: string) {
    || (id == UPDATE_REMOTE_USER_ID && header == REMOTE_USER)
    || (id == REDIRECT_ID && header == REDIRECT)
  }

  lemma ObligationGrant(o: Item, id: string, header: string)
    requires Sets(id, header)
    ensures LastValue(FromObligation(o), header) == if Grants(o, id) then Some(Granted(o)) else None
  {
    HeaderNames();
    assert |UPDATE_REMOTE_USER_ID| != |REDIRECT_ID|;
    if FromObligation(o) != [] {
      SingleValue(FromObligation(o)[0], header);
    }
  }

  lemma {:induction false} ObligationsGrant(os: seq<Item>, id: string, header: string)
    requires Sets(id, header)
    ensures LastValue(FromObligations(os), header) == LastGrant(os, id)
  {
    if os == [] {
    } else {
      var init, o := os[..|os| - 1], os[|os| - 1];
      ObligationsGrant(init, id, header);
      ObligationGrant(o, id, header);
      LastValueCat(FromObligations(init), FromObligation(o), header);
    }
  }

  lemma ChildGrant(x: Item, id: string, header: string)
    requires Sets(id, header)
    ensures LastValue(FromChild(x), header) == if Is(x, "Obligations") then LastGrant(x.kids, id) else None
  {
    HeaderNames();
    if Is(x, "Decision") || Is(x, "Status") {
      SingleValue(FromChild(x)[0], header);
    } else if Is(x, "Obligations") {
      ObligationsGrant(x.kids, id, header);
    }
  }

  lemma {:induction false} ResultGrants(xs: seq<Item>, id: string, header: string)
    requires Sets(id, header)
    ensures LastValue(FromChildren(xs), header) == LastGrant(Obligations(xs), id)
  {
    if xs == [] {
    } else {
      var init, x := xs[..|xs| - 1], xs[|xs| - 1];
      ResultGrants(init, id, header);
      ChildGrant(x, id, header);
      LastValueCat(FromChildren(init), FromChild(x), header);
      LastGrantCat(Obligations(init), if Is(x, "Obligations") then x.kids else [], id);
    }
  }

  /** The obligations of the Result that is processed. */
  function ObligationsOf(body: Item): seq<Item>
    requires body.Elem?
  {
    var r := ResultOf(body);
    if r.None? then [] else Obligations(r.value.kids)
  }

  /**
   * For every response: the last value emitted for the remote user is the text of the first assignment
   * of the last update-remote-user obligation that has one, and likewise for the redirect.
   */
  lemma ObligationValues(body: Item)
    requires body.Elem?
    ensures LastValue(Emitted(body), REMOTE_USER) == LastGrant(ObligationsOf(body), UPDATE_REMOTE_USER_ID)
    ensures LastValue(Emitted(body), REDIRECT) == LastGrant(ObligationsOf(body), REDIRECT_ID)
    ensures forall id | (forall o | o in ObligationsOf(body) :: !Grants(o, id)) ::
              LastGrant(ObligationsOf(body), id) == None
    ensures var os := ObligationsOf(body);
            forall id, i | 0 <= i < |os| && Grants(os[i], id) && (forall j | i < j < |os| :: !Grants(os[j], id)) ::
              LastGrant(os, id) == Some(Granted(os[i]))
  {
    var r := ResultOf(body);
    var os := ObligationsOf(body);
    if r.Some? {
      ResultGrants(r.value.kids, UPDATE_REMOTE_USER_ID, REMOTE_USER);
      ResultGrants(r.value.kids, REDIRECT_ID, REDIRECT);
    }
    forall id | forall o | o in os :: !Grants(o, id)
      ensures LastGrant(os, id) == None
    {
      NoGrant(os, id);
    }
    forall id, i | 0 <= i < |os| && Grants(os[i], id) && forall j | i < j < |os| :: !Grants(os[j], id)
      ensures LastGrant(os, id) == Some(Granted(os[i]))
    {
      LastGrantAt(os, id, i);
    }
  }

  // ---- What the caller sees ----

  /** What the caller is told once hs was sent over the wire and replayed. */
  function Told(accepts: Acceptance, hs: seq<Header>): AuthzResponse {
    AnswerOf(Registered(Delivered(accepts, hs)))
  }

  /** The decision the caller sees once hs was sent over the wire and replayed. */
  function Seen(accepts: Acceptance, hs: seq<Header>): Decision {
    DecisionOf(Registered(Delivered(accepts, hs)))
  }

  /** How many headers come before the first one that ends the replay. */
  function Through(accepts: Acceptance, hs: seq<Header>): (n: nat)
    ensures n <= |hs|
    ensures forall j | 0 <= j < n :: !Blocked(accepts, hs[j])
    ensures n < |hs| ==> Blocked(accepts, hs[n])
  {
    if hs == [] || Blocked(accepts, hs[0]) then 0 else 1 + Through(accepts, hs[1..])
  }

  /** Header names are short, so what gets through is a prefix. */
  predicate ShortNames(hs: seq<Header>) {
    forall h | h in hs :: |h.name| <= MAX_NAME_LEN
  }

  lemma TakeCons<T>(s: seq<T>, n: nat)
    requires n < |s|
    ensures s[..1 + n] == [s[0]] + s[1..][..n]
  {
  }

  lemma PrefixStep(accepts: Acceptance, hs: seq<Header>)
    requires hs != [] && !Blocked(accepts, hs[0]) && |hs[0].name| <= MAX_NAME_LEN
    requires Delivered(accepts, hs[1..]) == hs[1..][..Through(accepts, hs[1..])]
    ensures Delivered(accepts, hs) == hs[..Through(accepts, hs)]
  {
    DeliveredStep(accepts, hs);
    TakeCons(hs, Through(accepts, hs[1..]));
  }

  lemma {:induction false} DeliveredPrefix(accepts: Acceptance, hs: seq<Header>)
    requires ShortNames(hs)
    ensures Delivered(accepts, hs) == hs[..Through(accepts, hs)]
  {
    if hs == [] {
    } else if Blocked(accepts, hs[0]) {
      DeliveredStep(accepts, hs);
    } else {
      assert hs[0] in hs && forall h | h in hs[1..] :: h in hs;
      DeliveredPrefix(accepts, hs[1..]);
      PrefixStep(accepts, hs);
    }
  }

  lemma {:induction false} LastValueIn(hs: seq<Header>, name: string)
    requires LastValue(hs, name).Some?
    ensures Header(name, LastValue(hs, name).value) in hs
  {
    if hs[|hs| - 1].name != name {
      LastValueIn(hs[..|hs| - 1], name);
    }
  }

  /** Permit at the caller, in terms of the headers that get through. */
  lemma SeenPermit(accepts: Acceptance, hs: seq<Header>)
    requires ShortNames(hs)
    ensures var got := hs[..Through(accepts, hs)];
            Seen(accepts, hs) == Permit <==> LastValue(got, DECISION) == Some(PERMIT) && LastValue(got, STATUS).Some?
  {
    var got := hs[..Through(accepts, hs)];
    DeliveredPrefix(accepts, hs);
    RegisteredLast(got, DECISION);
    RegisteredLast(got, STATUS);
    if LastValue(got, STATUS).Some? {
      LastValueIn(got, STATUS);
      var k := Index(got, Header(STATUS, LastValue(got, STATUS).value));
      assert !Blocked(accepts, hs[k]);
    }
  }

  /** A header at the caller: the last value of its name among those that get through. */
  lemma ShownLast(accepts: Acceptance, hs: seq<Header>, name: string)
    requires ShortNames(hs)
    ensures Shown(Registered(Delivered(accepts, hs)), name) == LastValue(hs[..Through(accepts, hs)], name)
  {
    var got := hs[..Through(accepts, hs)];
    DeliveredPrefix(accepts, hs);
    RegisteredLast(got, name);
    if LastValue(got, name).Some? {
      LastValueIn(got, name);
      var k := Index(got, Header(name, LastValue(got, name).value));
      assert !Blocked(accepts, hs[k]);
    }
  }

  lemma {:induction false} ChildrenShort(xs: seq<Item>)
    ensures ShortNames(FromChildren(xs))
    ensures forall h | h in FromChildren(xs) :: h.name in [DECISION, STATUS, REMOTE_USER, REDIRECT]
  {
    HeaderNames();
    if xs == [] {
    } else {
      ChildrenShort(xs[..|xs| - 1]);
      var x := xs[|xs| - 1];
      if Is(x, "Obligations") {
        FromObligationsNames(x.kids);
      }
    }
  }

  lemma EmittedShort(body: Item)
    requires body.Elem?
    ensures ShortNames(Emitted(body))
    ensures forall h | h in Emitted(body) :: h.name in [DECISION, STATUS, REMOTE_USER, REDIRECT]
  {
    if ResultOf(body).Some? {
      ChildrenShort(ResultOf(body).value.kids);
    }
  }

  /** The last Decision child of the only Result is exactly Permit. */
  predicate EndsInPermit(body: Item)
    requires body.Elem?
  {
    var r := ResultOf(body);
    r.Some?
    && var d := LastChild(r.value.kids, "Decision");
       d.Some? && TextContent(d.value.kids) == "Permit"
  }

  predicate HasStatus(body: Item)
    requires body.Elem?
  {
    var r := ResultOf(body);
    r.Some? && exists x :: x in r.value.kids && Is(x, "Status")
  }

  /** The last decision and the presence of a status, read off the headers that are emitted. */
  lemma EmittedValues(body: Item)
    requires body.Elem?
    ensures EndsInPermit(body) <==> LastValue(Emitted(body), DECISION) == Some(PERMIT)
    ensures HasStatus(body) <==> LastValue(Emitted(body), STATUS).Some?
  {
    var r := ResultOf(body);
    if r.Some? {
      ResultValues(r.value.kids);
      ResultStatus(r.value.kids);
      assert |PERMIT| != |DENY|;
    }
  }

  lemma {:induction false} StatusesAre(xs: seq<Item>)
    ensures forall h | h in FromChildren(xs) && h.name == STATUS :: h.value in {OK, ERROR}
  {
    if xs == [] {
    } else {
      StatusesAre(xs[..|xs| - 1]);
      HeaderNames();
      var x := xs[|xs| - 1];
      if Is(x, "Obligations") {
        FromObligationsNames(x.kids);
      }
    }
  }

  /** Headers that are all non-empty and accepted all get through. */
  lemma AllThrough(accepts: Acceptance, body: Item)
    requires body.Elem? && forall h | h in Emitted(body) :: h.value != "" && accepts(h.name, h.value)
    ensures Emitted(body)[..Through(accepts, Emitted(body))] == Emitted(body)
  {
    var hs := Emitted(body);
    EmittedShort(body);
    assert Through(accepts, hs) == |hs| by {
      assert forall j | 0 <= j < |hs| :: hs[j] in hs && !Blocked(accepts, hs[j]);
    }
  }

  /**
   * Deny bias, exactly: if every emitted header is non-empty and accepted, the caller sees Permit
   * if and only if the first Response holds exactly one Result, its last Decision is exactly
   * Permit and it has a Status.
   */
  lemma DenyBias(accepts: Acceptance, body: Item)
    requires body.Elem? && forall h | h in Emitted(body) :: h.value != "" && accepts(h.name, h.value)
    ensures Seen(accepts, Emitted(body)) == Permit <==> EndsInPermit(body) && HasStatus(body)
  {
    var hs := Emitted(body);
    EmittedShort(body);
    SeenPermit(accepts, hs);
    AllThrough(accepts, body);
    EmittedValues(body);
  }

  /** For every response the remote user and the redirect at the caller are the last ones that get through. */
  lemma ObligationsTold(accepts: Acceptance, body: Item)
    requires body.Elem?
    ensures var got := Emitted(body)[..Through(accepts, Emitted(body))];
            && Told(accepts, Emitted(body)).remoteUser == LastValue(got, REMOTE_USER)
            && Told(accepts, Emitted(body)).redirect == LastValue(got, REDIRECT)
  {
    EmittedShort(body);
    ShownLast(accepts, Emitted(body), REMOTE_USER);
    ShownLast(accepts, Emitted(body), REDIRECT);
  }

  /**
   * If every emitted header is non-empty and accepted, the caller is told the remote user and the
   * redirect that the last obligations of the two kinds grant.
   */
  lemma ObligationsCarried(accepts: Acceptance, body: Item)
    requires body.Elem? && forall h | h in Emitted(body) :: h.value != "" && accepts(h.name, h.value)
    ensures Told(accepts, Emitted(body)).remoteUser == LastGrant(ObligationsOf(body), UPDATE_REMOTE_USER_ID)
    ensures Told(accepts, Emitted(body)).redirect == LastGrant(ObligationsOf(body), REDIRECT_ID)
  {
    AllThrough(accepts, body);
    ObligationsTold(accepts, body);
    ObligationValues(body);
  }

  /** Whatever the response says, the status the caller is told is an error. */
  lemma StatusNeverOk(accepts: Acceptance, body: Item)
    requires body.Elem?
    ensures Told(accepts, Emitted(body)).status == StatusError
  {
    var hs := Emitted(body);
    var got := hs[..Through(accepts, hs)];
    EmittedShort(body);
    ShownLast(accepts, hs, STATUS);
    if LastValue(got, STATUS).Some? {
      LastValueIn(got, STATUS);
      assert forall h | h in got :: h in hs;
      StatusesAre(ResultOf(body).value.kids);
      HeaderNames();
    }
  }

  lemma {:induction false} ValueFrom(xs: seq<Item>, h: Header)
    requires h in FromChildren(xs)
    ensures h.name == DECISION && h.value == PERMIT ==>
              exists x :: x in xs && Is(x, "Decision") && TextContent(x.kids) == "Permit"
    ensures h.name == STATUS ==> exists x :: x in xs && Is(x, "Status")
  {
    var init, x := xs[..|xs| - 1], xs[|xs| - 1];
    HeaderNames();
    if h in FromChildren(init) {
      ValueFrom(init, h);
    } else {
      assert h in FromChild(x) && x in xs;
      assert |PERMIT| == 6 && |DENY| == 4;
      if Is(x, "Obligations") {
        FromObligationsNames(x.kids);
      }
    }
  }

  /** A Permit only ever comes from a Permit, whatever the obligations hold and whatever is refused. */
  lemma PermitFromPermit(accepts: Acceptance, body: Item)
    requires body.Elem? && Seen(accepts, Emitted(body)) == Permit
    ensures var r := ResultOf(body);
            && r.Some?
            && (exists x :: x in r.value.kids && Is(x, "Decision") && TextContent(x.kids) == "Permit")
            && (exists x :: x in r.value.kids && Is(x, "Status"))
  {
    var hs := Emitted(body);
    var got := hs[..Through(accepts, hs)];
    EmittedShort(body);
    SeenPermit(accepts, hs);
    LastValueIn(got, DECISION);
    LastValueIn(got, STATUS);
    assert forall h | h in got :: h in hs;
    ValueFrom(ResultOf(body).value.kids, Header(DECISION, PERMIT));
    ValueFrom(ResultOf(body).value.kids, Header(STATUS, LastValue(got, STATUS).value));
  }

  lemma {:induction false} DecisionsAre(xs: seq<Item>)
    ensures forall h | h in FromChildren(xs) && h.name == DECISION :: h.value in {PERMIT, DENY}
  {
    if xs == [] {
    } else {
      DecisionsAre(xs[..|xs| - 1]);
      HeaderNames();
      var x := xs[|xs| - 1];
      if Is(x, "Obligations") {
        FromObligationsNames(x.kids);
      }
    }
  }

  /**
   * Header i is the first one with an empty or refused value. Before it there is a status and the
   * last decision is PERMIT; from it on the last decision is DENY.
   */
  predicate HidesDeny(accepts: Acceptance, hs: seq<Header>, i: nat) {
    && i < |hs| && Blocked(accepts, hs[i]) && (forall j | 0 <= j < i :: !Blocked(accepts, hs[j]))
    && LastValue(hs[..i], DECISION) == Some(PERMIT) && LastValue(hs[..i], STATUS).Some?
    && LastValue(hs[i..], DECISION) == Some(DENY)
  }

  lemma TailDecision(body: Item, n: nat)
    requires body.Elem? && n <= |Emitted(body)|
    ensures LastValue(Emitted(body)[n..], DECISION) in {None, Some(PERMIT), Some(DENY)}
  {
    var hs := Emitted(body);
    if LastValue(hs[n..], DECISION).Some? {
      LastValueIn(hs[n..], DECISION);
      assert forall h | h in hs[n..] :: h in hs;
      DecisionsAre(ResultOf(body).value.kids);
    }
  }

  lemma {:induction false} FirstBlocked(accepts: Acceptance, hs: seq<Header>, i: nat)
    requires i < |hs| && Blocked(accepts, hs[i]) && forall j | 0 <= j < i :: !Blocked(accepts, hs[j])
    ensures i == Through(accepts, hs)
  {
    if i == 0 {
    } else {
      FirstBlocked(accepts, hs[1..], i - 1);
    }
  }

  /** The headers are cut at one place only. */
  lemma HidesWhereCut(accepts: Acceptance, hs: seq<Header>)
    ensures (exists i: nat :: HidesDeny(accepts, hs, i)) <==> HidesDeny(accepts, hs, Through(accepts, hs))
  {
    forall i: nat | HidesDeny(accepts, hs, i)
      ensures i == Through(accepts, hs)
    {
      FirstBlocked(accepts, hs, i);
    }
  }

  /** What is lost changes a Permit exactly when its last decision is a Deny. */
  lemma LateValues(hs: seq<Header>, n: nat)
    requires n <= |hs| && LastValue(hs[n..], DECISION) in {None, Some(PERMIT), Some(DENY)}
    requires LastValue(hs[..n], DECISION) == Some(PERMIT)
    ensures LastValue(hs, DECISION) == Some(PERMIT) <==> LastValue(hs[n..], DECISION) != Some(DENY)
  {
    assert hs == hs[..n] + hs[n..];
    LastValueCat(hs[..n], hs[n..], DECISION);
    assert |PERMIT| != |DENY|;
  }

  lemma HidesAtCut(accepts: Acceptance, hs: seq<Header>)
    ensures var n := Through(accepts, hs);
            HidesDeny(accepts, hs, n) <==>
              && LastValue(hs[..n], DECISION) == Some(PERMIT) && LastValue(hs[..n], STATUS).Some?
              && LastValue(hs[n..], DECISION) == Some(DENY)
  {
    if Through(accepts, hs) == |hs| {
      assert hs[|hs|..] == [];
    }
  }

  /** The same statement about any headers whose decisions are PERMIT or DENY. */
  lemma LateHeaders(accepts: Acceptance, hs: seq<Header>)
    requires ShortNames(hs)
    requires LastValue(hs[Through(accepts, hs)..], DECISION) in {None, Some(PERMIT), Some(DENY)}
    ensures (Seen(accepts, hs) == Permit ==> LastValue(hs, DECISION) == Some(PERMIT))
            <==> !HidesDeny(accepts, hs, Through(accepts, hs))
  {
    var n := Through(accepts, hs);
    SeenPermit(accepts, hs);
    HidesAtCut(accepts, hs);
    if LastValue(hs[..n], DECISION) == Some(PERMIT) {
      LateValues(hs, n);
    }
  }

  /**
   * A Permit at the caller means that the last Decision of the response is exactly Permit, unless
   * an empty or refused obligation value hides a later Deny; then, and only then, it does not.
   */
  lemma LateDecisions(accepts: Acceptance, body: Item)
    requires body.Elem?
    ensures (Seen(accepts, Emitted(body)) == Permit ==> EndsInPermit(body))
            <==> !exists i: nat :: HidesDeny(accepts, Emitted(body), i)
  {
    var hs := Emitted(body);
    EmittedShort(body);
    EmittedValues(body);
    TailDecision(body, Through(accepts, hs));
    LateHeaders(accepts, hs);
    HidesWhereCut(accepts, hs);
  }

  // ---- A Deny that comes too late ----

  function Leaf(tag: string, text: string): Item { Elem(tag, [], if text == "" then [] else [Xml.Text(text)], false) }

  function StatusChild(): Item {
    Elem("Status", [], [Elem("StatusCode", [], [], true), Xml.Text(STATUS_OK_VAL)], false)
  }

  function Redirect(text: string): Item {
    Elem("Obligation", [Attr("ObligationId", REDIRECT_ID)], [Leaf("AttributeAssignment", text)], false)
  }

  /** A Permit, a status, a redirect obligation with the given text, and then a Deny. */
  function LateDeny(text: string): seq<Item> {
    [ Leaf("Decision", "Permit"), StatusChild(), Elem("Obligations", [], [Redirect(text)], false),
      Leaf("Decision", "Deny") ]
  }

  function Body(result: seq<Item>): Item {
    Elem("Body", [], [Elem("Response", [], [Elem("Result", [], result, false)], false)], false)
  }

  lemma LeafText(tag: string, text: string)
    ensures TextContent(Leaf(tag, text).kids) == text
  {
    if text != "" {
      assert [Xml.Text(text)][1..] == [] && text + "" == text;
    }
  }

  lemma StatusText()
    ensures TextContent(StatusChild().kids) == STATUS_OK_VAL
  {
    var s := StatusChild().kids;
    assert s[1..] == [Xml.Text(STATUS_OK_VAL)] && s[1..][1..] == [];
    assert "" + STATUS_OK_VAL == STATUS_OK_VAL && STATUS_OK_VAL + "" == STATUS_OK_VAL;
  }

  lemma RedirectHeaders(text: string)
    ensures FromObligations([Redirect(text)]) == [Header(REDIRECT, text)]
  {
    var o, a := Redirect(text), Leaf("AttributeAssignment", text);
    LeafText("AttributeAssignment", text);
    assert ByTag([a], "AttributeAssignment")[0] == a;
    assert |UPDATE_REMOTE_USER_ID| != |REDIRECT_ID|;
    assert FromObligation(o) == [Header(REDIRECT, text)];
    assert [o][..0] == [];
  }

  lemma FromNext(xs: seq<Item>, x: Item)
    ensures FromChildren(xs + [x]) == FromChildren(xs) + FromChild(x)
  {
    assert (xs + [x])[..|xs|] == xs;
  }

  lemma FromFour(a: Item, b: Item, c: Item, d: Item)
    ensures FromChildren([a, b, c, d]) == FromChild(a) + FromChild(b) + FromChild(c) + FromChild(d)
  {
    FromNext([], a);
    FromNext([a], b);
    FromNext([a, b], c);
    FromNext([a, b, c], d);
    assert [] + [a] == [a] && [a] + [b] == [a, b] && [a, b] + [c] == [a, b, c] && [a, b, c] + [d] == [a, b, c, d];
    assert [] + FromChild(a) == FromChild(a);
  }

  lemma DecisionHeader(text: string)
    ensures FromChild(Leaf("Decision", text)) == [Header(DECISION, if text == "Permit" then PERMIT else DENY)]
  {
    LeafText("Decision", text);
  }

  lemma StatusHeader()
    ensures FromChild(StatusChild()) == [Header(STATUS, OK)]
  {
    StatusText();
  }

  lemma ObligationsHeader(text: string)
    ensures FromChild(Elem("Obligations", [], [Redirect(text)], false)) == [Header(REDIRECT, text)]
  {
    RedirectHeaders(text);
  }

  lemma FourOnes<T>(a: T, b: T, c: T, d: T)
    ensures [a] + [b] + [c] + [d] == [a, b, c, d]
  {
  }

  lemma LateDenyHeaders(text: string)
    ensures FromChildren(LateDeny(text)) ==
            [Header(DECISION, PERMIT), Header(STATUS, OK), Header(REDIRECT, text), Header(DECISION, DENY)]
  {
    DecisionHeader("Permit");
    StatusHeader();
    ObligationsHeader(text);
    DecisionHeader("Deny");
    FromFour(Leaf("Decision", "Permit"), StatusChild(), Elem("Obligations", [], [Redirect(text)], false),
             Leaf("Decision", "Deny"));
    FourOnes(Header(DECISION, PERMIT), Header(STATUS, OK), Header(REDIRECT, text), Header(DECISION, DENY));
  }

  lemma BodyResult(result: seq<Item>)
    requires ByTag(result, "Response") == [] && ByTag(result, "Result") == []
    ensures ResultOf(Body(result)) == Some(Elem("Result", [], result, false))
  {
    var x := Elem("Result", [], result, false);
    var y := Elem("Response", [], [x], false);
    assert [x][1..] == [] && [y][1..] == [];
    assert ByTag([x], "Result") == [x] && ByTag([x], "Response") == [];
    assert ByTag([y], "Response") == [y];
  }

  lemma LateDenySeen(accepts: Acceptance, text: string)
    requires accepts(DECISION, PERMIT) && accepts(STATUS, OK) && (text == "" || !accepts(REDIRECT, text))
    ensures Seen(accepts, [Header(DECISION, PERMIT), Header(STATUS, OK), Header(REDIRECT, text), Header(DECISION,
            DENY)])
            == Permit
  {
    var a, b := Header(DECISION, PERMIT), Header(STATUS, OK);
    var hs := [a, b, Header(REDIRECT, text), Header(DECISION, DENY)];
    HeaderNames();
    assert Blocked(accepts, hs[2]) && !Blocked(accepts, hs[0]) && !Blocked(accepts, hs[1]);
    assert Through(accepts, hs) == 2;
    assert hs[..2] == [a, b] && [a, b][..1] == [a];
    SingleValue(a, DECISION);
    SeenPermit(accepts, hs);
  }

  lemma LastOfLateDeny(text: string)
    ensures LastChild(LateDeny(text), "Decision") == Some(Leaf("Decision", "Deny"))
  {
  }

  /** No element with the tag anywhere. */
  predicate Untagged(xs: seq<Item>, tag: string) {
    xs == [] || ((xs[0].Elem? ==> xs[0].tag != tag && Untagged(xs[0].kids, tag)) && Untagged(xs[1..], tag))
  }

  lemma {:induction false} AllUntagged(xs: seq<Item>, tag: string)
    requires forall x | x in xs :: x.Elem? ==> x.tag != tag && Untagged(x.kids, tag)
    ensures Untagged(xs, tag)
  {
    if xs == [] {
    } else {
      AllUntagged(xs[1..], tag);
    }
  }

  lemma {:induction false} NoneTagged(xs: seq<Item>, tag: string)
    requires Untagged(xs, tag)
    ensures ByTag(xs, tag) == []
  {
    if xs == [] {
    } else {
      if xs[0].Elem? {
        NoneTagged(xs[0].kids, tag);
      }
      NoneTagged(xs[1..], tag);
    }
  }

  lemma NoResults(text: string, tag: string)
    requires tag == "Response" || tag == "Result"
    ensures ByTag(LateDeny(text), tag) == []
  {
    var xs := LateDeny(text);
    assert |tag| == 8 || |tag| == 6;
    AllUntagged(xs[0].kids, tag);
    AllUntagged(xs[3].kids, tag);
    AllUntagged(StatusChild().kids, tag);
    AllUntagged(Leaf("AttributeAssignment", text).kids, tag);
    AllUntagged([Leaf("AttributeAssignment", text)], tag);
    AllUntagged([Redirect(text)], tag);
    AllUntagged(xs, tag);
    NoneTagged(xs, tag);
  }

  lemma StatusOfLateDeny(text: string)
    ensures forall x | x in LateDeny(text) && Is(x, "Status") :: ByTag(x.kids, "StatusCode") != []
  {
    var s := StatusChild().kids;
    assert ByTag(s, "StatusCode")[0] == s[0];
  }

  /** A body with just this result. */
  lemma BodyOf(result: seq<Item>)
    requires ByTag(result, "Response") == [] && ByTag(result, "Result") == []
    requires forall x | x in result && Is(x, "Status") :: ByTag(x.kids, "StatusCode") != []
    ensures var body := Body(result);
            && StatusCoded(body) && ResultOf(body) == Some(Elem("Result", [], result, false))
            && Emitted(body) == FromChildren(result)
  {
    BodyResult(result);
  }

  lemma LateDenyEmits(text: string, result: seq<Item>)
    requires result == LateDeny(text)
    ensures StatusCoded(Body(result)) && ResultOf(Body(result)) == Some(Elem("Result", [], result, false))
    ensures Emitted(Body(result)) ==
            [Header(DECISION, PERMIT), Header(STATUS, OK), Header(REDIRECT, text), Header(DECISION, DENY)]
  {
    NoResults(text, "Response");
    NoResults(text, "Result");
    StatusOfLateDeny(text);
    BodyOf(result);
    LateDenyHeaders(text);
  }

  /** With any such text that is empty or refused, the caller does see Permit although the last Decision is Deny. */
  lemma DenyHidden(accepts: Acceptance, text: string)
    requires accepts(DECISION, PERMIT) && accepts(STATUS, OK) && (text == "" || !accepts(REDIRECT, text))
    ensures var body := Body(LateDeny(text));
            && StatusCoded(body) && ResultOf(body) == Some(Elem("Result", [], LateDeny(text), false))
            && Seen(accepts, Emitted(body)) == Permit
    ensures LastChild(LateDeny(text), "Decision") == Some(Leaf("Decision", "Deny"))
  {
    LateDenyEmits(text, LateDeny(text));
    LateDenySeen(accepts, text);
    LastOfLateDeny(text);
  }

  // ---- End to end ----

  /** XML keeps the text of the obligations. */
  predicate ObligationsKept(body: Item)
    requires body.Elem?
  {
    forall h | h in Emitted(body) :: TextOnly(h.value)
  }

  lemma DecisionKept()
    ensures AttrOnly(DECISION)
  {
  }

  lemma StatusKept()
    ensures AttrOnly(STATUS)
  {
  }

  lemma RemoteUserKept()
    ensures AttrOnly(REMOTE_USER)
  {
  }

  lemma RedirectKept()
    ensures AttrOnly(REDIRECT)
  {
  }

  lemma EmittedNamed(body: Item)
    requires body.Elem? && ObligationsKept(body)
    ensures forall h | h in Emitted(body) :: NamedHeader(h)
  {
    EmittedShort(body);
    DecisionKept();
    StatusKept();
    RemoteUserKept();
    RedirectKept();
    HeaderNames();
  }

  /** The remote side: the response shim around a fresh node, filled and printed. */
  method Answer(remote: Ddf.Store, u: Wire.UrlCodec, body: Item) returns (s: string)
    requires remote.Valid() && Wire.CodecOk(u) && body.Elem? && StatusCoded(body) && ObligationsKept(body)
    modifies remote, remote.live
    ensures s == Wire.Encode(u, Response(Emitted(body)))
  {
    ghost var f := remote.View();
    var ret := Records.NewLeaf(remote, None, Value.Empty);
    var shim := new RemotedResponse(remote, ret, f);
    ProcessAuthzResponse(body, shim);
    assert [] + Emitted(body) == Emitted(body);
    ghost var g := remote.View();
    s := Packets.Insertion(remote, g, u, ret, "");
    assert "" + Wire.Encode(u, Response(Emitted(body))) == Wire.Encode(u, Response(Emitted(body)));
  }

  /** unwrap and processResponse on a tree that was just read. */
  method Decide(local: Ddf.Store, accepts: Acceptance, out: Forest.Body, ghost t: Trees.Tree)
    returns (answer: AuthzResponse)
    requires local.Valid() && out in local.live && out in local.View() && Trees.TreeOf(local.View(), out) == t
    requires Replayable(HeadersAt(t))
    modifies local.live
    ensures answer == AnswerOf(Registered(UpToRefused(accepts, Replay(HeadersAt(t)))))
  {
    var request := new LocalRequest(accepts);
    var outcome := Unwrap(local, request, out);
    ghost var hs := UpToRefused(accepts, Replay(HeadersAt(t)));
    assert [] + hs == hs;
    answer := ProcessResponse(request);
  }

  lemma ResponseReadable(u: Wire.UrlCodec, hs: seq<Header>)
    requires Wire.CodecOk(u) && forall h | h in hs :: NamedHeader(h)
    ensures Packets.Extractable(u, Wire.Encode(u, Response(hs)))
  {
    ResponseOk(hs);
    Packets.PacketReadable(u, Response(hs));
  }

  /** The local side: read the answer, replay it and decide. */
  method Conclude(local: Ddf.Store, accepts: Acceptance, u: Wire.UrlCodec, s: string, ghost hs: seq<Header>)
      returns (answer: AuthzResponse)
    requires local.Valid() && Wire.CodecOk(u) && s == Wire.Encode(u, Response(hs))
             && forall h | h in hs :: NamedHeader(h)
    modifies local, local.live
    ensures answer == Told(accepts, hs)
  {
    ResponseSurvives(u, hs);
    ResponseReadable(u, hs);
    var out := Packets.Extraction(local, u, s, null);
    assert out in local.View();
    answer := Decide(local, accepts, out, Wire.Decode(u, s).value);
  }

  /**
   * pep_check_authorization, from the response of the decision point to the caller: a Permit
   * comes from a Permit and a Status in the only Result of the first Response, and when no header is
   * empty or refused the caller is told exactly the decision and the obligations of the response.
   */
  method CheckAuthorization(remote: Ddf.Store, local: Ddf.Store, accepts: Acceptance, u: Wire.UrlCodec, body: Item)
      returns (answer: AuthzResponse)
    requires remote.Valid() && local.Valid() && remote != local && remote.live !! local.live
    requires Wire.CodecOk(u) && body.Elem? && StatusCoded(body) && ObligationsKept(body)
    modifies remote, remote.live, local, local.live
    ensures answer == Told(accepts, Emitted(body)) && answer.status == StatusError
    ensures answer.decision == Permit ==>
              var r := ResultOf(body);
              && r.Some?
              && (exists x :: x in r.value.kids && Is(x, "Decision") && TextContent(x.kids) == "Permit")
              && (exists x :: x in r.value.kids && Is(x, "Status"))
    ensures (forall h | h in Emitted(body) :: h.value != "" && accepts(h.name, h.value)) ==>
              && (answer.decision == Permit <==> EndsInPermit(body) && HasStatus(body))
              && answer.remoteUser == LastGrant(ObligationsOf(body), UPDATE_REMOTE_USER_ID)
              && answer.redirect == LastGrant(ObligationsOf(body), REDIRECT_ID)
  {
    var s := Answer(remote, u, body);
    EmittedNamed(body);
    answer := Conclude(local, accepts, u, s, Emitted(body));
    StatusNeverOk(accepts, body);
    if answer.decision == Permit {
      PermitFromPermit(accepts, body);
    }
    if forall h | h in Emitted(body) :: h.value != "" && accepts(h.name, h.value) {
      DenyBias(accepts, body);
      ObligationsCarried(accepts, body);
    }
  }
}
