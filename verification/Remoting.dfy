/** RemotedHandler.cpp: requests and responses as DDF trees, on both sides of the wire. */
module Remoting {
  import opened Basics
  import opened Forest
  import Paths
  import opened Trees
  import opened Grafts
  import opened Xml
  import opened Wire
  import opened Ddf
  import opened Reading
  import opened Packets
  import opened Records
  import Numbers
  import Ops

  // ---- Requests ----

  /** What the PEPRequest accessors return; Option stands for C strings that may be null. */
  datatype Request = Request(
    applicationId: Option<string>, scheme: Option<string>, hostname: Option<string>, port: Long,
    contentType: string, body: Option<string>, contentLength: Long, remoteUser: string,
    clientAddr: string, verb: Option<string>, uri: Option<string>, url: Option<string>,
    query: Option<string>, certificates: seq<string>)

  datatype Field = Field(name: string, value: Value)

  /** DDF::string on a C string. */
  function SafeText(s: Option<string>): Value {
    Str(if s.None? then None else Dup(s.value), true)
  }

  /** DDF::unsafe_string. */
  function UnsafeText(s: Option<string>): Value {
    Str(if s.None? then None else Dup(s.value), false)
  }

  /** The members RemotedHandler::wrap adds for every request, in order. */
  function Fields(r: Request): seq<Field> {
    [ Field("application_id", SafeText(r.applicationId)), Field("scheme", SafeText(r.scheme)),
      Field("hostname", UnsafeText(r.hostname)), Field("port", Int(r.port)),
      Field("content_type", SafeText(Some(r.contentType))), Field("body", SafeText(r.body)),
      Field("content_length", Int(r.contentLength)), Field("remote_user", SafeText(Some(r.remoteUser))),
      Field("client_addr", SafeText(Some(r.clientAddr))), Field("method", SafeText(r.verb)),
      Field("uri", UnsafeText(r.uri)), Field("url", UnsafeText(r.url)), Field("query", SafeText(r.query)) ]
  }

  function FieldTrees(xs: seq<Field>): seq<Tree> {
    seq(|xs|, i requires 0 <= i < |xs| => Leaf(Some(xs[i].name), xs[i].value))
  }

  function Certificates(certs: seq<string>): seq<Tree> {
    seq(|certs|, i requires 0 <= i < |certs| => Leaf(None, SafeText(Some(certs[i]))))
  }

  /** The tree once the first fields are in. */
  function Partly(address: string, xs: seq<Field>, i: nat): Tree
    requires i <= |xs|
  {
    Tree(Stored(Some(address)), Struct, FieldTrees(xs[..i]), None)
  }

  /** The tree with all fields and the given certificates. */
  function WithCertificates(address: string, xs: seq<Field>, certs: seq<string>): Tree {
    Tree(Stored(Some(address)), Struct,
         FieldTrees(xs) + [Tree(Some("certificates"), List, Certificates(certs), None)], None)
  }

  /** The finished tree: the list of certificates is there only when there are some. */
  function Whole(address: string, xs: seq<Field>, certs: seq<string>): Tree {
    if certs == [] then Partly(address, xs, |xs|) else WithCertificates(address, xs, certs)
  }

  /** What wrap builds. */
  function Wrapped(address: string, r: Request): Tree {
    Whole(address, Fields(r), r.certificates)
  }

  /** The field names are plain, distinct and none is that of the certificates. */
  predicate FieldsOk(xs: seq<Field>) {
    && (forall i | 0 <= i < |xs| :: MemberName(xs[i].name) && xs[i].name != "certificates" && TextOk(xs[i].value))
    && (forall i, j | 0 <= i < j < |xs| :: xs[i].name != xs[j].name)
  }

  /** The length, the first and the last character tell the field names apart. */
  function Looks(name: string): (int, char, char)
    requires name != ""
  {
    (|name|, name[0], name[|name| - 1])
  }

  lemma FieldLooks(r: Request, i: nat)
    requires i < 13
    ensures MemberName(Fields(r)[i].name) && TextOk(Fields(r)[i].value)
    ensures Looks(Fields(r)[i].name) == [(14, 'a', 'd'), (6, 's', 'e'), (8, 'h', 'e'), (4, 'p', 't'), (12, 'c', 'e'),
                                         (4, 'b', 'y'), (14, 'c', 'h'), (11, 'r', 'r'), (11, 'c', 'r'), (6, 'm', 'd'),
                                         (3, 'u', 'i'), (3, 'u', 'l'), (5, 'q', 'y')][i]
  {
  }

  lemma RequestFields(r: Request)
    ensures FieldsOk(Fields(r))
  {
    var xs := Fields(r);
    forall i | 0 <= i < 13
      ensures MemberName(xs[i].name) && xs[i].name != "certificates" && TextOk(xs[i].value)
    {
      FieldLooks(r, i);
      assert Looks("certificates") == (12, 'c', 's');
    }
    forall i, j | 0 <= i < j < 13
      ensures xs[i].name != xs[j].name
    {
      FieldLooks(r, i);
      FieldLooks(r, j);
    }
  }

  /** xs are the fields of r, one by one. */
  predicate FieldsOf(xs: seq<Field>, r: Request) {
    && |xs| == 13
    && xs[0] == Field("application_id", SafeText(r.applicationId))
    && xs[1] == Field("scheme", SafeText(r.scheme))
    && xs[2] == Field("hostname", UnsafeText(r.hostname))
    && xs[3] == Field("port", Int(r.port))
    && xs[4] == Field("content_type", SafeText(Some(r.contentType)))
    && xs[5] == Field("body", SafeText(r.body))
    && xs[6] == Field("content_length", Int(r.contentLength))
    && xs[7] == Field("remote_user", SafeText(Some(r.remoteUser)))
    && xs[8] == Field("client_addr", SafeText(Some(r.clientAddr)))
    && xs[9] == Field("method", SafeText(r.verb))
    && xs[10] == Field("uri", UnsafeText(r.uri))
    && xs[11] == Field("url", UnsafeText(r.url))
    && xs[12] == Field("query", SafeText(r.query))
  }

  lemma FieldsAre(xs: seq<Field>, r: Request)
    requires xs == Fields(r)
    ensures FieldsOk(xs)
    ensures FieldsOf(xs, r)
  {
    RequestFields(r);
  }

  lemma NextUnused(address: string, xs: seq<Field>, i: nat)
    requires FieldsOk(xs) && i < |xs|
    ensures Unused(Partly(address, xs, i), xs[i].name)
    ensures Partly(address, xs, i + 1) == Partly(address, xs, i).(kids := FieldTrees(xs[..i]) +
            [Leaf(Some(xs[i].name), xs[i].value)])
  {
  }

  /** One addmember of wrap. */
  method AddNext(st: Store, ghost f: Heap, m: Body, address: string, ghost xs: seq<Field>, ghost i: nat,
      name: string, v: Value)
    requires st.Valid() && m in st.live && FieldsOk(xs) && i < |xs| && xs[i] == Field(name, v)
    requires Detached(f, st.View(), m, Partly(address, xs, i))
    modifies st, st.live
    ensures st.Valid() && m in st.live && (forall b | b in st.live :: b in old(st.live) || fresh(b))
    ensures Detached(f, st.View(), m, Partly(address, xs, i + 1))
  {
    NextUnused(address, xs, i);
    var k := AddField(st, f, m, Partly(address, xs, i), name, v);
  }

  /** The application and the scheme. */
  method AddApplication(st: Store, ghost f: Heap, m: Body, address: string, ghost xs: seq<Field>, r: Request)
    requires st.Valid() && m in st.live && FieldsOk(xs) && |xs| == 13
    requires Detached(f, st.View(), m, Partly(address, xs, 0))
    requires xs[0] == Field("application_id", SafeText(r.applicationId)) && xs[1] == Field("scheme", SafeText(r.scheme))
    modifies st, st.live
    ensures st.Valid() && m in st.live && (forall b | b in st.live :: b in old(st.live) || fresh(b))
    ensures Detached(f, st.View(), m, Partly(address, xs, 2))
  {
    AddNext(st, f, m, address, xs, 0, "application_id", SafeText(r.applicationId));
    AddNext(st, f, m, address, xs, 1, "scheme", SafeText(r.scheme));
  }

  /** The server side of the connection. */
  method AddServer(st: Store, ghost f: Heap, m: Body, address: string, ghost xs: seq<Field>, r: Request)
    requires st.Valid() && m in st.live && FieldsOk(xs) && |xs| == 13
    requires Detached(f, st.View(), m, Partly(address, xs, 2))
    requires xs[2] == Field("hostname", UnsafeText(r.hostname)) && xs[3] == Field("port", Int(r.port))
    modifies st, st.live
    ensures st.Valid() && m in st.live && (forall b | b in st.live :: b in old(st.live) || fresh(b))
    ensures Detached(f, st.View(), m, Partly(address, xs, 4))
  {
    AddNext(st, f, m, address, xs, 2, "hostname", UnsafeText(r.hostname));
    AddNext(st, f, m, address, xs, 3, "port", Int(r.port));
  }

  /** The content. */
  method AddContent(st: Store, ghost f: Heap, m: Body, address: string, ghost xs: seq<Field>, r: Request)
    requires st.Valid() && m in st.live && FieldsOk(xs) && |xs| == 13
    requires Detached(f, st.View(), m, Partly(address, xs, 4))
    requires xs[4] == Field("content_type", SafeText(Some(r.contentType))) && xs[5] == Field("body", SafeText(r.body))
    requires xs[6] == Field("content_length", Int(r.contentLength))
    modifies st, st.live
    ensures st.Valid() && m in st.live && (forall b | b in st.live :: b in old(st.live) || fresh(b))
    ensures Detached(f, st.View(), m, Partly(address, xs, 7))
  {
    AddNext(st, f, m, address, xs, 4, "content_type", SafeText(Some(r.contentType)));
    AddNext(st, f, m, address, xs, 5, "body", SafeText(r.body));
    AddNext(st, f, m, address, xs, 6, "content_length", Int(r.contentLength));
  }

  /** The client. */
  method AddClient(st: Store, ghost f: Heap, m: Body, address: string, ghost xs: seq<Field>, r: Request)
    requires st.Valid() && m in st.live && FieldsOk(xs) && |xs| == 13
    requires Detached(f, st.View(), m, Partly(address, xs, 7))
    requires xs[7] == Field("remote_user", SafeText(Some(r.remoteUser)))
             && xs[8] == Field("client_addr", SafeText(Some(r.clientAddr)))
    requires xs[9] == Field("method", SafeText(r.verb))
    modifies st, st.live
    ensures st.Valid() && m in st.live && (forall b | b in st.live :: b in old(st.live) || fresh(b))
    ensures Detached(f, st.View(), m, Partly(address, xs, 10))
  {
    AddNext(st, f, m, address, xs, 7, "remote_user", SafeText(Some(r.remoteUser)));
    AddNext(st, f, m, address, xs, 8, "client_addr", SafeText(Some(r.clientAddr)));
    AddNext(st, f, m, address, xs, 9, "method", SafeText(r.verb));
  }

  /** What was asked for. */
  method AddTarget(st: Store, ghost f: Heap, m: Body, address: string, ghost xs: seq<Field>, r: Request)
    requires st.Valid() && m in st.live && FieldsOk(xs) && |xs| == 13
    requires Detached(f, st.View(), m, Partly(address, xs, 10))
    requires xs[10] == Field("uri", UnsafeText(r.uri)) && xs[11] == Field("url", UnsafeText(r.url))
    requires xs[12] == Field("query", SafeText(r.query))
    modifies st, st.live
    ensures st.Valid() && m in st.live && (forall b | b in st.live :: b in old(st.live) || fresh(b))
    ensures Detached(f, st.View(), m, Partly(address, xs, 13))
  {
    AddNext(st, f, m, address, xs, 10, "uri", UnsafeText(r.uri));
    AddNext(st, f, m, address, xs, 11, "url", UnsafeText(r.url));
    AddNext(st, f, m, address, xs, 12, "query", SafeText(r.query));
  }

  /** The fields of wrap that come first. */
  method AddFirstFields(st: Store, ghost f: Heap, m: Body, address: string, ghost xs: seq<Field>, r: Request)
    requires st.Valid() && m in st.live && FieldsOk(xs) && FieldsOf(xs, r)
    requires Detached(f, st.View(), m, Partly(address, xs, 0))
    modifies st, st.live
    ensures st.Valid() && m in st.live && (forall b | b in st.live :: b in old(st.live) || fresh(b))
    ensures Detached(f, st.View(), m, Partly(address, xs, 7))
  {
    AddApplication(st, f, m, address, xs, r);
    AddServer(st, f, m, address, xs, r);
    AddContent(st, f, m, address, xs, r);
  }

  /** The fields of wrap that come last. */
  method AddLastFields(st: Store, ghost f: Heap, m: Body, address: string, ghost xs: seq<Field>, r: Request)
    requires st.Valid() && m in st.live && FieldsOk(xs) && FieldsOf(xs, r)
    requires Detached(f, st.View(), m, Partly(address, xs, 7))
    modifies st, st.live
    ensures st.Valid() && m in st.live && (forall b | b in st.live :: b in old(st.live) || fresh(b))
    ensures Detached(f, st.View(), m, Partly(address, xs, 13))
  {
    AddClient(st, f, m, address, xs, r);
    AddTarget(st, f, m, address, xs, r);
  }

  /** The fields of wrap. */
  method AddFields(st: Store, ghost f: Heap, m: Body, address: string, ghost xs: seq<Field>, r: Request)
    requires st.Valid() && m in st.live && FieldsOk(xs) && FieldsOf(xs, r)
    requires Detached(f, st.View(), m, Partly(address, xs, 0))
    modifies st, st.live
    ensures st.Valid() && m in st.live && (forall b | b in st.live :: b in old(st.live) || fresh(b))
    ensures Detached(f, st.View(), m, Partly(address, xs, |xs|))
  {
    AddFirstFields(st, f, m, address, xs, r);
    AddLastFields(st, f, m, address, xs, r);
  }

  lemma CertificatesUnused(address: string, xs: seq<Field>)
    requires FieldsOk(xs)
    ensures Unused(Partly(address, xs, |xs|), "certificates")
    ensures Partly(address, xs, |xs|).(kids := FieldTrees(xs) + [Leaf(Some("certificates"), List)]) ==
            WithCertificates(address, xs, [])
  {
    assert xs[..|xs|] == xs && Certificates([]) == [];
    forall k | k in FieldTrees(xs)
      ensures k.name != Some("certificates")
    {
      var j := Index(FieldTrees(xs), k);
    }
  }

  lemma LastIsList(f: Heap, h: Heap, m: Body, t: Tree, c: Body)
    requires Detached(f, h, m, t) && LastKidIs(h, m, c) && t.kids != []
    ensures h[c].value == t.kids[|t.kids| - 1].value
    ensures t.kids[|t.kids| - 1].cursor.None? ==> h[c].cursor == null
  {
    TreeOfKids(h, m);
    assert Linked(h, m) && Proper(h, c);
  }

  /** The empty certificate list of wrap. */
  method StartCertificates(st: Store, ghost f: Heap, m: Body, address: string, ghost xs: seq<Field>)
    returns (clist: Body)
    requires st.Valid() && m in st.live && FieldsOk(xs) && Detached(f, st.View(), m, Partly(address, xs, |xs|))
    modifies st, st.live
    ensures st.Valid() && m in st.live && clist in st.live && (forall b | b in st.live :: b in old(st.live) || fresh(b))
    ensures Detached(f, st.View(), m, WithCertificates(address, xs, [])) && LastKidIs(st.View(), m, clist)
    ensures st.View()[clist].value.List? && st.View()[clist].cursor == null
  {
    CertificatesUnused(address, xs);
    clist := AddField(st, f, m, Partly(address, xs, |xs|), "certificates", List);
    LastIsList(f, st.View(), m, WithCertificates(address, xs, []), clist);
  }

  lemma CertificateNext(address: string, xs: seq<Field>, certs: seq<string>, i: nat)
    requires i < |certs|
    ensures var t := WithCertificates(address, xs, certs[..i]);
            var last := t.kids[|t.kids| - 1];
            WithCertificates(address, xs, certs[..i + 1]) ==
              WithLast(t, last.(kids := last.kids + [Leaf(None, SafeText(Some(certs[i])))]))
  {
    assert Certificates(certs[..i + 1]) == Certificates(certs[..i]) + [Leaf(None, SafeText(Some(certs[i])))];
  }

  method AddCertificate(st: Store, ghost f: Heap, m: Body, address: string, ghost xs: seq<Field>,
      certs: seq<string>, i: nat, clist: Body)
    requires st.Valid() && m in st.live && clist in st.live && i < |certs|
    requires Detached(f, st.View(), m, WithCertificates(address, xs, certs[..i])) && LastKidIs(st.View(), m, clist)
    requires st.View()[clist].value.List? && st.View()[clist].cursor == null
    modifies st, st.live
    ensures st.Valid() && m in st.live && clist in st.live && (forall b | b in st.live :: b in old(st.live) || fresh(b))
    ensures Detached(f, st.View(), m, WithCertificates(address, xs, certs[..i + 1])) && LastKidIs(st.View(), m, clist)
    ensures st.View()[clist].value.List? && st.View()[clist].cursor == null
  {
    ghost var h, t := st.View(), WithCertificates(address, xs, certs[..i]);
    CertificateNext(address, xs, certs, i);
    var x509 := NewLeaf(st, None, SafeText(Some(certs[i])));
    AddToLast(st, f, h, m, t, clist, x509, Leaf(None, SafeText(Some(certs[i]))));
  }

  /** The certificate list of wrap. */
  method AddCertificates(st: Store, ghost f: Heap, m: Body, address: string, ghost xs: seq<Field>, certs: seq<string>)
    requires st.Valid() && m in st.live && FieldsOk(xs) && Detached(f, st.View(), m, Partly(address, xs, |xs|))
    modifies st, st.live
    ensures st.Valid() && m in st.live && (forall b | b in st.live :: b in old(st.live) || fresh(b))
    ensures Detached(f, st.View(), m, WithCertificates(address, xs, certs))
  {
    var clist := StartCertificates(st, f, m, address, xs);
    var i := 0;
    assert certs[..0] == [];
    while i < |certs|
      invariant 0 <= i <= |certs| && st.Valid() && m in st.live && clist in st.live
      invariant forall b | b in st.live :: b in old(st.live) || fresh(b)
      invariant Detached(f, st.View(), m, WithCertificates(address, xs, certs[..i])) && LastKidIs(st.View(), m, clist)
      invariant st.View()[clist].value.List? && st.View()[clist].cursor == null
    {
      AddCertificate(st, f, m, address, xs, certs, i, clist);
      i := i + 1;
    }
    assert certs[..i] == certs;
  }

  method WrapFields(st: Store, address: string, ghost xs: seq<Field>, r: Request) returns (m: Body)
    requires st.Valid() && FieldsOk(xs)
    requires FieldsOf(xs, r)
    modifies st, st.live
    ensures st.Valid() && m in st.live && (forall b | b in st.live :: b in old(st.live) || fresh(b))
    ensures Detached(old(st.View()), st.View(), m, Whole(address, xs, r.certificates))
  {
    ghost var f := st.View();
    m := NewLeaf(st, Some(address), Struct);
    assert FieldTrees(xs[..0]) == [];
    AddFields(st, f, m, address, xs, r);
    if r.certificates != [] {
      AddCertificates(st, f, m, address, xs, r.certificates);
    }
  }

  /** RemotedHandler::wrap, called with certs set and without extra headers. */
  method Wrap(st: Store, address: string, r: Request) returns (m: Body)
    requires st.Valid()
    modifies st, st.live
    ensures st.Valid() && m in st.live && (forall b | b in st.live :: b in old(st.live) || fresh(b))
    ensures Detached(old(st.View()), st.View(), m, Wrapped(address, r))
  {
    ghost var xs := Fields(r);
    FieldsAre(xs, r);
    m := WrapFields(st, address, xs, r);
  }

  // ---- The accessors of RemotedRequest ----

  /** DDF::string on the result of a lookup. */
  function StringAt(t: Tree, name: string): Option<string> {
    var k := TreeGet(t, name);
    if k.Some? && k.value.value.Str? then k.value.value.text else None
  }

  /** The accessors that return a std::string. */
  function StdStringAt(t: Tree, name: string): string {
    var s := StringAt(t, name);
    if s.Some? then s.value else ""
  }

  /** DDF::integer on the result of a lookup. */
  function IntegerAt(t: Tree, name: string): int {
    var k := TreeGet(t, name);
    if k.None? then 0 else match k.value.value
      case Int(n) => n
      case Str(text, _) => if text.Some? then Numbers.Atol(text.value) else 0
      case Struct => |k.value.kids|
      case List => |k.value.kids|
      case _ => 0
  }

  /** The strings at the start of a list, up to the first child that holds none. */
  function LeadingStrings(kids: seq<Tree>): seq<string> {
    if kids == [] || !kids[0].value.Str? || kids[0].value.text.None? then []
    else [kids[0].value.text.value] + LeadingStrings(kids[1..])
  }

  function StringsAt(t: Tree, name: string): seq<string> {
    var k := TreeGet(t, name);
    if k.None? || !k.value.value.Container() then [] else LeadingStrings(k.value.kids)
  }

  /** getClientCertificates, with certificates as strings. */
  function CertificatesAt(t: Tree): seq<string> {
    StringsAt(t, "certificates")
  }

  /** m_input[name].string() */
  method GetString(st: Store, input: Body, name: string) returns (s: Option<string>)
    requires st.Valid() && input in st.live
    ensures st.Valid() && input in st.View() && s == StringAt(TreeOf(st.View(), input), name)
  {
    var k := st.GetMember(input, name);
    GetAgrees(st.View(), input, name);
    s := None;
    if k != null {
      assert NodeOf(k) == st.View()[k];
      if k.value.Str? {
        s := k.value.text;
      }
    }
  }

  /** m_input[name].integer() */
  method GetInteger(st: Store, input: Body, name: string) returns (n: int)
    requires st.Valid() && input in st.live
    ensures st.Valid() && input in st.View() && n == IntegerAt(TreeOf(st.View(), input), name)
  {
    var k := st.GetMember(input, name);
    GetAgrees(st.View(), input, name);
    n := 0;
    if k != null {
      assert NodeOf(k) == st.View()[k] && Spelled(k);
      match k.value {
        case Int(i) => n := i;
        case Str(text, _) => n := if text.Some? then Numbers.Atol(text.value) else 0;
        case Struct => n := k.count;
        case List => n := k.count;
        case _ =>
      }
    }
  }

  /** The node behind out[name] and its first child, as the reading loops start. */
  lemma WalkStarts(f: Heap, c: Body)
    requires Wf(f) && c in f && f[c].value.Container()
    ensures Proper(f, c)
    ensures Ops.Advance(f[c], Ops.First).1 == if f[c].kids == [] then null else f[c].kids[0]
    ensures Ops.Advance(f[c], Ops.First).0 == if f[c].kids == [] then null else f[c].kids[0]
  {
  }

  /** next after the i-th child was handed out. */
  lemma WalkGoesOn(f: Heap, c: Body, i: nat)
    requires Wf(f) && c in f && f[c].value.Container() && i < |f[c].kids| && f[c].cursor == f[c].kids[i]
    ensures Proper(f, c)
    ensures Ops.Advance(f[c], Ops.Next).1 == if i + 1 < |f[c].kids| then f[c].kids[i + 1] else null
    ensures i + 1 < |f[c].kids| ==> Ops.Advance(f[c], Ops.Next).0 == f[c].kids[i + 1]
  {
    var ks := f[c].kids;
    assert Proper(f, c) && Linked(f, c);
    OnlyAt(ks, i);
    OnlyAt(ks, |ks| - 1);
  }

  lemma {:induction false} LeadingAt(kids: seq<Tree>, i: nat)
    requires i <= |kids| && forall j | 0 <= j < i :: kids[j].value.Str? && kids[j].value.text.Some?
    ensures |LeadingStrings(kids)| >= i
    ensures forall j | 0 <= j < i :: LeadingStrings(kids)[j] == kids[j].value.text.value
    ensures i == |kids| || !kids[i].value.Str? || kids[i].value.text.None? ==> |LeadingStrings(kids)| == i
  {
    if i == 0 {
    } else {
      assert forall j | 0 <= j < i - 1 :: kids[1..][j] == kids[j + 1];
      LeadingAt(kids[1..], i - 1);
    }
  }

  /** g is f with the cursor of c moved. */
  ghost predicate Walked(f: Heap, g: Heap, c: Body) {
    && Wf(f) && Wf(g) && c in f && c in g
    && (forall k | k in f[c].kids :: k in f)
    && g == f[c := f[c].(cursor := g[c].cursor)]
  }

  /** cert is the i-th child of c as first or next handed it out. */
  ghost predicate HandedOut(f: Heap, g: Heap, c: Body, i: nat, k: Body?) {
    && Walked(f, g, c) && i <= |f[c].kids| && f[c].value.Container()
    && k == (if i < |f[c].kids| then f[c].kids[i] else null)
    && (i < |f[c].kids| ==> g[c].cursor == k && g[k].value == f[k].value && g[k].name == f[k].name)
  }

  /** first, at the start of a reading loop. */
  method Begin(st: Store, c: Body) returns (k: Body?)
    requires st.Valid() && c in st.live && c.value.Container()
    modifies st.live
    ensures st.Valid() && c in st.live && st.Has(k) && HandedOut(old(st.View()), st.View(), c, 0, k)
  {
    ghost var f := st.View();
    assert NodeOf(c) == f[c] && Linked(f, c);
    WalkStarts(f, c);
    k := st.Walk(c, Ops.First);
    assert c in st.View();
    assert k != null ==> k in f[c].kids;
  }

  /** next, at the end of a round. */
  method GoOn(st: Store, ghost f: Heap, c: Body, ghost i: nat) returns (k: Body?)
    requires st.Valid() && c in st.live && Wf(f) && c in f && i < |f[c].kids|
    requires HandedOut(f, st.View(), c, i, f[c].kids[i])
    modifies st.live
    ensures st.Valid() && c in st.live && st.Has(k) && HandedOut(f, st.View(), c, i + 1, k)
  {
    ghost var g := st.View();
    assert Linked(f, c);
    WalkGoesOn(g, c, i);
    k := st.Walk(c, Ops.Next);
    assert c in st.View();
    assert k != null ==> k in f[c].kids;
  }

  /** The strings of the first i of some children. */
  ghost predicate Collected(ts: seq<Tree>, i: nat, out: seq<string>) {
    && i <= |ts| && |out| == i
    && (forall j {:trigger ts[j]} {:trigger out[j]} | 0 <= j < i ::
        ts[j].value.Str? && ts[j].value.text == Some(out[j]))
  }

  lemma CollectOne(ts: seq<Tree>, i: nat, out: seq<string>, s: string)
    requires Collected(ts, i, out) && i < |ts| && ts[i].value.Str? && ts[i].value.text == Some(s)
    ensures Collected(ts, i + 1, out + [s])
  {
  }

  lemma CollectedAll(ts: seq<Tree>, i: nat, out: seq<string>)
    requires Collected(ts, i, out) && (i < |ts| ==> !(ts[i].value.Str? && ts[i].value.text.Some?))
    ensures out == LeadingStrings(ts)
  {
    LeadingAt(ts, i);
  }

  /** What the loop sees in its hand is the i-th child of the list. */
  lemma InHand(st: Store, f: Heap, c: Body, i: nat, k: Body?)
    requires st.Valid() && HandedOut(f, st.View(), c, i, k) && st.Has(k)
    ensures |TreeOf(f, c).kids| == |f[c].kids|
    ensures k == null <==> i == |f[c].kids|
    ensures k != null ==> k.value == TreeOf(f, c).kids[i].value && k.name == TreeOf(f, c).kids[i].name
  {
  }

  /** DDF::string. */
  function TextOf(n: Body): Option<string>
    reads n
  {
    if n.value.Str? then n.value.text else None
  }

  /** The loop of getClientCertificates. */
  method CollectStrings(st: Store, list: Body) returns (certs: seq<string>)
    requires st.Valid() && list in st.live && list.value.Container()
    modifies st.live
    ensures st.Valid() && list in old(st.View()) && certs == LeadingStrings(TreeOf(old(st.View()), list).kids)
  {
    ghost var f := st.View();
    assert NodeOf(list) == f[list];
    ghost var ts, i := TreeOf(f, list).kids, 0;
    var cert := Begin(st, list);
    certs := [];
    InHand(st, f, list, i, cert);
    while cert != null && TextOf(cert).Some?
      invariant st.Valid() && list in st.live && st.Has(cert)
      invariant HandedOut(f, st.View(), list, i, cert) && Collected(ts, i, certs)
      invariant cert == null <==> i == |ts|
      invariant cert != null ==> cert.value == ts[i].value
      decreases |ts| - i
    {
      CollectOne(ts, i, certs, TextOf(cert).value);
      certs := certs + [TextOf(cert).value];
      cert := GoOn(st, f, list, i);
      i := i + 1;
      InHand(st, f, list, i, cert);
    }
    CollectedAll(ts, i, certs);
  }

  /** getClientCertificates, with certificates as strings. */
  method GetCertificates(st: Store, input: Body) returns (certs: seq<string>)
    requires st.Valid() && input in st.live
    modifies st.live
    ensures st.Valid() && input in old(st.View()) && certs == CertificatesAt(TreeOf(old(st.View()), input))
  {
    var list := st.GetMember(input, "certificates");
    GetAgrees(st.View(), input, "certificates");
    certs := [];
    if list == null {
      return;
    }
    assert NodeOf(list) == st.View()[list];
    if list.value.Container() {
      certs := CollectStrings(st, list);
    }
  }

  // ---- Requests survive the wire ----

  /** Null and empty strings are not told apart. */
  function EmptyAsNull(s: Option<string>): Option<string> {
    if s == Some("") then None else s
  }

  /** XML keeps the text of the fields that are not URL-encoded. */
  predicate PlainText(address: string, r: Request) {
    && AttrOnly(address)
    && (forall s | s in [r.applicationId, r.scheme, r.body, r.verb, r.query] :: s.Some? ==> TextOnly(s.value))
    && (forall s | s in [r.contentType, r.remoteUser, r.clientAddr] + r.certificates :: TextOnly(s))
  }

  /** A field that XML keeps. */
  predicate FieldKept(x: Field) {
    && AttrOnly(x.name) && (x.value.Str? || x.value.Int?)
    && (x.value.Str? && x.value.text.Some? && x.value.safe ==> TextOnly(x.value.text.value))
  }

  lemma LongNamesPlain()
    ensures AttrOnly("application_id") && AttrOnly("content_length") && AttrOnly("content_type")
  {
  }

  lemma ClientNamesPlain()
    ensures AttrOnly("remote_user") && AttrOnly("client_addr") && AttrOnly("hostname")
  {
  }

  lemma ShortNamesPlain()
    ensures AttrOnly("scheme") && AttrOnly("port") && AttrOnly("body") && AttrOnly("method")
  {
  }

  lemma TargetNamesPlain()
    ensures AttrOnly("uri") && AttrOnly("url") && AttrOnly("query")
  {
  }

  lemma FieldNamesPlain(xs: seq<Field>, r: Request, i: nat)
    requires FieldsOf(xs, r) && i < 13
    ensures AttrOnly(xs[i].name)
  {
    LongNamesPlain();
    ClientNamesPlain();
    ShortNamesPlain();
    TargetNamesPlain();
  }

  lemma TextsPlain(address: string, r: Request)
    requires PlainText(address, r)
    ensures (r.applicationId.Some? ==> TextOnly(r.applicationId.value)) && (r.scheme.Some? ==> TextOnly(r.scheme.value))
    ensures (r.body.Some? ==> TextOnly(r.body.value)) && (r.verb.Some? ==> TextOnly(r.verb.value))
    ensures r.query.Some? ==> TextOnly(r.query.value)
    ensures TextOnly(r.contentType) && TextOnly(r.remoteUser) && TextOnly(r.clientAddr)
  {
  }

  lemma FieldsKept(address: string, xs: seq<Field>, r: Request)
    requires PlainText(address, r) && FieldsOf(xs, r)
    ensures forall i | 0 <= i < |xs| :: FieldKept(xs[i])
  {
    TextsPlain(address, r);
    forall i | 0 <= i < 13
      ensures FieldKept(xs[i])
    {
      FieldNamesPlain(xs, r, i);
    }
  }

  /** A tree of leaves with good text is fit for the wire. */
  predicate LeafOk(t: Tree) {
    && t.kids == [] && !t.value.Container() && t.cursor == None && NameOk(t.name) && TextOk(t.value)
    && (t.name.Some? ==> AttrOnly(t.name.value))
    && (t.value.Str? && t.value.text.Some? && t.value.safe ==> TextOnly(t.value.text.value))
  }

  lemma LeafTreeOk(t: Tree)
    requires LeafOk(t)
    ensures TreeOk(t)
  {
  }

  lemma FieldLeafOk(xs: seq<Field>, i: nat)
    requires FieldsOk(xs) && i < |xs| && FieldKept(xs[i])
    ensures LeafOk(FieldTrees(xs)[i])
  {
  }

  lemma ListOk(name: string, kids: seq<Tree>)
    requires NameOk(Some(name)) && AttrOnly(name) && forall i | 0 <= i < |kids| :: LeafOk(kids[i])
    ensures TreeOk(Tree(Some(name), List, kids, None))
  {
  }

  lemma CertificatesOk(certs: seq<string>)
    requires forall c | c in certs :: TextOnly(c)
    ensures TreeOk(Tree(Some("certificates"), List, Certificates(certs), None))
  {
  }

  lemma StoredPlain(s: string)
    requires AttrOnly(s)
    ensures Stored(Some(s)).Some? ==> AttrOnly(Stored(Some(s)).value)
  {
  }

  lemma DistinctFields(xs: seq<Field>, kids: seq<Tree>)
    requires FieldsOk(xs) && |xs| <= |kids| <= |xs| + 1
    requires forall i | 0 <= i < |xs| :: kids[i].name == Some(xs[i].name)
    requires |kids| > |xs| ==> kids[|xs|].name == Some("certificates")
    ensures DistinctNames(kids)
  {
  }

  lemma WholeOk(address: string, xs: seq<Field>, certs: seq<string>)
    requires AttrOnly(address) && FieldsOk(xs) && (forall i | 0 <= i < |xs| :: FieldKept(xs[i]))
    requires forall c | c in certs :: TextOnly(c)
    ensures TreeOk(Whole(address, xs, certs))
  {
    var t := Whole(address, xs, certs);
    assert xs[..|xs|] == xs;
    StoredPlain(address);
    CertificatesOk(certs);
    forall k | k in t.kids
      ensures TreeOk(k) && k.name.Some?
    {
      var i := Index(t.kids, k);
      if i < |xs| {
        FieldLeafOk(xs, i);
        LeafTreeOk(k);
      }
    }
    DistinctFields(xs, t.kids);
  }

  lemma WrappedOk(address: string, r: Request)
    requires PlainText(address, r)
    ensures TreeOk(Wrapped(address, r))
  {
    RequestFields(r);
    FieldsAre(Fields(r), r);
    FieldsKept(address, Fields(r), r);
    forall c | c in r.certificates
      ensures TextOnly(c)
    {
      assert c in [r.contentType, r.remoteUser, r.clientAddr] + r.certificates;
    }
    WholeOk(address, Fields(r), r.certificates);
  }

  lemma {:induction false} FirstNamedAt(kids: seq<Tree>, i: nat, name: string)
    requires i < |kids| && kids[i].name == Some(name) && forall j | 0 <= j < i :: kids[j].name != Some(name)
    ensures FirstNamed(kids, name) == Some(kids[i])
  {
    if i == 0 {
    } else {
      FirstNamedAt(kids[1..], i - 1, name);
    }
  }

  lemma FirstNamedNone(kids: seq<Tree>, name: string)
    requires forall j | 0 <= j < |kids| :: kids[j].name != Some(name)
    ensures FirstNamed(kids, name) == None
  {
  }

  lemma PlainToken(name: string)
    requires MemberName(name)
    ensures Paths.Token(name) == (name, "")
  {
    Paths.NoDot(name);
  }

  lemma TreeGetName(t: Tree, name: string)
    requires t.value.Struct? && MemberName(name)
    ensures TreeGet(t, name) == FirstNamed(t.kids, name)
  {
    PlainToken(name);
  }

  // ---- Members by name ----

  /** k is the member of the struct t with this name. */
  predicate HasMember(t: Tree, name: string, k: Tree) {
    t.value.Struct? && MemberName(name) && k in t.kids && k.name == Some(name) && DistinctNames(t.kids)
  }

  /** No member of t has this name; t may also be something else than a struct or a list. */
  predicate LacksMember(t: Tree, name: string) {
    MemberName(name) && !t.value.List? && (t.value.Struct? ==> forall k | k in t.kids :: k.name != Some(name))
  }

  lemma MemberFound(t: Tree, name: string, k: Tree)
    requires HasMember(t, name, k)
    ensures TreeGet(t, name) == Some(k)
  {
    var i :| 0 <= i < |t.kids| && t.kids[i] == k;
    FirstNamedAt(t.kids, i, name);
    TreeGetName(t, name);
  }

  lemma MemberMissing(t: Tree, name: string)
    requires LacksMember(t, name)
    ensures TreeGet(t, name) == None
  {
    PlainToken(name);
    if t.value.Struct? {
      FirstNamedNone(t.kids, name);
    }
  }

  /** The string of a member is the text of a string, and there is none for any other value. */
  lemma StringOf(t: Tree, name: string, k: Tree)
    requires HasMember(t, name, k)
    ensures StringAt(t, name) == if k.value.Str? then k.value.text else None
    ensures StdStringAt(t, name) == if k.value.Str? && k.value.text.Some? then k.value.text.value else ""
  {
    MemberFound(t, name, k);
  }

  /**
   * The integer of a member: its number, the number its text starts with, how many children it has,
   * or zero.
   */
  lemma IntegerOf(t: Tree, name: string, k: Tree)
    requires HasMember(t, name, k)
    ensures k.value.Int? ==> IntegerAt(t, name) == k.value.n
    ensures k.value.Container() ==> IntegerAt(t, name) == |k.kids|
    ensures k.value.Empty? || k.value.Pointer? || (k.value.Str? && k.value.text.None?) ==> IntegerAt(t, name) == 0
  {
    MemberFound(t, name, k);
  }

  lemma IntegerOfText(t: Tree, name: string, k: Tree, blanks: string, n: Long, rest: string)
    requires HasMember(t, name, k) && k.value.Str? && k.value.text == Some(blanks + Numbers.PrintLong(n) + rest)
    requires (forall c | c in blanks :: Numbers.IsSpace(c)) && (rest == "" || !Numbers.IsDigit(rest[0]))
    ensures IntegerAt(t, name) == n
  {
    MemberFound(t, name, k);
    Numbers.AtolOfText(blanks, n, rest);
  }

  /** Nothing is read off a member that is not there. */
  lemma MissingReads(t: Tree, name: string)
    requires LacksMember(t, name)
    ensures StringAt(t, name) == None && StdStringAt(t, name) == "" && IntegerAt(t, name) == 0
  {
    MemberMissing(t, name);
  }

  lemma NormalKids(t: Tree)
    ensures Normal(t).name == t.name && Normal(t).value == NormalValue(t.value) && |Normal(t).kids| == |t.kids|
    ensures forall i | 0 <= i < |t.kids| :: Normal(t).kids[i] == Normal(t.kids[i])
  {
  }

  /** Members are the same ones after the wire. */
  lemma MemberArrives(t: Tree, name: string, k: Tree)
    requires HasMember(t, name, k)
    ensures HasMember(Normal(t), name, Normal(k))
  {
    NormalKids(t);
    NormalKids(k);
    var i :| 0 <= i < |t.kids| && t.kids[i] == k;
    assert Normal(t).kids[i] == Normal(k);
    forall i, j | 0 <= i < j < |t.kids|
      ensures Normal(t).kids[i].name != Normal(t).kids[j].name
    {
      NormalKids(t.kids[i]);
      NormalKids(t.kids[j]);
    }
  }

  lemma MemberStaysAway(t: Tree, name: string)
    requires LacksMember(t, name)
    ensures LacksMember(Normal(t), name)
  {
    NormalKids(t);
    forall k | k in Normal(t).kids && t.value.Struct?
      ensures k.name != Some(name)
    {
      var i :| 0 <= i < |t.kids| && Normal(t).kids[i] == k;
      NormalKids(t.kids[i]);
      assert t.kids[i] in t.kids;
    }
  }

  /** The fields, looked up in what arrives on the remote side. */
  predicate Arrived(t: Tree, xs: seq<Field>) {
    forall i | 0 <= i < |xs| :: TreeGet(t, xs[i].name) == Some(Leaf(Some(xs[i].name), NormalValue(xs[i].value)))
  }

  lemma WholeKids(address: string, xs: seq<Field>, certs: seq<string>)
    ensures var kids := Normal(Whole(address, xs, certs)).kids;
            && |kids| == |xs| + (if certs == [] then 0 else 1)
            && (forall i | 0 <= i < |xs| :: kids[i] == Leaf(Some(xs[i].name), NormalValue(xs[i].value)))
            && (certs != [] ==> kids[|xs|] == Normal(Tree(Some("certificates"), List, Certificates(certs), None)))
  {
  }

  lemma FieldsArrive(address: string, xs: seq<Field>, certs: seq<string>)
    requires FieldsOk(xs)
    ensures Arrived(Normal(Whole(address, xs, certs)), xs)
  {
    var t := Normal(Whole(address, xs, certs));
    WholeKids(address, xs, certs);
    forall i | 0 <= i < |xs|
      ensures TreeGet(t, xs[i].name) == Some(Leaf(Some(xs[i].name), NormalValue(xs[i].value)))
    {
      FirstNamedAt(t.kids, i, xs[i].name);
      TreeGetName(t, xs[i].name);
    }
  }

  lemma StringBack(t: Tree, xs: seq<Field>, i: nat, name: string, s: Option<string>)
    requires Arrived(t, xs) && i < |xs| && (xs[i] == Field(name, SafeText(s)) || xs[i] == Field(name, UnsafeText(s)))
    ensures StringAt(t, name) == EmptyAsNull(s)
  {
  }

  lemma IntegerBack(t: Tree, xs: seq<Field>, i: nat, name: string, n: Long)
    requires Arrived(t, xs) && i < |xs| && xs[i] == Field(name, Int(n))
    ensures IntegerAt(t, name) == n
  {
  }

  /** Up to the first empty string. */
  function UpToEmpty(xs: seq<string>): (ys: seq<string>)
    ensures ys <= xs
    ensures "" !in ys
    ensures |ys| < |xs| ==> xs[|ys|] == ""
  {
    if xs == [] || xs[0] == "" then [] else [xs[0]] + UpToEmpty(xs[1..])
  }

  lemma {:induction false} LeadingCertificates(certs: seq<string>, ts: seq<Tree>)
    requires |ts| == |certs|
    requires forall i | 0 <= i < |certs| :: ts[i] == Normal(Leaf(None, SafeText(Some(certs[i]))))
    ensures LeadingStrings(ts) == UpToEmpty(certs)
  {
    if certs == [] {
    } else {
      assert ts[0] == Normal(Leaf(None, SafeText(Some(certs[0]))));
      if certs[0] != "" {
        LeadingCertificates(certs[1..], ts[1..]);
      }
    }
  }

  lemma CertificateList(certs: seq<string>)
    ensures LeadingStrings(Normal(Tree(Some("certificates"), List, Certificates(certs), None)).kids) == UpToEmpty(certs)
  {
    LeadingCertificates(certs, Normal(Tree(Some("certificates"), List, Certificates(certs), None)).kids);
  }

  /** Looking up a name that at most the last child has. */
  lemma LastFound(t: Tree, n: nat, name: string)
    requires t.value.Struct? && MemberName(name) && n <= |t.kids| <= n + 1
    requires forall i | 0 <= i < n :: t.kids[i].name != Some(name)
    requires |t.kids| > n ==> t.kids[n].name == Some(name)
    ensures TreeGet(t, name) == if |t.kids| > n then Some(t.kids[n]) else None
  {
    TreeGetName(t, name);
    if |t.kids| > n {
      FirstNamedAt(t.kids, n, name);
    } else {
      FirstNamedNone(t.kids, name);
    }
  }

  lemma WholeShape(address: string, xs: seq<Field>, certs: seq<string>)
    requires FieldsOk(xs)
    ensures var t := Normal(Whole(address, xs, certs));
            && t.value.Struct? && |t.kids| == |xs| + (if certs == [] then 0 else 1)
            && (forall i | 0 <= i < |xs| :: t.kids[i].name != Some("certificates"))
            && (certs != [] ==> t.kids[|xs|].name == Some("certificates") && t.kids[|xs|].value.List?
                                && LeadingStrings(t.kids[|xs|].kids) == UpToEmpty(certs))
  {
    WholeKids(address, xs, certs);
    CertificateList(certs);
  }

  lemma ListFound(t: Tree, n: nat, name: string, certs: seq<string>)
    requires t.value.Struct? && MemberName(name) && |t.kids| == n + (if certs == [] then 0 else 1)
    requires forall i | 0 <= i < n :: t.kids[i].name != Some(name)
    requires certs != [] ==>
        t.kids[n].name == Some(name) && t.kids[n].value.List? && LeadingStrings(t.kids[n].kids) == UpToEmpty(certs)
    ensures StringsAt(t, name) == UpToEmpty(certs)
  {
    LastFound(t, n, name);
  }

  lemma CertificatesBack(address: string, xs: seq<Field>, certs: seq<string>)
    requires FieldsOk(xs)
    ensures CertificatesAt(Normal(Whole(address, xs, certs))) == UpToEmpty(certs)
  {
    WholeShape(address, xs, certs);
    assert MemberName("certificates");
    ListFound(Normal(Whole(address, xs, certs)), |xs|, "certificates", certs);
  }

  predicate ReadsServer(t: Tree, r: Request) {
    && StringAt(t, "application_id") == EmptyAsNull(r.applicationId)
    && StringAt(t, "scheme") == EmptyAsNull(r.scheme) && StringAt(t, "hostname") == EmptyAsNull(r.hostname)
    && IntegerAt(t, "port") == r.port
  }

  predicate ReadsContent(t: Tree, r: Request) {
    && StdStringAt(t, "content_type") == r.contentType
    && StringAt(t, "body") == EmptyAsNull(r.body) && IntegerAt(t, "content_length") == r.contentLength
  }

  predicate ReadsClient(t: Tree, r: Request) {
    && StdStringAt(t, "remote_user") == r.remoteUser && StdStringAt(t, "client_addr") == r.clientAddr
    && StringAt(t, "method") == EmptyAsNull(r.verb)
  }

  predicate ReadsTarget(t: Tree, r: Request) {
    && StringAt(t, "uri") == EmptyAsNull(r.uri)
    && StringAt(t, "url") == EmptyAsNull(r.url) && StringAt(t, "query") == EmptyAsNull(r.query)
  }

  /** What the remote side reads off a tree through the RemotedRequest accessors. */
  predicate Reads(t: Tree, r: Request) {
    ReadsServer(t, r) && ReadsContent(t, r) && ReadsClient(t, r) && ReadsTarget(t, r)
  }

  lemma ServerRead(t: Tree, xs: seq<Field>, r: Request)
    requires Arrived(t, xs) && FieldsOf(xs, r)
    ensures ReadsServer(t, r)
  {
    StringBack(t, xs, 0, "application_id", r.applicationId);
    StringBack(t, xs, 1, "scheme", r.scheme);
    StringBack(t, xs, 2, "hostname", r.hostname);
    IntegerBack(t, xs, 3, "port", r.port);
  }

  lemma ContentRead(t: Tree, xs: seq<Field>, r: Request)
    requires Arrived(t, xs) && FieldsOf(xs, r)
    ensures ReadsContent(t, r)
  {
    StringBack(t, xs, 4, "content_type", Some(r.contentType));
    StringBack(t, xs, 5, "body", r.body);
    IntegerBack(t, xs, 6, "content_length", r.contentLength);
  }

  lemma ClientRead(t: Tree, xs: seq<Field>, r: Request)
    requires Arrived(t, xs) && FieldsOf(xs, r)
    ensures ReadsClient(t, r)
  {
    StringBack(t, xs, 7, "remote_user", Some(r.remoteUser));
    StringBack(t, xs, 8, "client_addr", Some(r.clientAddr));
    StringBack(t, xs, 9, "method", r.verb);
  }

  lemma TargetRead(t: Tree, xs: seq<Field>, r: Request)
    requires Arrived(t, xs) && FieldsOf(xs, r)
    ensures ReadsTarget(t, r)
  {
    StringBack(t, xs, 10, "uri", r.uri);
    StringBack(t, xs, 11, "url", r.url);
    StringBack(t, xs, 12, "query", r.query);
  }

  lemma FieldsRead(t: Tree, xs: seq<Field>, r: Request)
    requires Arrived(t, xs) && FieldsOf(xs, r)
    ensures Reads(t, r)
  {
    ServerRead(t, xs, r);
    ContentRead(t, xs, r);
    ClientRead(t, xs, r);
    TargetRead(t, xs, r);
  }

  /**
   * The remote side sees the same request, null and empty strings aside; of the certificates it
   * sees those before the first empty one.
   */
  lemma RequestSurvives(u: UrlCodec, address: string, r: Request)
    requires CodecOk(u) && PlainText(address, r)
    ensures var t := Decode(u, Encode(u, Wrapped(address, r)));
            && t.Some? && Reads(t.value, r) && CertificatesAt(t.value) == UpToEmpty(r.certificates)
            && (0 < |address| <= MAX_NAME_LEN ==> t.value.name == Some(address))
  {
    WrappedOk(address, r);
    WireRoundTrip(u, Wrapped(address, r));
    FieldsAre(Fields(r), r);
    FieldsArrive(address, Fields(r), r.certificates);
    FieldsRead(Normal(Wrapped(address, r)), Fields(r), r);
    CertificatesBack(address, Fields(r), r.certificates);
  }

  /** All certificates arrive exactly when none of them is empty. */
  lemma CertificatesSurvive(u: UrlCodec, address: string, r: Request)
    requires CodecOk(u) && PlainText(address, r)
    ensures var t := Decode(u, Encode(u, Wrapped(address, r)));
            t.Some? && (CertificatesAt(t.value) == r.certificates <==> "" !in r.certificates)
  {
    RequestSurvives(u, address, r);
  }

  /** The local half: the text that is sent. */
  method Ask(local: Store, u: UrlCodec, address: string, r: Request) returns (s: string)
    requires local.Valid() && CodecOk(u) && PlainText(address, r)
    modifies local, local.live
    ensures s == Encode(u, Wrapped(address, r)) && Extractable(u, s)
  {
    var m := Wrap(local, address, r);
    WrappedOk(address, r);
    TreeOkSafe(Wrapped(address, r));
    ghost var g := local.View();
    s := Print(local, g, u, m, Wrapped(address, r));
  }

  /** A request wrapped on the local side, sent over, and read on the remote side. */
  method Forward(local: Store, remote: Store, u: UrlCodec, address: string, r: Request) returns (input: Body)
    requires local.Valid() && remote.Valid() && local != remote && local.live !! remote.live
    requires CodecOk(u) && PlainText(address, r)
    modifies local, local.live, remote, remote.live
    ensures remote.Valid() && input in remote.live && input in remote.View()
    ensures Reads(TreeOf(remote.View(), input), r)
    ensures CertificatesAt(TreeOf(remote.View(), input)) == UpToEmpty(r.certificates)
  {
    var s := Ask(local, u, address, r);
    remote.Untouched();
    RequestSurvives(u, address, r);
    var out := Load(remote, u, s, null, Decode(u, s).value);
    input := out;
    assert input in remote.View();
  }
}
