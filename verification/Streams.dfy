/** The stream functions of ddf.cpp on heap nodes: xml_encode, serialize and operator<<. */
module Streams {
  import opened Basics
  import opened Forest
  import opened Trees
  import opened Xml
  import opened Wire
  import opened Ddf
  import Numbers

  predicate Special(c: char) { c == '"' || c == '<' || c == '>' || c == '&' }

  lemma {:induction false} EscapeCat(s: string, t: string)
    ensures Escape(s + t) == Escape(s) + Escape(t)
  {
    if s == "" {
      assert s + t == t;
    } else {
      assert (s + t)[0] == s[0] && (s + t)[1..] == s[1..] + t;
      EscapeCat(s[1..], t);
    }
  }

  lemma {:induction false} EscapePlain(s: string)
    requires forall i | 0 <= i < |s| :: !Special(s[i])
    ensures Escape(s) == s
  {
    if s == "" {
    } else {
      EscapePlain(s[1..]);
      assert s == [s[0]] + s[1..];
    }
  }

  lemma EscapeNumber(s: string)
    requires forall c | c in s :: Numbers.IsDigit(c) || c == '-'
    ensures Escape(s) == s
  {
    forall i | 0 <= i < |s|
      ensures !Special(s[i])
    {
      assert s[i] in s;
    }
    EscapePlain(s);
  }

  lemma EscapeStep(s: string, i: nat, j: nat)
    requires i <= j <= |s|
    ensures Escape(s[..j]) == Escape(s[..i]) + Escape(s[i..j])
  {
    assert s[..j] == s[..i] + s[i..j];
    EscapeCat(s[..i], s[i..j]);
  }

  /** How far the next write of xml_encode gets, and what it writes. */
  lemma EncodePiece(s: string, i: nat, pos: nat)
    requires i < |s| && pos == Find(s[i..], Special)
    ensures pos > 0 ==> i + pos <= |s| && Escape(s[..i]) + s[i..i + pos] == Escape(s[..i + pos])
    ensures pos == 0 ==> Special(s[i]) && Escape(s[..i]) + Escape1(s[i]) == Escape(s[..i + 1])
  {
    if pos > 0 {
      EscapeStep(s, i, i + pos);
      assert s[i..i + pos] == s[i..][..pos];
      EscapePlain(s[i..i + pos]);
    } else {
      EscapeStep(s, i, i + 1);
      assert s[i..i + 1] == [s[i]] && [s[i]][1..] == "";
      assert Escape1(s[i]) + "" == Escape1(s[i]);
    }
  }

  /** The replacement for one character. */
  method Replacement(c: char) returns (piece: string)
    ensures piece == Escape1(c)
  {
    match c {
      case '"' => piece := "&quot;";
      case '<' => piece := "&lt;";
      case '>' => piece := "&gt;";
      case '&' => piece := "&amp;";
      case _ => piece := [c];
    }
  }

  /** xml_encode: copy runs of ordinary characters and replace the four special ones. */
  method XmlEncode(os: string, start: Option<string>) returns (out: string)
    ensures out == os + (if start.Some? then Escape(start.value) else "")
  {
    out := os;
    if start.None? {
      return;
    }
    var s := start.value;
    var i := 0;
    while i < |s|
      invariant 0 <= i <= |s|
      invariant out == os + Escape(s[..i])
    {
      var pos := Find(s[i..], Special);
      EncodePiece(s, i, pos);
      if pos > 0 {
        Cat3(os, Escape(s[..i]), s[i..i + pos]);
        out := out + s[i..i + pos];
        i := i + pos;
      } else {
        var piece := Replacement(s[i]);
        Cat3(os, Escape(s[..i]), piece);
        out := out + piece;
        i := i + 1;
      }
    }
    assert s[..|s|] == s;
  }

  lemma NameLiteral(v: string)
    ensures RenderAttrs([Attr("name", v)]) == " name=\"" + Escape(v) + "\""
  {
  }

  /** The name attribute that most elements start with. */
  method PrintName(os: string, name: Option<string>, shown: bool) returns (out: string)
    ensures out == os + RenderAttrs(NameAttr(name, shown))
  {
    out := os;
    if shown && name.Some? {
      out := out + " name=\"";
      out := XmlEncode(out, name);
      out := out + "\"";
      NameLiteral(name.value);
      Cat3(os, " name=\"", Escape(name.value));
      Cat3(os, " name=\"" + Escape(name.value), "\"");
    }
  }

  // ---- serialize ----

  lemma {:induction false} AttrsCat(a: seq<Attr>, b: seq<Attr>)
    ensures RenderAttrs(a + b) == RenderAttrs(a) + RenderAttrs(b)
  {
    if a == [] {
      assert a + b == b;
    } else {
      assert (a + b)[0] == a[0] && (a + b)[1..] == a[1..] + b;
      AttrsCat(a[1..], b);
      Cat3(" " + a[0].name + "=\"" + Escape(a[0].value) + "\"", RenderAttrs(a[1..]), RenderAttrs(b));
    }
  }

  /** Printing an element piece by piece after os. */
  lemma LongForm(os: string, tag: string, attrs: seq<Attr>, kids: seq<Item>, open: string, close: string)
    requires open == "<" + tag && close == "</" + tag + ">"
    ensures os + open + RenderAttrs(attrs) + ">" + RenderAll(kids) + close == os + Render(Elem(tag, attrs, kids, false))
  {
  }

  lemma ShortForm(os: string, tag: string, attrs: seq<Attr>, open: string)
    requires open == "<" + tag
    ensures os + open + RenderAttrs(attrs) + "/>" == os + Render(Elem(tag, attrs, [], true))
  {
  }

  lemma {:induction false} RenderSnoc(xs: seq<Item>, x: Item)
    ensures RenderAll(xs + [x]) == RenderAll(xs) + Render(x)
  {
    if xs == [] {
      assert [] + [x] == [x] && [x][1..] == [];
      assert Render(x) + "" == Render(x) && "" + Render(x) == Render(x);
    } else {
      assert (xs + [x])[0] == xs[0] && (xs + [x])[1..] == xs[1..] + [x];
      RenderSnoc(xs[1..], x);
      Cat3(Render(xs[0]), RenderAll(xs[1..]), Render(x));
    }
  }

  lemma {:induction false} RenderPrefix(xs: seq<Item>, i: nat)
    requires i < |xs|
    ensures RenderAll(xs[..i + 1]) == RenderAll(xs[..i]) + Render(xs[i])
  {
    assert xs[..i + 1] == xs[..i] + [xs[i]];
    RenderSnoc(xs[..i], xs[i]);
  }

  lemma TagLiterals()
    ensures "<string" == "<" + "string" && "</string>" == "</" + "string" + ">"
    ensures "<number" == "<" + "number" && "</number>" == "</" + "number" + ">"
    ensures "<struct" == "<" + "struct" && "</struct>" == "</" + "struct" + ">"
    ensures "<array" == "<" + "array" && "</array>" == "</" + "array" + ">"
    ensures "<null" == "<" + "null" && "<var" == "<" + "var" && "</var>" == "</" + "var" + ">"
  {
  }

  lemma TextForm(s: string)
    ensures RenderAll(TextItems(s)) == Escape(s)
    ensures RenderAll([Text(s)]) == Escape(s)
  {
  }

  lemma UnsafeForm(a: seq<Attr>)
    ensures RenderAttrs(a) + " unsafe=\"1\">" == RenderAttrs(a + [Attr("unsafe", "1")]) + ">"
  {
    var b := [Attr("unsafe", "1")];
    AttrsCat(a, b);
    assert b[1..] == [];
    assert Escape("1") == "1" by {
      EscapePlain("1");
    }
    assert " " + "unsafe" + "=\"" + "1" + "\"" + "" + ">" == " unsafe=\"1\">";
    Cat3(RenderAttrs(a), RenderAttrs(b), ">");
  }

  /** The string case of serialize. */
  method PrintString(u: UrlCodec, name: Option<string>, text: Option<string>, safe: bool, os: string, shown: bool)
      returns (out: string)
    ensures out == os + Render(ToItem(u, Tree(name, Str(text, safe), [], None), shown))
  {
    ghost var a := NameAttr(name, shown);
    out := os + "<string";
    ghost var s0 := out;
    out := PrintName(out, name, shown);
    TagLiterals();
    if text.Some? {
      if safe {
        out := out + ">";
        out := XmlEncode(out, text);
        TextForm(text.value);
        LongForm(os, "string", a, TextItems(text.value), "<string", "</string>");
      } else {
        out := out + " unsafe=\"1\">";
        Cat3(s0, RenderAttrs(a), " unsafe=\"1\">");
        UnsafeForm(a);
        Cat3(s0, RenderAttrs(a + [Attr("unsafe", "1")]), ">");
        out := XmlEncode(out, Some(u.encode(text.value)));
        TextForm(u.encode(text.value));
        LongForm(os, "string", a + [Attr("unsafe", "1")], TextItems(u.encode(text.value)), "<string", "</string>");
      }
      out := out + "</string>";
    } else {
      out := out + "/>";
      ShortForm(os, "string", a, "<string");
    }
  }

  /** The integer case of serialize. */
  method PrintNumber(u: UrlCodec, name: Option<string>, n: Long, os: string, shown: bool) returns (out: string)
    ensures out == os + Render(ToItem(u, Tree(name, Int(n), [], None), shown))
  {
    out := os + "<number";
    out := PrintName(out, name, shown);
    out := out + ">" + Numbers.PrintLong(n) + "</number>";
    TagLiterals();
    TextForm(Numbers.PrintLong(n));
    EscapeNumber(Numbers.PrintLong(n));
    LongForm(os, "number", NameAttr(name, shown), [Text(Numbers.PrintLong(n))], "<number", "</number>");
  }

  lemma RenderOne(x: Item)
    ensures RenderAll([x]) == Render(x)
  {
  }

  lemma VarAssoc(a: string, b: string, c: string, d: string, e: string, f: string, g: string, h: string)
    ensures a + (b + c) + d + (e + f) + g + h == a + b + (c + d + e) + f + g + h
  {
  }

  /** What is printed around a member of a struct. */
  lemma VarForm(u: UrlCodec, k: Tree, os: string)
    requires k.name.Some?
    ensures os + "<var name=\"" + Escape(k.name.value) + "\">" + Render(ToItem(u, k, false)) + "</var>" ==
            os + Render(VarItem(u, k))
  {
    var v, x := k.name.value, Render(ToItem(u, k, false));
    var a := [Attr("name", v)];
    TagLiterals();
    NameLiteral(v);
    RenderOne(ToItem(u, k, false));
    LongForm(os, "var", a, [ToItem(u, k, false)], "<var", "</var>");
    assert "<var" + " name=\"" == "<var name=\"";
    assert "\"" + ">" == "\">";
    VarAssoc(os, "<var", " name=\"", Escape(v), "\"", ">", x, "</var>");
  }

  lemma ArrayForm(os: string, n: string, a: seq<Attr>)
    requires Escape(n) == n
    ensures os + "<array length=\"" + n + "\"" + RenderAttrs(a) == os + "<array" + RenderAttrs([Attr("length", n)] + a)
  {
    var b := [Attr("length", n)];
    AttrsCat(b, a);
    assert b[1..] == [];
    assert " " + "length" + "=\"" == " length=\"" && "<array" + " length=\"" == "<array length=\"";
    assert " length=\"" + n + "\"" + "" == " length=\"" + n + "\"";
    Cat3(os, "<array", " length=\"");
    Cat3(os + "<array", " length=\"", n);
    Cat3(os + "<array", " length=\"" + n, "\"");
    Cat3(os + "<array", RenderAttrs(b), RenderAttrs(a));
  }

  ghost function Printed(u: UrlCodec, f: Heap, p: Body?, shown: bool): string
    requires Wf(f) && (p != null ==> p in f)
  {
    if p == null then "<null/>" else Render(ToItem(u, TreeOf(f, p), shown))
  }

  /** Nodes that hold nothing the wire knows. */
  method PrintNull(name: Option<string>, os: string, shown: bool) returns (out: string)
    ensures out == os + Render(Elem("null", NameAttr(name, shown), [], true))
  {
    out := os + "<null";
    out := PrintName(out, name, shown);
    out := out + "/>";
    TagLiterals();
    ShortForm(os, "null", NameAttr(name, shown), "<null");
  }

  /**
   * serialize: the printed form of the tree under p, after what the stream holds already. The
   * heap f is what the store holds throughout.
   */
  method Serialize(st: Store, ghost f: Heap, u: UrlCodec, p: Body?, os: string, shown: bool) returns (out: string)
    requires st.Valid() && st.View() == f && st.Has(p)
    ensures st.Valid() && st.View() == f && out == os + Printed(u, f, p, shown)
    decreases if p == null then 0 else Room(f, p), 2
  {
    if p == null {
      return os + "<null/>";
    }
    assert NodeOf(p) == f[p] && Proper(f, p);
    match p.value {
      case Str(text, safe) => out := PrintString(u, p.name, text, safe, os, shown);
      case Int(n) => out := PrintNumber(u, p.name, n, os, shown);
      case Struct => out := SerializeStruct(st, f, u, p, os, shown);
      case List => out := SerializeList(st, f, u, p, os, shown);
      case _ => out := PrintNull(p.name, os, shown);
    }
  }

  /** The items of the members of a struct, child by child. */
  ghost function MemberItems(u: UrlCodec, f: Heap, p: Body): (xs: seq<Item>)
    requires Wf(f) && p in f
  {
    RoomOfKids(f, p);
    seq(|f[p].kids|, i requires 0 <= i < |f[p].kids| => VarItem(u, TreeOf(f, f[p].kids[i])))
  }

  lemma StructItem(u: UrlCodec, f: Heap, p: Body, shown: bool)
    requires Wf(f) && p in f && f[p].value.Struct?
    ensures ToItem(u, TreeOf(f, p), shown) == Elem("struct", NameAttr(f[p].name, shown), MemberItems(u, f, p), false)
  {
  }

  /** The struct case of serialize. */
  method SerializeStruct(st: Store, ghost f: Heap, u: UrlCodec, p: Body, os: string, shown: bool) returns (out: string)
    requires st.Valid() && st.View() == f && p in st.live && p.value.Struct?
    ensures st.Valid() && st.View() == f && out == os + Printed(u, f, p, shown)
    decreases Room(f, p), 1
  {
    ghost var xs := MemberItems(u, f, p);
    assert NodeOf(p) == f[p];
    out := os + "<struct";
    out := PrintName(out, p.name, shown);
    out := out + ">";
    out := SerializeMembers(st, f, u, p, out, xs);
    out := out + "</struct>";
    TagLiterals();
    LongForm(os, "struct", NameAttr(p.name, shown), xs, "<struct", "</struct>");
    StructItem(u, f, p, shown);
  }

  /** The items of the children of a list. */
  ghost function ElementItems(u: UrlCodec, f: Heap, p: Body): (xs: seq<Item>)
    requires Wf(f) && p in f
  {
    RoomOfKids(f, p);
    seq(|f[p].kids|, i requires 0 <= i < |f[p].kids| => ToItem(u, TreeOf(f, f[p].kids[i]), true))
  }

  lemma ListItem(u: UrlCodec, f: Heap, p: Body, shown: bool)
    requires Wf(f) && p in f && f[p].value.List?
    ensures ToItem(u, TreeOf(f, p), shown) ==
            Elem("array", [Attr("length", Numbers.PrintNat(|f[p].kids|))] +
              NameAttr(f[p].name, shown), ElementItems(u, f, p), false)
  {
  }

  /** The list case of serialize. */
  method SerializeList(st: Store, ghost f: Heap, u: UrlCodec, p: Body, os: string, shown: bool) returns (out: string)
    requires st.Valid() && st.View() == f && p in st.live && p.value.List?
    ensures st.Valid() && st.View() == f && out == os + Printed(u, f, p, shown)
    decreases Room(f, p), 1
  {
    ghost var xs := ElementItems(u, f, p);
    ghost var a := NameAttr(p.name, shown);
    assert NodeOf(p) == f[p] && Spelled(p);
    var count := Numbers.PrintNat(p.count);
    out := os + "<array length=\"" + count + "\"";
    out := PrintName(out, p.name, shown);
    EscapeNumber(count);
    ArrayForm(os, count, a);
    out := out + ">";
    out := SerializeKids(st, f, u, p, out, xs);
    out := out + "</array>";
    TagLiterals();
    LongForm(os, "array", [Attr("length", count)] + a, xs, "<array", "</array>");
    ListItem(u, f, p, shown);
  }

  /** The i-th child seen by a loop over the children of p. */
  lemma KidAt(st: Store, f: Heap, p: Body, i: nat)
    requires st.Valid() && st.View() == f && p in st.live && i < |f[p].kids|
    ensures var k := f[p].kids[i];
            && k in st.live && Room(f, k) < Room(f, p)
            && k.next == Behind(f[p].kids, i) && f[k].name == k.name
            && (p.value.Struct? ==> k.name.Some?)
  {
    assert NodeOf(p) == f[p];
    var k := p.kids[i];
    assert k in p.kids && Spelled(p) && Neighbours(p.kids, i);
    st.Around(p);
    RoomOfKids(f, p);
    assert Proper(f, p) && NodeOf(k) == f[k];
    assert p.value.Struct? ==> Named(f, k);
  }

  /** What a loop over xs has printed after i rounds. */
  ghost function UpTo(os: string, xs: seq<Item>, i: nat): string
    requires i <= |xs|
  {
    if i == 0 then os else UpTo(os, xs, i - 1) + Render(xs[i - 1])
  }

  lemma UpToNext(os: string, xs: seq<Item>, i: nat)
    requires i < |xs| && UpTo(os, xs, i) == os + RenderAll(xs[..i])
    ensures UpTo(os, xs, i + 1) == os + RenderAll(xs[..i + 1])
  {
    RenderPrefix(xs, i);
    Cat3(os, RenderAll(xs[..i]), Render(xs[i]));
  }

  lemma {:induction false} UpToIs(os: string, xs: seq<Item>, i: nat)
    requires i <= |xs|
    ensures UpTo(os, xs, i) == os + RenderAll(xs[..i])
  {
    if i == 0 {
      assert os + "" == os;
    } else {
      UpToIs(os, xs, i - 1);
      UpToNext(os, xs, i - 1);
    }
  }

  lemma UpToAll(os: string, xs: seq<Item>)
    ensures UpTo(os, xs, |xs|) == os + RenderAll(xs)
  {
    UpToIs(os, xs, |xs|);
    WholePrefix(xs);
  }

  lemma FirstAt(st: Store, p: Body)
    requires st.Valid() && p in st.live && p.value.Container()
    ensures p.first == (if p.kids == [] then null else p.kids[0])
    ensures st.View()[p].kids == p.kids
  {
  }

  /** The loop over the members of a struct. */
  method SerializeMembers(st: Store, ghost f: Heap, u: UrlCodec, p: Body, os: string, ghost xs: seq<Item>)
    returns (out: string)
    requires st.Valid() && st.View() == f && p in st.live && p.value.Struct? && xs == MemberItems(u, f, p)
    ensures st.Valid() && st.View() == f && out == os + RenderAll(xs)
    decreases Room(f, p), 0
  {
    FirstAt(st, p);
    out := os;
    var child := p.first;
    ghost var i := 0;
    while child != null
      invariant st.Valid() && st.View() == f
      invariant 0 <= i <= |f[p].kids| && child == if i < |f[p].kids| then f[p].kids[i] else null
      invariant out == UpTo(os, xs, i)
      decreases |f[p].kids| - i
    {
      KidAt(st, f, p, i);
      out := SerializeMember(st, f, u, child, out);
      child := child.next;
      i := i + 1;
    }
    UpToAll(os, xs);
  }

  /** One member of a struct, wrapped in a var element that carries its name. */
  method SerializeMember(st: Store, ghost f: Heap, u: UrlCodec, child: Body, os: string) returns (out: string)
    requires st.Valid() && st.View() == f && child in st.live && child.name.Some? && f[child].name == child.name
    ensures st.Valid() && st.View() == f && out == os + Render(VarItem(u, TreeOf(f, child)))
    decreases Room(f, child), 3
  {
    out := os + "<var name=\"";
    out := XmlEncode(out, child.name);
    out := out + "\">";
    out := Serialize(st, f, u, child, out, false);
    out := out + "</var>";
    VarForm(u, TreeOf(f, child), os);
  }

  /** The loop over the children of a list. */
  method SerializeKids(st: Store, ghost f: Heap, u: UrlCodec, p: Body, os: string, ghost xs: seq<Item>)
    returns (out: string)
    requires st.Valid() && st.View() == f && p in st.live && p.value.List? && xs == ElementItems(u, f, p)
    ensures st.Valid() && st.View() == f && out == os + RenderAll(xs)
    decreases Room(f, p), 0
  {
    FirstAt(st, p);
    out := os;
    var child := p.first;
    ghost var i := 0;
    while child != null
      invariant st.Valid() && st.View() == f
      invariant 0 <= i <= |f[p].kids| && child == if i < |f[p].kids| then f[p].kids[i] else null
      invariant out == UpTo(os, xs, i)
      decreases |f[p].kids| - i
    {
      KidAt(st, f, p, i);
      out := Serialize(st, f, u, child, out, true);
      child := child.next;
      i := i + 1;
    }
    UpToAll(os, xs);
  }
}
