/**
 * The fragment of XML the remoting layer uses: elements with quoted attributes, text, and the
 * predefined entities. Render is the concrete syntax; Read is a reference reader for it.
 */
module Xml {
  import opened Basics

  datatype Attr = Attr(name: string, value: string)

  /** An element or a run of text; short says that an element is written as an empty-element tag. */
  datatype Item =
    | Elem(tag: string, attrs: seq<Attr>, kids: seq<Item>, short: bool)
    | Text(text: string)

  // ---- Characters ----

  /** Section 2.2 of XML 1.0. */
  predicate Legal(c: char) {
    c == '\t' || c == '\n' || c == '\r' || ' ' <= c <= '\U{D7FF}' || '\U{E000}' <= c <= '\U{FFFD}' || '\U{10000}' <= c
  }

  /** Characters that come through a text node unchanged: section 2.11 rewrites carriage returns. */
  predicate TextChar(c: char) { Legal(c) && c != '\r' }

  /** Characters that come through an attribute unchanged: section 3.3.3 turns white space into blanks. */
  predicate AttrChar(c: char) { TextChar(c) && c != '\t' && c != '\n' }

  predicate NameChar(c: char) { 'a' <= c <= 'z' || 'A' <= c <= 'Z' }

  predicate IsName(s: string) { s != "" && forall c | c in s :: NameChar(c) }

  predicate TextOnly(s: string) { forall c | c in s :: TextChar(c) }

  predicate AttrOnly(s: string) { forall c | c in s :: AttrChar(c) }

  // ---- Escaping ----

  function Escape1(c: char): (s: string)
    ensures s != ""
  {
    if c == '"' then "&quot;"
    else if c == '<' then "&lt;"
    else if c == '>' then "&gt;"
    else if c == '&' then "&amp;"
    else [c]
  }

  function Escape(s: string): string {
    if s == "" then "" else Escape1(s[0]) + Escape(s[1..])
  }

  /** The character an entity reference at the start of s stands for, and its length. */
  function Entity(s: string): (r: Option<(char, nat)>)
    ensures r.Some? ==> 0 < r.value.1 <= |s|
  {
    if "&quot;" <= s then Some(('"', 6))
    else if "&lt;" <= s then Some(('<', 4))
    else if "&gt;" <= s then Some(('>', 4))
    else if "&amp;" <= s then Some(('&', 5))
    else if "&apos;" <= s then Some(('\'', 6))
    else None
  }

  function Cons(c: char, r: Option<string>): Option<string> {
    if r.None? then None else Some([c] + r.value)
  }

  /** Replace entity references; an ampersand that starts none is an error. */
  function Unescape(s: string): Option<string> {
    if s == "" then Some("")
    else if s[0] != '&' then Cons(s[0], Unescape(s[1..]))
    else
      var e := Entity(s);
      if e.None? then None else Cons(e.value.0, Unescape(s[e.value.1..]))
  }

  lemma UnescapeOne(c: char, t: string)
    ensures Unescape(Escape1(c) + t) == Cons(c, Unescape(t))
  {
    var e := Escape1(c);
    assert (e + t)[|e|..] == t;
    if |e| == 1 {
      assert (e + t)[0] == c;
    } else {
      assert (e + t)[0] == '&' && e <= e + t;
      assert (e + t)[..|e|] == e;
      assert (e + t)[1] == e[1] && (e + t)[2] == e[2];
    }
  }

  /** The escaped form decodes, and only to the original: section 2.4 of XML 1.0. */
  lemma {:induction false} UnescapeEscape(s: string)
    ensures Unescape(Escape(s)) == Some(s)
  {
    if s == "" {
    } else {
      UnescapeOne(s[0], Escape(s[1..]));
      UnescapeEscape(s[1..]);
      assert [s[0]] + s[1..] == s;
    }
  }

  /** The entities of section 4.6 of XML 1.0 stand for the characters they are named after. */
  lemma PredefinedEntities()
    ensures Escape("<") == "&lt;" && Escape(">") == "&gt;" && Escape("&") == "&amp;" && Escape("\"") == "&quot;"
  {
  }

  lemma EscapeInjective(s: string, t: string)
    requires Escape(s) == Escape(t)
    ensures s == t
  {
    UnescapeEscape(s);
    UnescapeEscape(t);
  }

  lemma {:induction false} EscapeChars(s: string)
    ensures forall c | c in Escape(s) :: c != '"' && c != '<' && c != '>'
    ensures forall c | c in Escape(s) :: c in s || AttrChar(c)
    ensures s != "" ==> Escape(s) != ""
  {
    if s == "" {
    } else {
      EscapeChars(s[1..]);
      forall c | c in Escape(s)
        ensures c != '"' && c != '<' && c != '>' && (c in s || AttrChar(c))
      {
        if c in Escape1(s[0]) {
        } else {
          assert c in Escape(s[1..]);
        }
      }
    }
  }

  // ---- Rendering ----

  function RenderAttrs(attrs: seq<Attr>): string {
    if attrs == [] then ""
    else " " + attrs[0].name + "=\"" + Escape(attrs[0].value) + "\"" + RenderAttrs(attrs[1..])
  }

  function Render(x: Item): (s: string)
    decreases x, 0
  {
    match x
    case Text(t) => Escape(t)
    case Elem(tag, attrs, kids, short) =>
      "<" + tag + RenderAttrs(attrs) + (if short then "/>" else ">" + RenderAll(kids) + "</" + tag + ">")
  }

  function RenderAll(xs: seq<Item>): string
    decreases xs, 1
  {
    if xs == [] then "" else Render(xs[0]) + RenderAll(xs[1..])
  }

  // ---- The reference reader ----

  predicate Blank(c: char) { c == ' ' || c == '\t' || c == '\n' || c == '\r' }

  function SkipBlanks(s: string): (t: string)
    ensures |t| <= |s|
    ensures t != "" ==> !Blank(t[0])
  {
    if s != "" && Blank(s[0]) then SkipBlanks(s[1..]) else s
  }

  /** The position of the first character at which p holds, or the length of s. */
  function Find(s: string, p: char -> bool): (i: nat)
    ensures i <= |s|
    ensures forall j | 0 <= j < i :: !p(s[j])
    ensures i < |s| ==> p(s[i])
  {
    if s == "" || p(s[0]) then 0 else Find(s[1..], p) + 1
  }

  /** Section 3.3.3: white space in an attribute is read as blanks. */
  function AttrNormal(s: string): (t: string)
    ensures |t| == |s|
  {
    seq(|s|, i requires 0 <= i < |s| => if Blank(s[i]) then ' ' else s[i])
  }

  function ReadAttrs(s: string): (r: Option<(seq<Attr>, string)>)
    ensures r.Some? ==> |r.value.1| <= |s|
    decreases |s|
  {
    var t := SkipBlanks(s);
    var n := Find(t, c => !NameChar(c));
    if n == 0 then Some(([], t))
    else if !("=\"" <= t[n..]) then None
    else
      var u := t[n + 2..];
      var q := Find(u, c => c == '"' || c == '<');
      if q == |u| || u[q] == '<' then None else
        var v := Unescape(AttrNormal(u[..q]));
        var more := ReadAttrs(u[q + 1..]);
        if v.None? || more.None? then None
        else Some(([Attr(t[..n], v.value)] + more.value.0, more.value.1))
  }

  function ReadElem(s: string): (r: Option<(Item, string)>)
    ensures r.Some? ==> |r.value.1| < |s|
    decreases |s|, 0
  {
    if s == "" || s[0] != '<' then None else
      var n := Find(s[1..], c => !NameChar(c));
      if n == 0 then None else
        var tag := s[1..][..n];
        var a := ReadAttrs(s[1..][n..]);
        if a.None? then None else
          var (attrs, t) := a.value;
          if "/>" <= t then Some((Elem(tag, attrs, [], true), t[2..]))
          else if !(">" <= t) then None
          else
            var c := ReadContent(t[1..]);
            if c.None? then None else
              var (kids, u) := c.value;
              var close := "</" + tag + ">";
              if !(close <= u) then None
              else Some((Elem(tag, attrs, kids, false), u[|close|..]))
  }

  /** Text and elements, up to the end tag of the enclosing element. */
  function ReadContent(s: string): (r: Option<(seq<Item>, string)>)
    ensures r.Some? ==> |r.value.1| <= |s|
    decreases |s|, 1
  {
    if s == "" then None
    else if "</" <= s then Some(([], s))
    else if s[0] == '<' then
      var e := ReadElem(s);
      if e.None? then None else
        var more := ReadContent(e.value.1);
        if more.None? then None else Some(([e.value.0] + more.value.0, more.value.1))
    else
      var n := Find(s, c => c == '<');
      var t := Unescape(s[..n]);
      var more := ReadContent(s[n..]);
      if t.None? || more.None? then None else Some(([Text(t.value)] + more.value.0, more.value.1))
  }

  /** Section 2.11: line ends are read as single line feeds. */
  function LineEnds(s: string): string {
    if s == "" then ""
    else if "\r\n" <= s then "\n" + LineEnds(s[2..])
    else if s[0] == '\r' then "\n" + LineEnds(s[1..])
    else [s[0]] + LineEnds(s[1..])
  }

  /** Read a document that is one element. */
  function Read(s: string): Option<Item> {
    if exists i | 0 <= i < |s| :: !Legal(s[i]) then None else
      var r := ReadElem(LineEnds(s));
      if r.None? || SkipBlanks(r.value.1) != "" then None else Some(r.value.0)
  }

  // ---- Reading back what was rendered ----

  predicate GoodAttrs(attrs: seq<Attr>) {
    forall a | a in attrs :: IsName(a.name) && AttrOnly(a.value)
  }

  /** Items whose rendering determines them: no empty or adjacent runs of text, only safe characters. */
  predicate Good(x: Item)
    decreases x, 0
  {
    match x
    case Text(t) => t != "" && TextOnly(t)
    case Elem(tag, attrs, kids, short) => IsName(tag) && GoodAttrs(attrs) && (short ==> kids == []) && GoodAll(kids)
  }

  predicate GoodAll(xs: seq<Item>)
    decreases xs, 1
  {
    xs != [] ==> Good(xs[0]) && GoodAll(xs[1..]) && (|xs| > 1 ==> !(xs[0].Text? && xs[1].Text?))
  }

  lemma {:induction false} FindStops(a: string, b: string, p: char -> bool)
    requires forall c | c in a :: !p(c)
    requires b == "" || p(b[0])
    ensures Find(a + b, p) == |a|
  {
    if a == "" {
      assert a + b == b;
    } else {
      assert (a + b)[1..] == a[1..] + b;
      assert (a + b)[0] in a;
      FindStops(a[1..], b, p);
    }
  }

  lemma NormalSafe(s: string)
    requires forall c | c in s :: c != '\t' && c != '\n' && c != '\r'
    ensures AttrNormal(s) == s
  {
    forall i | 0 <= i < |s|
      ensures AttrNormal(s)[i] == s[i]
    {
      assert s[i] in s;
    }
  }

  // The Onto forms spell a rendering and what follows it as one right-nested concatenation.

  function AttrsOnto(attrs: seq<Attr>, rest: string): string {
    if attrs == [] then rest
    else " " + (attrs[0].name + ("=\"" + (Escape(attrs[0].value) + ("\"" + AttrsOnto(attrs[1..], rest)))))
  }

  function Onto(x: Item, rest: string): string
    decreases x, 0
  {
    match x
    case Text(t) => Escape(t) + rest
    case Elem(tag, attrs, kids, short) =>
      "<" + (tag + AttrsOnto(attrs, if short then "/>" + rest else ">" + AllOnto(kids, "</" + (tag + (">" + rest)))))
  }

  function AllOnto(xs: seq<Item>, rest: string): string
    decreases xs, 1
  {
    if xs == [] then rest else Onto(xs[0], AllOnto(xs[1..], rest))
  }

  lemma Cat(a: string, b: string)
    ensures a <= a + b && (a + b)[..|a|] == a && (a + b)[|a|..] == b
  {
  }

  lemma Cat3(a: string, b: string, c: string)
    ensures (a + b) + c == a + (b + c)
  {
  }

  lemma CatAt(a: string, b: string)
    requires b != ""
    ensures (a + b)[|a|] == b[0] && (a + b)[|a| + 1..] == b[1..]
  {
  }

  lemma Cat5(a: string, b: string, c: string, d: string, e: string)
    ensures a + b + c + d + e == a + (b + (c + (d + e)))
  {
  }

  lemma Cat9(a: string, b: string, c: string, d: string, e: string, f: string, g: string, h: string, i: string)
    ensures a + b + c + (d + e + f + g + h) + i == a + (b + (c + (d + (e + (f + (g + (h + i)))))))
  {
  }

  lemma {:induction false} AttrsOntoIs(attrs: seq<Attr>, rest: string)
    ensures AttrsOnto(attrs, rest) == RenderAttrs(attrs) + rest
  {
    if attrs == [] {
      assert "" + rest == rest;
    } else {
      var n, v, more := attrs[0].name, Escape(attrs[0].value), RenderAttrs(attrs[1..]);
      AttrsOntoIs(attrs[1..], rest);
      Cat3(" " + n + "=\"" + v + "\"", more, rest);
      Cat5(" ", n, "=\"", v, "\"");
      Cat5(" ", n, "=\"", v, "\"" + (more + rest));
      Cat3(" " + n + "=\"" + v, "\"", more + rest);
    }
  }

  lemma {:induction false} OntoIs(x: Item, rest: string)
    ensures Onto(x, rest) == Render(x) + rest
    decreases x, 0
  {
    match x
    case Text(t) =>
    case Elem(tag, attrs, kids, short) =>
      if short {
        AttrsOntoIs(attrs, "/>" + rest);
        Cat5("<", tag, RenderAttrs(attrs), "/>", rest);
      } else {
        var end := "</" + (tag + (">" + rest));
        AllOntoIs(kids, end);
        AttrsOntoIs(attrs, ">" + AllOnto(kids, end));
        var a, k := RenderAttrs(attrs), RenderAll(kids);
        Cat9("<", tag, a, ">", k, "</", tag, ">", rest);
      }
  }

  lemma {:induction false} AllOntoIs(xs: seq<Item>, rest: string)
    ensures AllOnto(xs, rest) == RenderAll(xs) + rest
    decreases xs, 1
  {
    if xs == [] {
      assert "" + rest == rest;
    } else {
      AllOntoIs(xs[1..], rest);
      OntoIs(xs[0], AllOnto(xs[1..], rest));
      Cat3(Render(xs[0]), RenderAll(xs[1..]), rest);
    }
  }

  /** The value part of an attribute. */
  lemma ReadValue(value: string, rest: string)
    requires AttrOnly(value)
    ensures var u := Escape(value) + ("\"" + rest);
            var q := Find(u, c => c == '"' || c == '<');
            && q == |Escape(value)| && q < |u| && u[q] == '"' && u[q + 1..] == rest
            && Unescape(AttrNormal(u[..q])) == Some(value)
  {
    var v, w := Escape(value), "\"" + rest;
    assert w[0] == '"' && w[1..] == rest;
    EscapeChars(value);
    FindStops(v, w, c => c == '"' || c == '<');
    Cat(v, w);
    CatAt(v, w);
    NormalSafe(v);
    UnescapeEscape(value);
  }

  /** The name part of a tag or an attribute. */
  lemma ReadTagName(name: string, rest: string)
    requires IsName(name) && rest != "" && !NameChar(rest[0])
    ensures Find(name + rest, c => !NameChar(c)) == |name| > 0
    ensures (name + rest)[..|name|] == name && (name + rest)[|name|..] == rest
    ensures SkipBlanks(" " + (name + rest)) == name + rest
  {
  }

  lemma Skip2(a: string, b: string)
    requires |b| >= 2
    ensures (a + b)[|a| + 2..] == b[2..]
  {
  }

  /** The text of one attribute, followed by rest. */
  lemma ReadOneAttr(a: Attr, rest: string)
    requires IsName(a.name) && AttrOnly(a.value)
    ensures var t := a.name + ("=\"" + (Escape(a.value) + ("\"" + rest)));
            && SkipBlanks(" " + t) == t
            && Find(t, c => !NameChar(c)) == |a.name| > 0
            && t[..|a.name|] == a.name && "=\"" <= t[|a.name|..]
            && t[|a.name| + 2..] == Escape(a.value) + ("\"" + rest)
  {
    var u := Escape(a.value) + ("\"" + rest);
    var w := "=\"" + u;
    assert w[0] == '=';
    ReadTagName(a.name, w);
    Cat("=\"", u);
    Skip2(a.name, w);
  }

  /** An attribute is read back, and then whatever follows it. */
  lemma ReadAttrThen(a: Attr, rest: string, more: seq<Attr>, end: string)
    requires IsName(a.name) && AttrOnly(a.value) && ReadAttrs(rest) == Some((more, end))
    ensures ReadAttrs(" " + (a.name + ("=\"" + (Escape(a.value) + ("\"" + rest))))) == Some(([a] + more, end))
  {
    ReadOneAttr(a, rest);
    ReadValue(a.value, rest);
  }

  lemma {:induction false} ReadAllAttrs(attrs: seq<Attr>, rest: string)
    requires GoodAttrs(attrs)
    requires rest != "" && !Blank(rest[0]) && !NameChar(rest[0])
    ensures ReadAttrs(AttrsOnto(attrs, rest)) == Some((attrs, rest))
  {
    if attrs == [] {
      assert SkipBlanks(rest) == rest;
    } else {
      assert attrs[0] in attrs;
      ReadAllAttrs(attrs[1..], rest);
      ReadAttrThen(attrs[0], AttrsOnto(attrs[1..], rest), attrs[1..], rest);
      assert attrs == [attrs[0]] + attrs[1..];
    }
  }

  lemma AttrsStart(attrs: seq<Attr>, rest: string)
    requires rest != "" && !NameChar(rest[0])
    ensures AttrsOnto(attrs, rest) != "" && !NameChar(AttrsOnto(attrs, rest)[0])
  {
  }

  /** What follows the attributes of an element. */
  function Tail(x: Item, rest: string): (s: string)
    requires x.Elem?
    ensures s != "" && !Blank(s[0]) && !NameChar(s[0])
  {
    if x.short then "/>" + rest else ">" + AllOnto(x.kids, "</" + (x.tag + (">" + rest)))
  }

  /** The start tag of an element. */
  lemma ReadStart(x: Item, rest: string)
    requires Good(x) && x.Elem?
    ensures var s := Onto(x, rest);
            && s != "" && s[0] == '<'
            && Find(s[1..], c => !NameChar(c)) == |x.tag| > 0
            && s[1..][..|x.tag|] == x.tag
            && ReadAttrs(s[1..][|x.tag|..]) == Some((x.attrs, Tail(x, rest)))
  {
    var t := AttrsOnto(x.attrs, Tail(x, rest));
    AttrsStart(x.attrs, Tail(x, rest));
    ReadTagName(x.tag, t);
    Cat("<", x.tag + t);
    ReadAllAttrs(x.attrs, Tail(x, rest));
  }

  /** An element is read back, whatever follows it. */
  lemma {:induction false} ReadRender(x: Item, rest: string)
    requires Good(x) && x.Elem?
    ensures ReadElem(Onto(x, rest)) == Some((x, rest))
    decreases x, 0
  {
    ReadStart(x, rest);
    if x.short {
      Cat("/>", rest);
    } else {
      var close := "</" + x.tag + ">";
      var end := "</" + (x.tag + (">" + rest));
      assert end == close + rest;
      Cat(close, rest);
      Cat(">", AllOnto(x.kids, end));
      assert Tail(x, rest)[0] == '>';
      ReadRenderAll(x.kids, end);
    }
  }

  lemma OntoStart(x: Item, rest: string)
    requires Good(x)
    ensures x.Elem? ==> |Onto(x, rest)| > 1 && Onto(x, rest)[0] == '<' && Onto(x, rest)[1] != '/'
    ensures x.Text? ==> Escape(x.text) != "" && forall c | c in Escape(x.text) :: c != '<'
  {
    match x
    case Text(t) => EscapeChars(t);
    case Elem(tag, attrs, kids, short) =>
      assert tag[0] in tag && Onto(x, rest)[1] == tag[0];
  }

  /** After a run of text comes markup. */
  lemma TextEnds(xs: seq<Item>, rest: string)
    requires GoodAll(xs) && xs != [] && xs[0].Text? && "</" <= rest
    ensures AllOnto(xs[1..], rest) != "" && AllOnto(xs[1..], rest)[0] == '<'
  {
  }

  /** A run of text is read back up to the markup that follows it. */
  lemma ReadText(text: string, rest: string)
    requires text != "" && rest != "" && rest[0] == '<'
    ensures var s := Escape(text) + rest;
            && s != "" && s[0] != '<'
            && Find(s, c => c == '<') == |Escape(text)|
            && Unescape(s[..|Escape(text)|]) == Some(text) && s[|Escape(text)|..] == rest
  {
    EscapeChars(text);
    FindStops(Escape(text), rest, c => c == '<');
    Cat(Escape(text), rest);
    UnescapeEscape(text);
    assert Escape(text)[0] in Escape(text);
  }

  /** Content is read back up to the end tag that follows it. */
  lemma {:induction false} ReadRenderAll(xs: seq<Item>, rest: string)
    requires GoodAll(xs) && "</" <= rest
    ensures ReadContent(AllOnto(xs, rest)) == Some((xs, rest))
    decreases xs, 1
  {
    if xs == [] {
    } else {
      var x, more := xs[0], xs[1..];
      var t := AllOnto(more, rest);
      ReadRenderAll(more, rest);
      assert [x] + more == xs;
      OntoStart(x, t);
      if x.Elem? {
        ReadRender(x, t);
      } else {
        TextEnds(xs, rest);
        ReadText(x.text, t);
      }
    }
  }

  lemma {:induction false} LineEndsSafe(s: string)
    requires forall c | c in s :: c != '\r'
    ensures LineEnds(s) == s
  {
    if s == "" {
    } else {
      assert s[0] in s && forall c | c in s[1..] :: c in s;
      LineEndsSafe(s[1..]);
    }
  }

  lemma {:induction false} RenderAttrsChars(attrs: seq<Attr>)
    requires GoodAttrs(attrs)
    ensures TextOnly(RenderAttrs(attrs))
  {
    if attrs == [] {
    } else {
      var a := attrs[0];
      assert a in attrs;
      RenderAttrsChars(attrs[1..]);
      EscapeChars(a.value);
    }
  }

  lemma {:induction false} RenderChars(x: Item)
    requires Good(x)
    ensures TextOnly(Render(x))
    decreases x, 0
  {
    match x
    case Text(t) => EscapeChars(t);
    case Elem(tag, attrs, kids, short) =>
      RenderAttrsChars(attrs);
      RenderAllChars(kids);
  }

  lemma {:induction false} RenderAllChars(xs: seq<Item>)
    requires GoodAll(xs)
    ensures TextOnly(RenderAll(xs))
    decreases xs, 1
  {
    if xs == [] {
    } else {
      RenderChars(xs[0]);
      RenderAllChars(xs[1..]);
    }
  }

  /** A good document is read back exactly. */
  lemma RoundTrip(x: Item)
    requires Good(x) && x.Elem?
    ensures Read(Render(x)) == Some(x)
  {
    var s := Render(x);
    RenderChars(x);
    forall i | 0 <= i < |s|
      ensures Legal(s[i])
    {
      assert s[i] in s;
    }
    LineEndsSafe(s);
    ReadRender(x, "");
    OntoIs(x, "");
    assert s + "" == s;
  }
}
