/** The WDDX wire form of DDF trees: serialize, deserialize and the stream operators. */
module Wire {
  import opened Basics
  import opened Forest
  import opened Trees
  import opened Grafts
  import opened Xml
  import Numbers

  /** The URL encoder of the XML tooling library, of which only its contract matters here. */
  datatype UrlCodec = UrlCodec(encode: string -> string, decode: string -> string)

  ghost predicate CodecOk(u: UrlCodec) {
    forall s {:trigger u.encode(s)} ::
      && u.decode(u.encode(s)) == s
      && (s != "" ==> u.encode(s) != "")
      && TextOnly(u.encode(s))
  }

  // ---- What serialize prints ----

  function NameAttr(name: Option<string>, shown: bool): seq<Attr> {
    if shown && name.Some? then [Attr("name", name.value)] else []
  }

  function TextItems(s: string): seq<Item> {
    if s == "" then [] else [Text(s)]
  }

  /** The element for a tree; shown says whether the element carries the name itself. */
  function ToItem(u: UrlCodec, t: Tree, shown: bool): (x: Item)
    ensures x.Elem?
    decreases t, 1
  {
    var name := NameAttr(t.name, shown);
    match t.value
    case Str(text, safe) =>
      if text.None? then Elem("string", name, [], true)
      else if safe then Elem("string", name, TextItems(text.value), false)
      else Elem("string", name + [Attr("unsafe", "1")], TextItems(u.encode(text.value)), false)
    case Int(n) => Elem("number", name, [Text(Numbers.PrintLong(n))], false)
    case Struct => Elem("struct", name, VarItems(u, t, t.kids), false)
    case List => Elem("array", [Attr("length", Numbers.PrintNat(|t.kids|))] + name, KidItems(u, t, t.kids), false)
    case Empty => Elem("null", name, [], true)
    case Pointer(_) => Elem("null", name, [], true)
  }

  function VarItem(u: UrlCodec, k: Tree): Item
    decreases k, 2
  {
    Elem("var", [Attr("name", if k.name.Some? then k.name.value else "")], [ToItem(u, k, false)], false)
  }

  function VarItems(u: UrlCodec, t: Tree, kids: seq<Tree>): (xs: seq<Item>)
    requires forall k | k in kids :: k in t.kids
    ensures |xs| == |kids|
    ensures forall i | 0 <= i < |kids| :: kids[i] in t.kids && xs[i] == VarItem(u, kids[i])
    decreases t, 0, |kids|
  {
    if kids == [] then [] else
      assert kids[0] in t.kids;
      [VarItem(u, kids[0])] + VarItems(u, t, kids[1..])
  }

  function KidItems(u: UrlCodec, t: Tree, kids: seq<Tree>): (xs: seq<Item>)
    requires forall k | k in kids :: k in t.kids
    ensures |xs| == |kids|
    ensures forall i | 0 <= i < |kids| :: kids[i] in t.kids && xs[i] == ToItem(u, kids[i], true)
    decreases t, 0, |kids|
  {
    if kids == [] then [] else
      assert kids[0] in t.kids;
      [ToItem(u, kids[0], true)] + KidItems(u, t, kids[1..])
  }

  /** The packet around the data, as operator<< prints it. */
  function Packet(x: Item): Item {
    Elem("wddxPacket", [Attr("version", "1.0"), Attr("lowercase", "no")],
         [Elem("header", [], [], true), Elem("data", [], [x], false)], false)
  }

  function Encode(u: UrlCodec, t: Tree): string {
    Render(Packet(ToItem(u, t, true)))
  }

  // ---- What deserialize builds ----

  /** getAttributeNS: the empty string stands for a missing attribute. */
  function AttrValue(attrs: seq<Attr>, name: string): string {
    if attrs == [] then "" else if attrs[0].name == name then attrs[0].value else AttrValue(attrs[1..], name)
  }

  /** Only capital letters change, each to the small letter with its place in the alphabet. */
  function Lower(s: string): (r: string)
    ensures |r| == |s|
    ensures forall i | 0 <= i < |s| ::
              if 'A' <= s[i] <= 'Z' then r[i] as int - 'a' as int == s[i] as int - 'A' as int else r[i] == s[i]
  {
    seq(|s|, i requires 0 <= i < |s| => if 'A' <= s[i] <= 'Z' then (s[i] as int + 32) as char else s[i])
  }

  function ReadName(attrs: seq<Attr>, lower: bool): (r: Option<string>)
    ensures NameOk(r)
  {
    var v := AttrValue(attrs, "name");
    if v == "" then None else Stored(Some(if lower then Lower(v) else v))
  }

  function Elements(xs: seq<Item>): (r: seq<Item>)
    ensures forall x | x in r :: x in xs && x.Elem?
  {
    if xs == [] then []
    else if xs[0].Elem? then [xs[0]] + Elements(xs[1..])
    else Elements(xs[1..])
  }

  /** ddf_strdup. */
  function Dup(s: string): Option<string> {
    if s == "" then None else Some(s)
  }

  function ReadString(u: UrlCodec, x: Item): Value
    requires x.Elem?
  {
    if x.kids == [] || x.kids[0].Elem? then Empty
    else if "1" <= AttrValue(x.attrs, "unsafe") then
      Str(Dup(u.decode(x.kids[0].text)), false)
    else Str(Dup(x.kids[0].text), true)
  }

  function ReadNumber(x: Item): Value
    requires x.Elem?
  {
    if x.kids == [] || x.kids[0].Elem? then Empty else Int(Numbers.Atol(x.kids[0].text))
  }

  /** The members of a struct once a child tree has been added by name. */
  function AddTree(kids: seq<Tree>, k: Tree): seq<Tree> {
    if k.name.None? then kids else Grafted(Struct, kids, k)
  }

  /** DDF deserialize on an element. */
  function FromItem(u: UrlCodec, x: Item, lower: bool): Tree
    requires x.Elem?
    decreases x, 1
  {
    var name := ReadName(x.attrs, lower);
    if x.tag == "var" then
      var inner := Elements(x.kids);
      if inner == [] then Tree(name, Empty, [], None) else
        var t := FromBody(u, inner[0], lower);
        Tree(name, t.0, t.1, None)
    else
      var t := FromBody(u, x, lower);
      Tree(name, t.0, t.1, None)
  }

  /** The value and the children an element stands for, whatever its name attribute. */
  function FromBody(u: UrlCodec, x: Item, lower: bool): (Value, seq<Tree>)
    requires x.Elem?
    decreases x, 0
  {
    if x.tag == "string" then (ReadString(u, x), [])
    else if x.tag == "number" then (ReadNumber(x), [])
    else if x.tag == "array" then (List, FromList(u, x, Elements(x.kids), lower))
    else if x.tag == "struct" then (Struct, FromStruct(u, x, Elements(x.kids), lower))
    else (Empty, [])
  }

  function FromList(u: UrlCodec, x: Item, xs: seq<Item>, lower: bool): (ts: seq<Tree>)
    requires x.Elem? && forall k | k in xs :: k in x.kids && k.Elem?
    ensures |ts| == |xs|
    ensures forall i | 0 <= i < |xs| :: xs[i] in x.kids && xs[i].Elem? && ts[i] == FromItem(u, xs[i], lower)
    decreases x, 0, |xs|
  {
    if xs == [] then [] else
      assert xs[0] in x.kids;
      [FromItem(u, xs[0], lower)] + FromList(u, x, xs[1..], lower)
  }

  /** Members are added one by one: a nameless one is not attached, a repeated name replaces. */
  function FromStruct(u: UrlCodec, x: Item, xs: seq<Item>, lower: bool): seq<Tree>
    requires x.Elem? && forall k | k in xs :: k in x.kids && k.Elem?
    decreases x, 0, |xs|
  {
    if xs == [] then [] else
      var last := xs[|xs| - 1];
      assert last in x.kids;
      AddTree(FromStruct(u, x, xs[..|xs| - 1], lower), FromItem(u, last, lower))
  }

  /** operator>>: the first element of the last element of the document. */
  function FromPacket(u: UrlCodec, doc: Item): Option<Tree>
    requires doc.Elem?
  {
    var parts := Elements(doc.kids);
    if parts == [] then None else
      var data := Elements(parts[|parts| - 1].kids);
      if data == [] then None else Some(FromItem(u, data[0], AttrValue(doc.attrs, "lowercase") != "no"))
  }

  function Decode(u: UrlCodec, s: string): Option<Tree> {
    var doc := Read(s);
    if doc.None? || doc.value.Text? then None else FromPacket(u, doc.value)
  }

  // ---- The round trip ----

  /** What is left of a value after a trip over the wire. */
  function NormalValue(v: Value): Value {
    match v
    case Pointer(_) => Empty
    case Str(text, _) => if text.None? then Empty else v
    case _ => v
  }

  /** The normal form: null strings and pointers are empty nodes, and cursors are reset. */
  function Normal(t: Tree): Tree {
    Tree(t.name, NormalValue(t.value), seq(|t.kids|, i requires 0 <= i < |t.kids| => Normal(t.kids[i])), None)
  }

  predicate DistinctNames(kids: seq<Tree>) {
    forall i, j | 0 <= i < j < |kids| :: kids[i].name != kids[j].name
  }

  /** Trees as the heap holds them, made of characters that XML keeps. */
  predicate TreeOk(t: Tree) {
    && NameOk(t.name) && TextOk(t.value)
    && (t.name.Some? ==> AttrOnly(t.name.value))
    && (t.value.Str? && t.value.text.Some? && t.value.safe ==> TextOnly(t.value.text.value))
    && (!t.value.Container() ==> t.kids == [])
    && (t.value.Struct? ==> (forall k | k in t.kids :: k.name.Some?) && DistinctNames(t.kids))
    && (forall k | k in t.kids :: TreeOk(k))
  }

  lemma {:induction false} NoAttr(attrs: seq<Attr>, name: string)
    requires forall a | a in attrs :: a.name != name
    ensures AttrValue(attrs, name) == ""
  {
    if attrs == [] {
    } else {
      NoAttr(attrs[1..], name);
    }
  }

  lemma {:induction false} AttrAfter(attrs: seq<Attr>, name: string, more: seq<Attr>)
    requires forall a | a in attrs :: a.name != name
    ensures AttrValue(attrs + more, name) == AttrValue(more, name)
  {
    if attrs == [] {
      assert attrs + more == more;
    } else {
      assert (attrs + more)[0] == attrs[0] && (attrs + more)[1..] == attrs[1..] + more;
      AttrAfter(attrs[1..], name, more);
    }
  }

  lemma NameBack(name: Option<string>, shown: bool, more: seq<Attr>)
    requires NameOk(name)
    requires forall a | a in more :: a.name != "name"
    ensures ReadName(NameAttr(name, shown) + more, false) == if shown then name else None
    ensures ReadName(more + NameAttr(name, shown), false) == if shown then name else None
  {
    NoAttr(more, "name");
    if shown && name.Some? {
      var a := Attr("name", name.value);
      assert ([a] + more)[0] == a;
      AttrAfter(more, "name", [a]);
    } else {
      assert [] + more == more && more + [] == more;
    }
  }

  lemma {:induction false} AllElements(xs: seq<Item>)
    requires forall x | x in xs :: x.Elem?
    ensures Elements(xs) == xs
  {
    if xs == [] {
    } else {
      AllElements(xs[1..]);
      assert xs == [xs[0]] + xs[1..];
    }
  }

  lemma UnsafeBack(u: UrlCodec, t: Tree, shown: bool)
    requires CodecOk(u) && TreeOk(t) && t.value.Str? && t.value.text.Some? && !t.value.safe
    ensures FromBody(u, ToItem(u, t, shown), false) == (t.value, [])
  {
    assert u.encode(t.value.text.value) != "" && u.decode(u.encode(t.value.text.value)) == t.value.text.value;
    AttrAfter(NameAttr(t.name, shown), "unsafe", [Attr("unsafe", "1")]);
  }

  lemma SafeBack(u: UrlCodec, t: Tree, shown: bool)
    requires CodecOk(u) && TreeOk(t) && t.value.Str? && t.value.text.Some? && t.value.safe
    ensures FromBody(u, ToItem(u, t, shown), false) == (t.value, [])
  {
    NoAttr(NameAttr(t.name, shown), "unsafe");
  }

  /** The strings and numbers. */
  lemma ScalarBack(u: UrlCodec, t: Tree, shown: bool)
    requires CodecOk(u) && TreeOk(t) && !t.value.Container()
    ensures FromBody(u, ToItem(u, t, shown), false) == (NormalValue(t.value), [])
  {
    match t.value
    case Str(text, safe) =>
      if text.Some? && !safe {
        UnsafeBack(u, t, shown);
      } else if text.Some? {
        SafeBack(u, t, shown);
      }
    case Int(n) => Numbers.AtolOfPrint(n);
    case Empty =>
    case Pointer(_) =>
  }

  /** A struct element stands for its members, a list element for its children. */
  lemma StructBody(u: UrlCodec, x: Item)
    requires x.Elem? && x.tag == "struct" && forall k | k in x.kids :: k.Elem?
    ensures FromBody(u, x, false) == (Struct, FromStruct(u, x, x.kids, false))
  {
    AllElements(x.kids);
  }

  lemma ListBody(u: UrlCodec, x: Item)
    requires x.Elem? && x.tag == "array" && forall k | k in x.kids :: k.Elem?
    ensures FromBody(u, x, false) == (List, FromList(u, x, x.kids, false))
  {
    AllElements(x.kids);
  }

  lemma WholePrefix<T>(s: seq<T>)
    ensures s[..|s|] == s
  {
  }

  lemma {:induction false} BodyBack(u: UrlCodec, t: Tree, shown: bool)
    requires CodecOk(u) && TreeOk(t)
    ensures FromBody(u, ToItem(u, t, shown), false) == (Normal(t).value, Normal(t).kids)
    decreases t, 1
  {
    var x := ToItem(u, t, shown);
    if t.value.Struct? {
      StructBack(u, t, x, |t.kids|);
      WholePrefix(x.kids);
      WholePrefix(Normal(t).kids);
      StructBody(u, x);
    } else if t.value.List? {
      ListBack(u, t, x);
      ListBody(u, x);
    } else {
      ScalarBack(u, t, shown);
    }
  }

  lemma ItemName(u: UrlCodec, t: Tree, shown: bool)
    requires NameOk(t.name)
    ensures ToItem(u, t, shown).tag != "var"
    ensures ReadName(ToItem(u, t, shown).attrs, false) == if shown then t.name else None
  {
    var a := NameAttr(t.name, shown);
    assert a + [] == a;
    match t.value
    case List => NameBack(t.name, shown, [Attr("length", Numbers.PrintNat(|t.kids|))]);
    case Str(text, safe) =>
      NameBack(t.name, shown, []);
      NameBack(t.name, shown, [Attr("unsafe", "1")]);
    case _ => NameBack(t.name, shown, []);
  }

  /** Reading the element of a tree yields the normal form, named if the element shows the name. */
  lemma {:induction false} ItemBack(u: UrlCodec, t: Tree, shown: bool)
    requires CodecOk(u) && TreeOk(t)
    ensures FromItem(u, ToItem(u, t, shown), false) == Normal(t).(name := if shown then t.name else None)
    decreases t, 2
  {
    ItemName(u, t, shown);
    BodyBack(u, t, shown);
  }

  lemma {:induction false} VarBack(u: UrlCodec, k: Tree)
    requires CodecOk(u) && TreeOk(k) && k.name.Some?
    ensures FromItem(u, VarItem(u, k), false) == Normal(k)
    decreases k, 2
  {
    BodyBack(u, k, false);
    AllElements([ToItem(u, k, false)]);
    NameBack(k.name, true, []);
    assert NameAttr(k.name, true) + [] == VarItem(u, k).attrs;
  }

  lemma NextPrefix<T>(s: seq<T>, i: nat)
    requires 0 < i <= |s|
    ensures s[..i] == s[..i - 1] + [s[i - 1]] && s[..i][..i - 1] == s[..i - 1]
  {
  }

  lemma {:induction false} ListBack(u: UrlCodec, t: Tree, x: Item)
    requires CodecOk(u) && TreeOk(t) && x.Elem? && x.kids == KidItems(u, t, t.kids)
    ensures forall k | k in x.kids :: k.Elem?
    ensures FromList(u, x, x.kids, false) == Normal(t).kids
    decreases t, 0
  {
    forall i | 0 <= i < |t.kids|
      ensures FromItem(u, ToItem(u, t.kids[i], true), false) == Normal(t.kids[i])
    {
      assert t.kids[i] in t.kids;
      ItemBack(u, t.kids[i], true);
    }
  }

  /** Adding the next member of a struct with distinct names appends it. */
  lemma MemberAppends(t: Tree, i: nat)
    requires TreeOk(t) && t.value.Struct? && 0 < i <= |t.kids|
    ensures AddTree(Normal(t).kids[..i - 1], Normal(t.kids[i - 1])) == Normal(t).kids[..i]
  {
    var init, k := Normal(t).kids[..i - 1], t.kids[i - 1];
    assert k in t.kids;
    forall m | m in init
      ensures m.name != k.name
    {
      var j := Index(init, m);
      assert m == Normal(t.kids[j]);
    }
    DropNone(init, k.name.value);
    NextPrefix(Normal(t).kids, i);
  }

  lemma {:induction false} StructBack(u: UrlCodec, t: Tree, x: Item, i: nat)
    requires CodecOk(u) && TreeOk(t) && t.value.Struct? && x.Elem? && x.kids == VarItems(u, t, t.kids) && i <= |t.kids|
    ensures forall k | k in x.kids :: k.Elem?
    ensures FromStruct(u, x, x.kids[..i], false) == Normal(t).kids[..i]
    decreases t, 0, i
  {
    if i == 0 {
    } else {
      var k := t.kids[i - 1];
      StructBack(u, t, x, i - 1);
      assert k in t.kids;
      VarBack(u, k);
      MemberAppends(t, i);
      NextPrefix(x.kids, i);
      assert x.kids[..i][i - 1] == x.kids[i - 1] == VarItem(u, k);
    }
  }

  // ---- The printed form is good XML ----

  lemma DigitsAreSafe(n: int)
    ensures AttrOnly(Numbers.PrintLong(n)) && TextOnly(Numbers.PrintLong(n))
    ensures n >= 0 ==> AttrOnly(Numbers.PrintNat(n))
  {
  }

  lemma {:induction false} GoodElements(xs: seq<Item>)
    requires forall i | 0 <= i < |xs| :: xs[i].Elem? && Good(xs[i])
    ensures GoodAll(xs)
  {
    if xs == [] {
    } else {
      GoodElements(xs[1..]);
    }
  }

  lemma NameGood(name: Option<string>, shown: bool)
    requires name.Some? ==> AttrOnly(name.value)
    ensures GoodAttrs(NameAttr(name, shown))
  {
  }

  lemma TagsGood()
    ensures IsName("string") && IsName("number") && IsName("struct") && IsName("array") && IsName("null")
            && IsName("var")
  {
  }

  lemma AttrsGood(n: nat)
    ensures GoodAttrs([Attr("unsafe", "1")]) && GoodAttrs([Attr("length", Numbers.PrintNat(n))])
  {
  }

  lemma GoodAttrsCat(a: seq<Attr>, b: seq<Attr>)
    requires GoodAttrs(a) && GoodAttrs(b)
    ensures GoodAttrs(a + b)
  {
  }

  lemma ScalarGood(u: UrlCodec, t: Tree, shown: bool)
    requires CodecOk(u) && TreeOk(t) && !t.value.Container()
    ensures Good(ToItem(u, t, shown))
  {
    NameGood(t.name, shown);
    TagsGood();
    AttrsGood(0);
    GoodAttrsCat(NameAttr(t.name, shown), [Attr("unsafe", "1")]);
    match t.value
    case Str(text, safe) =>
      if text.Some? && !safe {
        assert TextOnly(u.encode(text.value));
      }
    case Int(n) => DigitsAreSafe(n);
    case Empty =>
    case Pointer(_) =>
  }

  lemma {:induction false} VarGood(u: UrlCodec, k: Tree)
    requires CodecOk(u) && TreeOk(k)
    ensures Good(VarItem(u, k))
    decreases k, 2
  {
    ItemGood(u, k, false);
    GoodElements([ToItem(u, k, false)]);
    TagsGood();
    assert IsName("name");
  }

  lemma {:induction false} ItemGood(u: UrlCodec, t: Tree, shown: bool)
    requires CodecOk(u) && TreeOk(t)
    ensures Good(ToItem(u, t, shown))
    decreases t, 1
  {
    var x := ToItem(u, t, shown);
    NameGood(t.name, shown);
    TagsGood();
    if t.value.Struct? {
      forall i | 0 <= i < |t.kids|
        ensures Good(VarItem(u, t.kids[i]))
      {
        assert t.kids[i] in t.kids;
        VarGood(u, t.kids[i]);
      }
      GoodElements(x.kids);
    } else if t.value.List? {
      AttrsGood(|t.kids|);
      GoodAttrsCat([Attr("length", Numbers.PrintNat(|t.kids|))], NameAttr(t.name, shown));
      forall i | 0 <= i < |t.kids|
        ensures Good(ToItem(u, t.kids[i], true))
      {
        assert t.kids[i] in t.kids;
        ItemGood(u, t.kids[i], true);
      }
      GoodElements(x.kids);
    } else {
      ScalarGood(u, t, shown);
    }
  }

  lemma PacketNames()
    ensures IsName("wddxPacket") && IsName("header") && IsName("data")
    ensures GoodAttrs([Attr("version", "1.0"), Attr("lowercase", "no")])
  {
    assert IsName("version") && IsName("lowercase");
    assert AttrOnly("1.0") && AttrOnly("no");
  }

  lemma PacketGood(x: Item)
    requires Good(x) && x.Elem?
    ensures Good(Packet(x))
  {
    PacketNames();
    GoodElements([x]);
    GoodElements([]);
    GoodElements([Elem("header", [], [], true), Elem("data", [], [x], false)]);
  }

  lemma PacketBack(u: UrlCodec, x: Item)
    requires x.Elem?
    ensures FromPacket(u, Packet(x)) == Some(FromItem(u, x, false))
  {
    AllElements([x]);
    AllElements(Packet(x).kids);
  }

  /** Reading back what is printed yields the same tree up to the normal form. */
  lemma WireRoundTrip(u: UrlCodec, t: Tree)
    requires CodecOk(u) && TreeOk(t)
    ensures Decode(u, Encode(u, t)) == Some(Normal(t))
  {
    var x := ToItem(u, t, true);
    ItemGood(u, t, true);
    PacketGood(x);
    RoundTrip(Packet(x));
    PacketBack(u, x);
    ItemBack(u, t, true);
  }

  /** The normal form is stable, so a second trip changes nothing more. */
  lemma {:induction false} NormalStable(t: Tree)
    ensures Normal(Normal(t)) == Normal(t)
  {
    forall i | 0 <= i < |t.kids|
      ensures Normal(Normal(t.kids[i])) == Normal(t.kids[i])
    {
      NormalStable(t.kids[i]);
    }
  }

  /** Nothing in the tree is lost on the wire: no null strings, no pointers, no cursors. */
  predicate Lossless(t: Tree) {
    && !t.value.Pointer? && !(t.value.Str? && t.value.text.None?) && t.cursor == None
    && forall k | k in t.kids :: Lossless(k)
  }

  lemma {:induction false} NormalLossless(t: Tree)
    ensures Normal(t) == t <==> Lossless(t)
  {
    forall i | 0 <= i < |t.kids|
      ensures Normal(t.kids[i]) == t.kids[i] <==> Lossless(t.kids[i])
    {
      NormalLossless(t.kids[i]);
    }
    if Lossless(t) {
      assert forall i | 0 <= i < |t.kids| :: t.kids[i] in t.kids;
      assert Normal(t).kids == t.kids;
    }
  }

  /** A tree comes back unchanged exactly when it is normal already. */
  lemma WireExact(u: UrlCodec, t: Tree)
    requires CodecOk(u) && TreeOk(t)
    ensures Decode(u, Encode(u, t)) == Some(t) <==> Lossless(t)
  {
    WireRoundTrip(u, t);
    NormalLossless(t);
  }
}
