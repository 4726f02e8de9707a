/** operator<< and operator>> of ddf.cpp: whole packets, from heap to text and back to heap. */
module Packets {
  import opened Basics
  import opened Forest
  import opened Trees
  import opened Grafts
  import opened Xml
  import opened Wire
  import opened Ddf
  import opened Streams
  import opened Reading
  import Numbers
  import Ops

  const PACKET_OPEN := "<wddxPacket version=\"1.0\" lowercase=\"no\"><header/><data>"
  const PACKET_CLOSE := "</data></wddxPacket>"

  /** The tree a handle stands for; the null handle prints as an empty node. */
  ghost function HandleTree(f: Heap, p: Body?): Tree
    requires Wf(f) && (p != null ==> p in f)
  {
    if p == null then Tree(None, Empty, [], None) else TreeOf(f, p)
  }

  function PacketAttrs(): seq<Attr> { [Attr("version", "1.0"), Attr("lowercase", "no")] }

  lemma LastAttrLiteral()
    ensures RenderAttrs([Attr("lowercase", "no")]) == " lowercase=\"no\""
  {
  }

  lemma AttrLiterals()
    ensures RenderAttrs(PacketAttrs()) == " version=\"1.0\" lowercase=\"no\""
  {
    EscapePlain("1.0");
    LastAttrLiteral();
    assert PacketAttrs()[1..] == [Attr("lowercase", "no")];
    assert " " + "version" + "=\"" + "1.0" + "\"" == " version=\"1.0\"";
    assert " version=\"1.0\"" + " lowercase=\"no\"" == " version=\"1.0\" lowercase=\"no\"";
  }

  lemma OpenLiteral()
    ensures PACKET_OPEN == "<wddxPacket" + " version=\"1.0\" lowercase=\"no\"" + ">" + "<header/>" + "<data>"
  {
    assert "<wddxPacket" + " version=\"1.0\" lowercase=\"no\"" == "<wddxPacket version=\"1.0\" lowercase=\"no\"";
    assert "<wddxPacket version=\"1.0\" lowercase=\"no\"" + ">" == "<wddxPacket version=\"1.0\" lowercase=\"no\">";
    assert "<wddxPacket version=\"1.0\" lowercase=\"no\">" + "<header/>" ==
           "<wddxPacket version=\"1.0\" lowercase=\"no\"><header/>";
  }

  lemma PacketLiterals()
    ensures PACKET_CLOSE == "</data>" + "</wddxPacket>"
    ensures "<wddxPacket" == "<" + "wddxPacket" && "</wddxPacket>" == "</" + "wddxPacket" + ">"
    ensures "<data" == "<" + "data" && "</data>" == "</" + "data" + ">" && "<data" + "" + ">" == "<data>"
    ensures "<header/>" == "<" + "header" + "" + "/>"
  {
  }

  lemma DataForm(x: Item)
    ensures RenderAll(Packet(x).kids) == "<header/>" + ("<data>" + Render(x) + "</data>")
  {
    var h, d := Elem("header", [], [], true), Elem("data", [], [x], false);
    PacketLiterals();
    RenderOne(x);
    assert [h, d][1..] == [d];
    RenderOne(d);
    LongForm("", "data", [], [x], "<data", "</data>");
    assert "" + "<data" + "" + ">" == "<data>";
    assert "" + Render(d) == Render(d);
  }

  lemma PacketAssoc(os: string, o: string, a: string, h: string, d: string, x: string, e: string, c: string)
    ensures os + (o + a + ">" + h + d) + x + (e + c) == os + o + a + ">" + (h + (d + x + e)) + c
  {
  }

  /** What operator<< prints around the data is the packet element. */
  lemma PacketForm(os: string, x: Item)
    ensures os + PACKET_OPEN + Render(x) + PACKET_CLOSE == os + Render(Packet(x))
  {
    DataForm(x);
    AttrLiterals();
    OpenLiteral();
    PacketLiterals();
    LongForm(os, "wddxPacket", PacketAttrs(), Packet(x).kids, "<wddxPacket", "</wddxPacket>");
    PacketAssoc(os, "<wddxPacket", RenderAttrs(PacketAttrs()), "<header/>", "<data>", Render(x), "</data>",
      "</wddxPacket>");
  }

  /** operator<<. */
  method Insertion(st: Store, ghost f: Heap, u: UrlCodec, p: Body?, os: string) returns (out: string)
    requires st.Valid() && st.View() == f && st.Has(p)
    ensures st.Valid() && st.View() == f
    ensures out == os + Encode(u, HandleTree(f, p))
  {
    out := os + PACKET_OPEN;
    out := Serialize(st, f, u, p, out, true);
    out := out + PACKET_CLOSE;
    var x := ToItem(u, HandleTree(f, p), true);
    assert Printed(u, f, p, true) == Render(x) by {
      if p == null {
        assert "<" + "null" + "" + "/>" == "<null/>";
      }
    }
    PacketForm(os, x);
  }

  // ---- operator>> ----

  /** The element operator>> hands to deserialize. */
  function DataOf(doc: Item): (r: Option<Item>)
    requires doc.Elem?
    ensures r.Some? ==> r.value.Elem?
  {
    var parts := Elements(doc.kids);
    if parts == [] then None else
      var data := Elements(parts[|parts| - 1].kids);
      if data == [] then None else Some(data[0])
  }

  function Lowers(doc: Item): bool
    requires doc.Elem?
  {
    AttrValue(doc.attrs, "lowercase") != "no"
  }

  /** A text that parses holds a data element within the domain of the node operations. */
  predicate Extractable(u: UrlCodec, s: string) {
    Read(s).Some? && Read(s).value.Elem? ==>
      var x := DataOf(Read(s).value);
      x.Some? && Readable(u, x.value, Lowers(Read(s).value))
  }

  /** The heap once the old content of the handle is gone. */
  ghost function Dropped(f: Heap, p: Body?): (g: Heap)
    requires Wf(f) && (p != null ==> p in f)
    ensures Wf(g)
  {
    if p == null then f else DestroyWf(f, p); Forest.Destroy(f, p)
  }

  /** The old tree goes with all its nodes, and no other node does. */
  lemma DroppedNodes(f: Heap, p: Body?)
    requires Wf(f) && (p != null ==> p in f)
    ensures p == null ==> Dropped(f, p) == f
    ensures p != null ==> Dropped(f, p).Keys == f.Keys - Subtree(f, p) && p !in Dropped(f, p)
  {
    if p != null {
      Ops.DestroyKeeps(f, p);
      assert Under(f, p, p);
    }
  }

  /** operator>>: the old tree goes only once the text has parsed; the result is None when the parser throws. */
  method Extraction(st: Store, u: UrlCodec, s: string, p: Body?) returns (m: Body?)
    requires st.Valid() && st.Has(p) && Extractable(u, s)
    modifies st, st.live
    ensures st.Valid() && (forall b | b in st.live :: b in old(st.live) || fresh(b))
    ensures Decode(u, s).None? <==> m == null
    ensures m == null ==> st.View() == old(st.View())
    ensures m != null ==> Detached(Dropped(old(st.View()), p), st.View(), m, Decode(u, s).value)
  {
    var doc := Read(s);
    if doc.None? || doc.value.Text? {
      return null;
    }
    var x := DataOf(doc.value).value;
    st.Destroy(p);
    m := Deserialize(st, u, x, Lowers(doc.value));
  }

  // ---- The round trip on heaps ----

  /** The text in a tree survives XML: names in attributes, safe strings as character data. */
  predicate XmlSafe(t: Tree) {
    && (t.name.Some? ==> AttrOnly(t.name.value))
    && (t.value.Str? && t.value.text.Some? && t.value.safe ==> TextOnly(t.value.text.value))
    && forall k | k in t.kids :: XmlSafe(k)
  }

  lemma {:induction false} TreeOkSafe(t: Tree)
    requires TreeOk(t)
    ensures XmlSafe(t)
  {
    forall k | k in t.kids
      ensures XmlSafe(k)
    {
      TreeOkSafe(k);
    }
  }

  /** Struct members have names that path syntax resolves to themselves. */
  predicate MembersPlain(t: Tree) {
    && (t.value.Struct? ==> forall k | k in t.kids :: k.name.Some? && MemberName(k.name.value))
    && forall k | k in t.kids :: MembersPlain(k)
  }

  /** Every tree on a well-formed heap is fit for the wire once its characters are. */
  lemma {:induction false} HeapTreeOk(f: Heap, n: Body)
    requires Wf(f) && n in f && XmlSafe(TreeOf(f, n))
    ensures TreeOk(TreeOf(f, n)) && MembersPlain(TreeOf(f, n))
    decreases Room(f, n)
  {
    var t, ks := TreeOf(f, n), f[n].kids;
    RoomOfKids(f, n);
    TreeOfKids(f, n);
    assert Linked(f, n) && Proper(f, n);
    forall k | k in t.kids
      ensures TreeOk(k) && MembersPlain(k)
    {
      var i := Index(t.kids, k);
      assert ks[i] in ks;
      HeapTreeOk(f, ks[i]);
    }
    if t.value.Struct? {
      forall i | 0 <= i < |ks|
        ensures t.kids[i].name.Some? && MemberName(t.kids[i].name.value)
      {
        assert ks[i] in ks && Named(f, ks[i]);
      }
      forall i, j | 0 <= i < j < |ks|
        ensures t.kids[i].name != t.kids[j].name
      {
        assert ks[i] in ks && ks[j] in ks && Basics.Apart(ks, i, j);
      }
    }
  }

  lemma NumberPlain(n: int)
    ensures '.' !in Numbers.PrintLong(n)
  {
  }

  /** What serialize prints is always within the domain of deserialize. */
  lemma {:induction false} PrintedReadable(u: UrlCodec, t: Tree, shown: bool)
    requires TreeOk(t) && MembersPlain(t)
    ensures ReadableBody(u, ToItem(u, t, shown), false) && Readable(u, ToItem(u, t, shown), false)
    decreases t
  {
    var x := ToItem(u, t, shown);
    ItemName(u, t, shown);
    if t.value.Struct? {
      AllElements(x.kids);
      forall k | k in x.kids
        ensures k.Elem? && Readable(u, k, false) && Joinable(ReadName(k.attrs, false))
      {
        var i := Index(x.kids, k);
        VarReadable(u, t, i);
      }
    } else if t.value.List? {
      AllElements(x.kids);
      forall k | k in x.kids
        ensures k.Elem? && Readable(u, k, false)
      {
        var i := Index(x.kids, k);
        assert t.kids[i] in t.kids;
        PrintedReadable(u, t.kids[i], true);
      }
    } else if t.value.Int? {
      NumberPlain(t.value.n);
    }
  }

  lemma {:induction false} VarReadable(u: UrlCodec, t: Tree, i: nat)
    requires TreeOk(t) && MembersPlain(t) && t.value.Struct? && i < |t.kids|
    ensures var v := VarItem(u, t.kids[i]); Readable(u, v, false) && Joinable(ReadName(v.attrs, false))
    decreases t, 0
  {
    var k := t.kids[i];
    assert k in t.kids;
    PrintedReadable(u, k, false);
    AllElements([ToItem(u, k, false)]);
    NameBack(k.name, true, []);
    assert NameAttr(k.name, true) + [] == VarItem(u, k).attrs;
  }

  lemma PacketReadable(u: UrlCodec, t: Tree)
    requires CodecOk(u) && TreeOk(t) && MembersPlain(t)
    ensures Extractable(u, Encode(u, t))
  {
    var x := ToItem(u, t, true);
    ItemGood(u, t, true);
    PacketGood(x);
    RoundTrip(Packet(x));
    PrintedReadable(u, t, true);
    AllElements([x]);
    AllElements(Packet(x).kids);
  }

  /** What operator<< prints for a handle can be read, and stands for the normal form of its tree. */
  lemma HeapRoundTrip(u: UrlCodec, f: Heap, p: Body?)
    requires CodecOk(u) && Wf(f) && (p != null ==> p in f) && XmlSafe(HandleTree(f, p))
    ensures Extractable(u, Encode(u, HandleTree(f, p)))
    ensures Decode(u, Encode(u, HandleTree(f, p))) == Some(Normal(HandleTree(f, p)))
  {
    if p != null {
      HeapTreeOk(f, p);
    }
    PacketReadable(u, HandleTree(f, p));
    WireRoundTrip(u, HandleTree(f, p));
  }

  /** The packet for a handle, in a string of its own. */
  method Print(st: Store, ghost f: Heap, u: UrlCodec, p: Body?, ghost t: Tree) returns (s: string)
    requires CodecOk(u) && st.Valid() && st.View() == f && st.Has(p) && t == HandleTree(f, p) && XmlSafe(t)
    ensures s == Encode(u, t) && Extractable(u, s) && Decode(u, s) == Some(Normal(t))
  {
    s := Insertion(st, f, u, p, "");
    assert "" + Encode(u, t) == Encode(u, t);
    HeapRoundTrip(u, f, p);
  }

  /** operator>> on a text that is known to stand for a tree. */
  method Load(st: Store, u: UrlCodec, s: string, target: Body?, ghost n: Tree) returns (m: Body?)
    requires st.Valid() && st.Has(target) && Extractable(u, s) && Decode(u, s) == Some(n)
    modifies st, st.live
    ensures m != null && st.Valid()
    ensures Detached(Dropped(old(st.View()), target), st.View(), m, n)
  {
    m := Extraction(st, u, s, target);
  }

  /**
   * A tree written by operator<< from one store and read by operator>> into another is rebuilt
   * there out of new nodes, equal up to the normal form.
   */
  method Carry(src: Store, ghost f: Heap, u: UrlCodec, p: Body?, dst: Store, ghost t: Tree, target: Body?)
    returns (m: Body?)
    requires CodecOk(u) && src.Valid() && src.View() == f && src.Has(p) && t == HandleTree(f, p) && XmlSafe(t)
    requires dst.Valid() && dst.Has(target)
    modifies dst, dst.live
    ensures m != null && dst.Valid()
    ensures Detached(Dropped(old(dst.View()), target), dst.View(), m, Normal(t))
  {
    var s := Print(src, f, u, p, t);
    dst.Untouched();
    m := Load(dst, u, s, target, Normal(t));
  }
}
