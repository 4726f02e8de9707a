/** deserialize and the stream operators of ddf.cpp on heap nodes. */
module Reading {
  import opened Basics
  import opened Forest
  import opened Ops
  import opened Trees
  import opened Grafts
  import opened Xml
  import opened Wire
  import opened Ddf

  /**
   * The elements deserialize handles within the domain of the node operations: numbers without a
   * decimal point, and members whose names are plain.
   */
  predicate Readable(u: UrlCodec, x: Item, lower: bool)
    requires x.Elem?
    decreases x, 1
  {
    if x.tag == "var" then
      var inner := Elements(x.kids);
      inner != [] ==> ReadableBody(u, inner[0], lower)
    else ReadableBody(u, x, lower)
  }

  /** A struct leaves a nameless child unattached; any other must have a plain name. */
  predicate Joinable(name: Option<string>) {
    name.Some? ==> MemberName(name.value)
  }

  predicate ReadableBody(u: UrlCodec, x: Item, lower: bool)
    requires x.Elem?
    decreases x, 0
  {
    && (x.tag == "number" && x.kids != [] && x.kids[0].Text? ==> '.' !in x.kids[0].text)
    && (x.tag == "array" || x.tag == "struct" ==>
          forall k | k in Elements(x.kids) :: k in x.kids && k.Elem? && Readable(u, k, lower))
    && (x.tag == "struct" ==>
          forall k | k in Elements(x.kids) :: k in x.kids && k.Elem? && Joinable(ReadName(k.attrs, lower)))
  }

  lemma {:induction false} ElementsSnoc(xs: seq<Item>, x: Item)
    ensures Elements(xs + [x]) == Elements(xs) + (if x.Elem? then [x] else [])
  {
    if xs == [] {
      assert [] + [x] == [x] && [x][1..] == [];
    } else {
      assert (xs + [x])[0] == xs[0] && (xs + [x])[1..] == xs[1..] + [x];
      ElementsSnoc(xs[1..], x);
    }
  }

  /** What m stands for when the first i children of a list or struct element have been read. */
  function Sofar(u: UrlCodec, x: Item, i: nat, lower: bool): seq<Tree>
    requires x.Elem? && i <= |x.kids|
  {
    if i == 0 then []
    else if x.kids[i - 1].Text? then Sofar(u, x, i - 1, lower)
    else
      var t := FromItem(u, x.kids[i - 1], lower);
      if x.tag == "struct" then AddTree(Sofar(u, x, i - 1, lower), t) else Sofar(u, x, i - 1, lower) + [t]
  }

  /** The elements among the first i children. */
  function Seen(x: Item, i: nat): (xs: seq<Item>)
    requires x.Elem? && i <= |x.kids|
    ensures forall k | k in xs :: k in x.kids && k.Elem?
  {
    Elements(x.kids[..i])
  }

  lemma SeenNext(x: Item, i: nat)
    requires x.Elem? && 0 < i <= |x.kids|
    ensures Seen(x, i) == if x.kids[i - 1].Elem? then Seen(x, i - 1) + [x.kids[i - 1]] else Seen(x, i - 1)
  {
    NextPrefix(x.kids, i);
    ElementsSnoc(x.kids[..i - 1], x.kids[i - 1]);
  }

  lemma FromListSnoc(u: UrlCodec, x: Item, xs: seq<Item>, k: Item, lower: bool)
    requires x.Elem? && (forall j | j in xs :: j in x.kids && j.Elem?) && k in x.kids && k.Elem?
    ensures FromList(u, x, xs + [k], lower) == FromList(u, x, xs, lower) + [FromItem(u, k, lower)]
  {
  }

  /** The container being built, when the first i children have been read. */
  function Halfway(u: UrlCodec, x: Item, i: nat, lower: bool, name: Option<string>): Tree
    requires x.Elem? && i <= |x.kids|
  {
    Tree(name, if x.tag == "struct" then Struct else List, Sofar(u, x, i, lower), None)
  }

  lemma SeenNone(u: UrlCodec, x: Item, lower: bool)
    requires x.Elem?
    ensures Seen(x, 0) == [] && FromStruct(u, x, Seen(x, 0), lower) == [] && FromList(u, x, Seen(x, 0), lower) == []
  {
  }

  lemma SofarNext(u: UrlCodec, x: Item, i: nat, lower: bool)
    requires x.Elem? && 0 < i <= |x.kids| && x.kids[i - 1].Elem?
    ensures Sofar(u, x, i, lower) ==
            var t := FromItem(u, x.kids[i - 1], lower);
            if x.tag == "struct" then AddTree(Sofar(u, x, i - 1, lower), t) else Sofar(u, x, i - 1, lower) + [t]
  {
  }

  /** The list built so far is the one for the elements seen so far. */
  predicate ListAgrees(u: UrlCodec, x: Item, i: nat, lower: bool)
    requires x.Elem? && i <= |x.kids|
  {
    Sofar(u, x, i, lower) == FromList(u, x, Seen(x, i), lower)
  }

  predicate StructAgrees(u: UrlCodec, x: Item, i: nat, lower: bool)
    requires x.Elem? && i <= |x.kids|
  {
    Sofar(u, x, i, lower) == FromStruct(u, x, Seen(x, i), lower)
  }

  lemma AgreeAtFirst(u: UrlCodec, x: Item, lower: bool)
    requires x.Elem?
    ensures ListAgrees(u, x, 0, lower) && StructAgrees(u, x, 0, lower)
  {
    SeenNone(u, x, lower);
  }

  lemma SofarListNext(u: UrlCodec, x: Item, i: nat, lower: bool)
    requires x.Elem? && 0 < i <= |x.kids| && x.tag != "struct"
    requires ListAgrees(u, x, i - 1, lower)
    ensures ListAgrees(u, x, i, lower)
  {
    SeenNext(x, i);
    if x.kids[i - 1].Elem? {
      FromListSnoc(u, x, Seen(x, i - 1), x.kids[i - 1], lower);
      SofarNext(u, x, i, lower);
    }
  }

  lemma SofarList(u: UrlCodec, x: Item, n: nat, lower: bool)
    requires x.Elem? && n <= |x.kids| && x.tag != "struct"
    ensures ListAgrees(u, x, n, lower)
  {
    AgreeAtFirst(u, x, lower);
    for i := 0 to n
      invariant ListAgrees(u, x, i, lower)
    {
      SofarListNext(u, x, i + 1, lower);
    }
  }

  lemma FromStructSnoc(u: UrlCodec, x: Item, xs: seq<Item>, k: Item, lower: bool)
    requires x.Elem? && (forall j | j in xs :: j in x.kids && j.Elem?) && k in x.kids && k.Elem?
    ensures FromStruct(u, x, xs + [k], lower) == AddTree(FromStruct(u, x, xs, lower), FromItem(u, k, lower))
  {
  }

  lemma SofarStructNext(u: UrlCodec, x: Item, i: nat, lower: bool)
    requires x.Elem? && 0 < i <= |x.kids| && x.tag == "struct"
    requires StructAgrees(u, x, i - 1, lower)
    ensures StructAgrees(u, x, i, lower)
  {
    SeenNext(x, i);
    if x.kids[i - 1].Elem? {
      FromStructSnoc(u, x, Seen(x, i - 1), x.kids[i - 1], lower);
      SofarNext(u, x, i, lower);
    }
  }

  lemma SofarStruct(u: UrlCodec, x: Item, n: nat, lower: bool)
    requires x.Elem? && n <= |x.kids| && x.tag == "struct"
    ensures StructAgrees(u, x, n, lower)
  {
    AgreeAtFirst(u, x, lower);
    for i := 0 to n
      invariant StructAgrees(u, x, i, lower)
    {
      SofarStructNext(u, x, i + 1, lower);
    }
  }

  lemma SofarAll(u: UrlCodec, x: Item, lower: bool)
    requires x.Elem? && (x.tag == "array" || x.tag == "struct")
    ensures FromBody(u, x, lower) == (if x.tag == "struct" then Struct else List, Sofar(u, x, |x.kids|, lower))
  {
    WholePrefix(x.kids);
    if x.tag == "struct" {
      SofarStruct(u, x, |x.kids|, lower);
    } else {
      SofarList(u, x, |x.kids|, lower);
    }
  }

  /** m is a detached tree outside f, and the nodes of f are as they were. */
  ghost predicate Detached(f: Heap, g: Heap, m: Body, t: Tree) {
    && Wf(f) && Wf(g) && Extends(f, g) && m !in f && m in g
    && g[m].parent == null && g[m].cursor == null && TreeOf(g, m) == t
  }

  lemma NotUnderFresh(f: Heap, g: Heap, m: Body, x: Body)
    requires Wf(f) && Wf(g) && Extends(f, g) && m !in f && x in f
    ensures !Under(g, x, m)
  {
    SameAncestry(g, f, x, m);
    if Under(f, x, m) {
      Paths.UnderKnown(f, x, m);
    }
  }

  lemma PriorApart(g: Heap, m: Body, c: Body, prior: Body)
    requires Wf(g) && m in g && c in g && prior in g && g[c].parent == null && g[prior].parent == m && m != c
    ensures !Under(g, c, prior)
  {
  }

  /** Adding the tree just read to the container being built. */
  lemma AddRead(f: Heap, h: Heap, g: Heap, m: Body, c: Body, t: Tree, k: Tree)
    requires Detached(f, h, m, t) && Detached(h, g, c, k) && t.value.Container()
    requires t.value.Struct? ==> Joinable(k.name)
    ensures m in g && c in g && m != c && AddOk(g, m, c)
    ensures t.value.Struct? && k.name.None? ==> !Adds(g, m, c) && Detached(f, g, m, t)
    ensures t.value.List? || k.name.Some? ==>
              Adds(g, m, c) && Detached(f, Add(g, m, c), m, t.(kids := Grafted(t.value, t.kids, k)))
  {
    TreeOfKids(h, m);
    TreeOfKids(g, c);
    ExtendsTree(h, g, m);
    NotUnderFresh(h, g, c, m);
    assert g[m].value == t.value && g[c].name == k.name;
    var prior := Replaced(g, m, c);
    if prior != null && Adds(g, m, c) {
      Paths.PlainName(g, m, k.name.value);
      assert Linked(g, m);
      PriorApart(g, m, c, prior);
    }
    if Adds(g, m, c) {
      AddGrafts(g, m, c);
      forall x | x in f
        ensures x in Add(g, m, c) && Add(g, m, c)[x] == f[x]
      {
        NotUnderFresh(f, h, m, x);
        SameAncestry(g, h, x, m);
        AddOther(g, m, c, x);
      }
    }
  }

  /** A new node with the name of an element. */
  method NewNamed(st: Store, root: Item, lower: bool) returns (m: Body)
    requires st.Valid() && root.Elem?
    modifies st, st.live
    ensures st.Valid() && m in st.live && (forall b | b in st.live :: b in old(st.live) || fresh(b))
    ensures Detached(old(st.View()), st.View(), m, Tree(ReadName(root.attrs, lower), Empty, [], None))
  {
    m := st.New(None);
    var v := AttrValue(root.attrs, "name");
    if v != "" {
      assert NodeOf(m) == st.View()[m];
      st.Name(m, Some(if lower then Lower(v) else v));
    }
    TreeOfKids(st.View(), m);
  }

  /** DDF deserialize: build the tree an element stands for out of new nodes. */
  method Deserialize(st: Store, u: UrlCodec, root: Item, lower: bool) returns (m: Body)
    requires st.Valid() && root.Elem? && Readable(u, root, lower)
    modifies st, st.live
    ensures st.Valid() && (forall b | b in st.live :: b in old(st.live) || fresh(b))
    ensures Detached(old(st.View()), st.View(), m, FromItem(u, root, lower))
    decreases root, 4
  {
    ghost var f, name := st.View(), ReadName(root.attrs, lower);
    m := NewNamed(st, root, lower);
    if root.tag == "var" {
      var inner := Elements(root.kids);
      if inner != [] {
        assert inner[0] in root.kids;
        DeserializeBody(st, f, u, m, inner[0], lower, name);
      }
    } else {
      DeserializeBody(st, f, u, m, root, lower, name);
    }
  }

  /** Give the new node its value. */
  method SetRead(st: Store, ghost f: Heap, m: Body, v: Value, ghost name: Option<string>)
    requires st.Valid() && m in st.live && TextOk(v)
    requires Detached(f, st.View(), m, Tree(name, Empty, [], None))
    modifies st, st.live
    ensures st.Valid() && m in st.live && (forall b | b in st.live :: b in old(st.live) || fresh(b))
    ensures Detached(f, st.View(), m, Tree(name, v, [], None))
  {
    ghost var h := st.View();
    TreeOfKids(h, m);
    assert h[m].kids == [];
    SetLeaf(h, m, v);
    if v.Container() {
      st.MakeContainer(m, v);
    } else {
      st.Set(m, v);
    }
    assert m in st.View();
    TreeOfKids(st.View(), m);
  }

  /** The part of deserialize that looks at the type of the element. */
  method DeserializeBody(st: Store, ghost f: Heap, u: UrlCodec, m: Body, x: Item, lower: bool,
      ghost name: Option<string>)
    requires st.Valid() && x.Elem? && ReadableBody(u, x, lower) && m in st.live
    requires Detached(f, st.View(), m, Tree(name, Empty, [], None))
    modifies st, st.live
    ensures st.Valid() && m in st.live && (forall b | b in st.live :: b in old(st.live) || fresh(b))
    ensures var t := FromBody(u, x, lower); Detached(f, st.View(), m, Tree(name, t.0, t.1, None))
    decreases x, 3
  {
    TreeOfKids(st.View(), m);
    assert st.View()[m].kids == [];
    if x.tag == "string" {
      if x.kids != [] && x.kids[0].Text? {
        SetRead(st, f, m, ReadString(u, x), name);
      }
    } else if x.tag == "number" {
      if x.kids != [] && x.kids[0].Text? {
        SetRead(st, f, m, ReadNumber(x), name);
      }
    } else if x.tag == "array" {
      SetRead(st, f, m, List, name);
      ReadKids(st, f, u, m, x, lower, name);
      SofarAll(u, x, lower);
    } else if x.tag == "struct" {
      SetRead(st, f, m, Struct, name);
      ReadKids(st, f, u, m, x, lower, name);
      SofarAll(u, x, lower);
    }
  }

  lemma {:induction false} ElementIn(xs: seq<Item>, i: nat)
    requires i < |xs| && xs[i].Elem?
    ensures xs[i] in Elements(xs)
  {
    if i == 0 {
    } else {
      ElementIn(xs[1..], i - 1);
    }
  }

  lemma {:induction false} ElementAt(x: Item, i: nat)
    requires x.Elem? && i < |x.kids| && x.kids[i].Elem?
    ensures x.kids[i] in Elements(x.kids)
  {
    ElementIn(x.kids, i);
  }

  /** The loop over the children of an array or struct element. */
  method ReadKids(st: Store, ghost f: Heap, u: UrlCodec, m: Body, x: Item, lower: bool, ghost name: Option<string>)
    requires st.Valid() && x.Elem? && ReadableBody(u, x, lower) && m in st.live
    requires x.tag == "array" || x.tag == "struct"
    requires Detached(f, st.View(), m, Halfway(u, x, 0, lower, name))
    modifies st, st.live
    ensures st.Valid() && m in st.live && (forall b | b in st.live :: b in old(st.live) || fresh(b))
    ensures Detached(f, st.View(), m, Halfway(u, x, |x.kids|, lower, name))
    decreases x, 2
  {
    for i := 0 to |x.kids|
      invariant st.Valid() && m in st.live
      invariant forall b | b in st.live :: b in old(st.live) || fresh(b)
      invariant Detached(f, st.View(), m, Halfway(u, x, i, lower, name))
    {
      ReadNext(st, f, u, m, x, i, lower, name);
    }
  }

  /** One round of the loop: text between the elements is skipped. */
  method ReadNext(st: Store, ghost f: Heap, u: UrlCodec, m: Body, x: Item, i: nat, lower: bool,
      ghost name: Option<string>)
    requires st.Valid() && x.Elem? && ReadableBody(u, x, lower) && m in st.live
    requires (x.tag == "array" || x.tag == "struct") && i < |x.kids|
    requires Detached(f, st.View(), m, Halfway(u, x, i, lower, name))
    modifies st, st.live
    ensures st.Valid() && m in st.live && (forall b | b in st.live :: b in old(st.live) || fresh(b))
    ensures Detached(f, st.View(), m, Halfway(u, x, i + 1, lower, name))
    decreases x, 1
  {
    if x.kids[i].Elem? {
      ElementAt(x, i);
      ReadKid(st, f, u, m, x, i, lower, name);
    }
  }

  lemma HalfwayNext(u: UrlCodec, x: Item, i: nat, lower: bool, name: Option<string>)
    requires x.Elem? && i < |x.kids| && x.kids[i].Elem?
    ensures var t, k := Halfway(u, x, i, lower, name), FromItem(u, x.kids[i], lower);
            Halfway(u, x, i + 1, lower, name) ==
            if t.value.Struct? && k.name.None? then t else t.(kids := Grafted(t.value, t.kids, k))
  {
    SofarNext(u, x, i + 1, lower);
  }

  lemma ElementName(u: UrlCodec, x: Item, lower: bool)
    requires x.Elem?
    ensures FromItem(u, x, lower).name == ReadName(x.attrs, lower)
  {
  }

  /** Read one child element and add it. */
  method ReadKid(st: Store, ghost f: Heap, u: UrlCodec, m: Body, x: Item, i: nat, lower: bool,
      ghost name: Option<string>)
    requires st.Valid() && x.Elem? && ReadableBody(u, x, lower) && m in st.live
    requires x.tag == "array" || x.tag == "struct"
    requires i < |x.kids| && x.kids[i].Elem? && x.kids[i] in Elements(x.kids)
    requires Detached(f, st.View(), m, Halfway(u, x, i, lower, name))
    modifies st, st.live
    ensures st.Valid() && m in st.live && (forall b | b in st.live :: b in old(st.live) || fresh(b))
    ensures Detached(f, st.View(), m, Halfway(u, x, i + 1, lower, name))
    decreases x, 0
  {
    ghost var h := st.View();
    ghost var t := Halfway(u, x, i, lower, name);
    var temp := Deserialize(st, u, x.kids[i], lower);
    ElementName(u, x.kids[i], lower);
    AddRead(f, h, st.View(), m, temp, t, FromItem(u, x.kids[i], lower));
    st.Add(m, temp);
    HalfwayNext(u, x, i, lower, name);
    assert m in st.View();
  }
}
