/** Building a detached struct field by field, the way the handlers fill in their messages. */
module Records {
  import opened Basics
  import opened Forest
  import opened Paths
  import opened Ops
  import opened Trees
  import opened Grafts
  import opened Ddf
  import opened Reading
  import Members

  /** t with its last child replaced. */
  function WithLast(t: Tree, k: Tree): Tree
    requires t.kids != []
  {
    t.(kids := t.kids[|t.kids| - 1 := k])
  }

  function Leaf(name: Option<string>, v: Value): Tree { Tree(name, v, [], None) }

  ghost predicate LastKidIs(h: Heap, m: Body, c: Body) {
    m in h && h[m].kids != [] && h[m].kids[|h[m].kids| - 1] == c && c in h
  }

  /** Nothing has the name yet. */
  predicate Unused(t: Tree, name: string) {
    forall k | k in t.kids :: k.name != Some(name)
  }

  lemma UnusedMeansAbsent(f: Heap, h: Heap, m: Body, t: Tree, name: string)
    requires Detached(f, h, m, t) && t.value.Struct? && MemberName(name) && Unused(t, name)
    ensures PathGet(h, m, name) == null
  {
    TreeOfKids(h, m);
    PlainName(h, m, name);
    forall k | k in h[m].kids
      ensures h[k].name != Some(name)
    {
      var i := Index(h[m].kids, k);
      assert t.kids[i] == TreeOf(h, k) && t.kids[i] in t.kids;
    }
  }

  /** What addmember does for a name that is not there. */
  lemma FreshMemberIs(h: Heap, m: Body, name: string, used: seq<Body>, g: Heap, k: Body?)
    requires Wf(h) && m in h && h[m].value.Struct? && MemberName(name) && PathGet(h, m, name) == null
    requires Members.Addable(name) && Members.Supply(h, used)
    requires Members.AddPath(h, m, name, used) == Members.Added(g, k, [], false)
    ensures k != null && k !in h
    ensures Wf(Create(h, k, Some(name))) && AddOk(Create(h, k, Some(name)), m, k)
    ensures g == Add(Create(h, k, Some(name)), m, k)
  {
    PlainName(h, m, name);
    Members.NewMemberReady(h, m, name, used[0]);
  }

  lemma FreshMemberTree(f: Heap, h: Heap, m: Body, t: Tree, name: string, k: Body)
    requires Detached(f, h, m, t) && t.value.Struct? && MemberName(name) && Unused(t, name) && k !in h
    ensures var g := Create(h, k, Some(name));
            && Wf(g) && AddOk(g, m, k)
            && Detached(f, Add(g, m, k), m, t.(kids := t.kids + [Leaf(Some(name), Empty)]))
            && LastKidIs(Add(g, m, k), m, k) && Add(g, m, k)[k].kids == []
  {
    var g := Create(h, k, Some(name));
    UnusedMeansAbsent(f, h, m, t, name);
    Members.NewMemberReady(h, m, name, k);
    TreeOfKids(g, k);
    assert Detached(h, g, k, Leaf(Some(name), Empty));
    AddRead(f, h, g, m, k, t, Leaf(Some(name), Empty));
    DropNone(t.kids, name);
  }

  lemma NameIsAddable(name: string)
    requires MemberName(name)
    ensures Members.Addable(name) && Token(name) == (name, "")
  {
  }

  /** addmember with a name that is not in use. */
  method NewField(st: Store, ghost f: Heap, m: Body, ghost t: Tree, name: string) returns (k: Body)
    requires st.Valid() && m in st.live && Detached(f, st.View(), m, t) && t.value.Struct?
    requires MemberName(name) && Unused(t, name)
    modifies st, st.live
    ensures st.Valid() && m in st.live && k in st.live && (forall b | b in st.live :: b in old(st.live) || fresh(b))
    ensures Detached(f, st.View(), m, t.(kids := t.kids + [Leaf(Some(name), Empty)]))
    ensures LastKidIs(st.View(), m, k) && st.View()[k].kids == []
  {
    ghost var h := st.View();
    NameIsAddable(name);
    UnusedMeansAbsent(f, h, m, t, name);
    assert h[m].value == t.value by {
      TreeOfKids(h, m);
    }
    var added;
    ghost var used;
    added, used := st.AddMember(m, name);
    FreshMemberIs(h, m, name, used, st.View(), added);
    FreshMemberTree(f, h, m, t, name, added);
    k := added;
    assert m in st.View() && k in st.View();
  }

  ghost predicate SameAt(h: Heap, g: Heap, x: Body) {
    x in h && x in g && g[x] == h[x]
  }

  lemma OtherKidKept(h: Heap, g: Heap, m: Body, c: Body, j: nat)
    requires Wf(h) && Wf(g) && LastKidIs(h, m, c) && j < |h[m].kids| - 1
    requires forall x {:trigger SameAt(h, g, x)} | x in h && Under(h, x, m) && !Under(h, x, c) :: SameAt(h, g, x)
    ensures h[m].kids[j] in h && h[m].kids[j] in g && TreeOf(g, h[m].kids[j]) == TreeOf(h, h[m].kids[j])
  {
    var ks := h[m].kids;
    var k := ks[j];
    assert Linked(h, m) && Apart(ks, j, |ks| - 1) && k in ks;
    KidUnder(h, k, m);
    forall x | x in h && Under(h, x, k)
      ensures x in g && g[x].(parent := null) == h[x].(parent := null)
    {
      UnderTrans(h, x, k, m);
      if Under(h, x, c) {
        KidsApart(h, x, m, k, c);
      }
      assert SameAt(h, g, x);
    }
    SameSubtree(h, g, k);
  }

  lemma OtherKidsKept(h: Heap, g: Heap, m: Body, c: Body)
    requires Wf(h) && Wf(g) && LastKidIs(h, m, c) && c in g && m in g && g[m] == h[m]
    requires forall x {:trigger SameAt(h, g, x)} | x in h && Under(h, x, m) && !Under(h, x, c) :: SameAt(h, g, x)
    requires forall k | k in h[m].kids :: k in h && k in g
    ensures KidTrees(g, h[m].kids) == KidTrees(h, h[m].kids)[|h[m].kids| - 1 := TreeOf(g, c)]
  {
    var ks := h[m].kids;
    forall j | 0 <= j < |ks| - 1
      ensures KidTrees(g, ks)[j] == KidTrees(h, ks)[j]
    {
      OtherKidKept(h, g, m, c, j);
    }
  }

  /** Changing what lies below the last child of m changes m's tree there and nowhere else. */
  lemma LastKidChanged(f: Heap, h: Heap, g: Heap, m: Body, t: Tree, c: Body)
    requires Detached(f, h, m, t) && LastKidIs(h, m, c) && Wf(g) && Extends(f, g)
    requires forall x {:trigger SameAt(h, g, x)} | x in h && Under(h, x, m) && !Under(h, x, c) :: SameAt(h, g, x)
    requires c in g && m in g && g[m] == h[m]
    ensures t.kids != [] && Detached(f, g, m, WithLast(t, TreeOf(g, c))) && LastKidIs(g, m, c)
  {
    TreeOfKids(h, m);
    TreeOfKids(g, m);
    OtherKidsKept(h, g, m, c);
  }

  /** Give a value to the childless last child. */
  lemma LastKidSet(f: Heap, h: Heap, m: Body, t: Tree, k: Body, v: Value)
    requires Detached(f, h, m, t) && LastKidIs(h, m, k) && h[k].kids == [] && TextOk(v)
    ensures SetValue(h, k, v) == h[k := h[k].(value := v, cursor := null)] && Wf(SetValue(h, k, v))
    ensures t.kids != [] && Detached(f, SetValue(h, k, v), m, WithLast(t, Leaf(h[k].name, v)))
    ensures LastKidIs(SetValue(h, k, v), m, k)
  {
    var g := SetValue(h, k, v);
    SetLeaf(h, k, v);
    SetValueWf(h, k, v);
    DepthOfKids(h, m);
    assert Linked(h, m) && k in h[m].kids && k !in f by {
      if k in f {
        NotUnderFresh(f, h, m, k);
        KidUnder(h, k, m);
      }
    }
    forall x | x in h && Under(h, x, m) && !Under(h, x, k)
      ensures SameAt(h, g, x)
    {
      assert Under(h, k, k);
    }
    LastKidChanged(f, h, g, m, t, k);
    TreeOfKids(g, k);
    assert g[k].kids == [] && KidTrees(g, g[k].kids) == [];
    assert TreeOf(g, k) == Leaf(h[k].name, v);
  }

  /** The typed setters on the field just made. */
  method SetField(st: Store, ghost f: Heap, m: Body, ghost t: Tree, k: Body, v: Value)
    requires st.Valid() && m in st.live && k in st.live && Detached(f, st.View(), m, t)
    requires LastKidIs(st.View(), m, k) && st.View()[k].kids == [] && TextOk(v)
    modifies st, st.live
    ensures st.Valid() && m in st.live && k in st.live && (forall b | b in st.live :: b in old(st.live) || fresh(b))
    ensures t.kids != [] && Detached(f, st.View(), m, WithLast(t, Leaf(t.kids[|t.kids| - 1].name, v)))
    ensures LastKidIs(st.View(), m, k)
  {
    ghost var h := st.View();
    LastKidSet(f, h, m, t, k, v);
    TreeOfKids(h, m);
    if v.Container() {
      st.MakeContainer(k, v);
    } else {
      st.Set(k, v);
    }
    assert m in st.View() && k in st.View();
  }

  /** addmember(name) followed by one of the typed setters. */
  method AddField(st: Store, ghost f: Heap, m: Body, ghost t: Tree, name: string, v: Value) returns (k: Body)
    requires st.Valid() && m in st.live && Detached(f, st.View(), m, t) && t.value.Struct?
    requires MemberName(name) && Unused(t, name) && TextOk(v)
    modifies st, st.live
    ensures st.Valid() && m in st.live && k in st.live && (forall b | b in st.live :: b in old(st.live) || fresh(b))
    ensures Detached(f, st.View(), m, t.(kids := t.kids + [Leaf(Some(name), v)])) && LastKidIs(st.View(), m, k)
  {
    k := NewField(st, f, m, t, name);
    ghost var u := t.(kids := t.kids + [Leaf(Some(name), Empty)]);
    SetField(st, f, m, u, k, v);
    assert WithLast(u, Leaf(Some(name), v)).kids == t.kids + [Leaf(Some(name), v)];
  }

  /** Adding a detached node to the last child of m. */
  lemma LastKidGrows(f: Heap, h: Heap, g: Heap, m: Body, t: Tree, c: Body, x: Body, k: Tree)
    requires Detached(f, h, m, t) && LastKidIs(h, m, c) && Detached(h, g, x, k)
    requires h[c].value.List? && h[c].cursor == null
    ensures c in g && AddOk(g, c, x) && Wf(Add(g, c, x)) && LastKidIs(Add(g, c, x), m, c)
    ensures t.kids != [] && c in h && TreeOf(h, c) == t.kids[|t.kids| - 1]
    ensures Detached(f, Add(g, c, x), m, WithLast(t, TreeOf(h, c).(kids := TreeOf(h, c).kids + [k])))
    ensures Add(g, c, x)[c].value.List? && Add(g, c, x)[c].cursor == null
  {
    TreeOfKids(h, m);
    assert Linked(h, m) && c in h[m].kids;
    KidUnder(h, c, m);
    NotUnderFresh(h, g, x, c);
    assert Adds(g, c, x);
    AddGrafts(g, c, x);
    ExtendsTree(h, g, c);
    var a := Add(g, c, x);
    DepthOfKids(h, m);
    forall y | y in h && !Under(h, y, c)
      ensures SameAt(h, a, y)
    {
      SameAncestry(g, h, y, c);
      AddOther(g, c, x, y);
    }
    forall y | y in f
      ensures y in a && a[y] == f[y]
    {
      NotUnderFresh(f, h, m, y);
      if Under(h, y, c) {
        UnderTrans(h, y, c, m);
      }
      assert SameAt(h, a, y);
    }
    NoCycle(h, m, c);
    LastKidChanged(f, h, a, m, t, c);
  }

  /** add on the last field of m, with a node that was just made. */
  method AddToLast(st: Store, ghost f: Heap, ghost h: Heap, m: Body, ghost t: Tree, c: Body, x: Body, ghost k: Tree)
    requires st.Valid() && m in st.live && c in st.live && x in st.live
    requires Detached(f, h, m, t) && LastKidIs(h, m, c) && Detached(h, st.View(), x, k)
    requires h[c].value.List? && h[c].cursor == null
    modifies st, st.live
    ensures st.Valid() && m in st.live && c in st.live && (forall b | b in st.live :: b in old(st.live) || fresh(b))
    ensures t.kids != [] && LastKidIs(st.View(), m, c)
    ensures var last := t.kids[|t.kids| - 1]; Detached(f, st.View(), m, WithLast(t, last.(kids := last.kids + [k])))
    ensures st.View()[c].value.List? && st.View()[c].cursor == null
  {
    LastKidGrows(f, h, st.View(), m, t, c, x, k);
    st.Add(c, x);
    assert m in st.View() && c in st.View();
  }

  /** A new detached node with a value that has no children. */
  method NewLeaf(st: Store, name: Option<string>, v: Value) returns (x: Body)
    requires st.Valid() && TextOk(v)
    modifies st, st.live
    ensures st.Valid() && x in st.live && (forall b | b in st.live :: b in old(st.live) || fresh(b))
    ensures Detached(old(st.View()), st.View(), x, Leaf(Stored(name), v))
  {
    ghost var f := st.View();
    x := st.New(name);
    TreeOfKids(st.View(), x);
    SetRead(st, f, x, v, Stored(name));
  }
}
