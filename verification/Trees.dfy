/** Trees as values: what a node and everything below it stand for. */
module Trees {
  import opened Basics
  import opened Forest
  import opened Paths
  import opened Ops
  import Numbers

  /** A DDF tree without node identities; the cursor is the index of a child. */
  datatype Tree = Tree(name: Option<string>, value: Value, kids: seq<Tree>, cursor: Option<nat>)

  ghost function CursorIndex(d: Node): Option<nat> {
    if d.cursor == null || d.cursor !in d.kids then None else Some(Index(d.kids, d.cursor))
  }

  ghost function TreeOf(f: Heap, n: Body): Tree
    requires Wf(f) && n in f
    decreases Room(f, n)
  {
    RoomOfKids(f, n);
    var d := f[n];
    Tree(d.name, d.value, seq(|d.kids|, i requires 0 <= i < |d.kids| => TreeOf(f, d.kids[i])), CursorIndex(d))
  }

  /** Two heaps that agree on a set closed under children build the same trees there. */
  lemma {:induction false} TreeFrame(f: Heap, g: Heap, s: set<Body>, n: Body)
    requires Wf(f) && Wf(g) && n in s && s <= f.Keys && s <= g.Keys
    requires forall x {:trigger f[x]} {:trigger g[x]} | x in s :: f[x].(parent := null) == g[x].(parent := null)
    requires forall x, k {:trigger k in f[x].kids} | x in s && k in f[x].kids :: k in s
    ensures TreeOf(f, n) == TreeOf(g, n)
    decreases Room(f, n)
  {
    RoomOfKids(f, n);
    RoomOfKids(g, n);
    var d := f[n];
    assert d.(parent := null) == g[n].(parent := null);
    assert d.kids == g[n].kids && CursorIndex(d) == CursorIndex(g[n]);
    forall i | 0 <= i < |d.kids|
      ensures TreeOf(f, d.kids[i]) == TreeOf(g, d.kids[i])
    {
      assert d.kids[i] in d.kids;
      TreeFrame(f, g, s, d.kids[i]);
    }
  }

  // ---- Path lookup on trees ----

  function FirstNamed(kids: seq<Tree>, name: string): (r: Option<Tree>)
    ensures r.Some? ==> r.value in kids && r.value.name == Some(name)
  {
    if kids == [] then None
    else if kids[0].name == Some(name) then Some(kids[0])
    else FirstNamed(kids[1..], name)
  }

  function TreeStep(t: Tree, name: string): Option<Tree>
    requires name != ""
  {
    if name[0] == '[' then
      var i := Numbers.Strtoul(name[1..]);
      if t.value.List? && i < |t.kids| then Some(t.kids[i])
      else if i == 0 then Some(t)
      else None
    else if t.value.Struct? then FirstNamed(t.kids, name)
    else None
  }

  /** Path lookup, by recursion on the path and the tree. */
  function TreeGet(t: Tree, path: string): Option<Tree>
    decreases |path|, t
  {
    var (name, rest) := Token(path);
    if name == "" then None
    else if Descends(t.value, name) then (if t.kids == [] then None else TreeGet(t.kids[0], path))
    else
      var here := TreeStep(t, name);
      if here.Some? && rest != "" then TreeGet(here.value, rest) else here
  }

  ghost function TreeAt(f: Heap, n: Body?): Option<Tree>
    requires Wf(f) && Handle(f, n)
  {
    if n == null then None else Some(TreeOf(f, n))
  }

  lemma {:induction false} MemberAgrees(f: Heap, s: seq<Body>, ts: seq<Tree>, name: string)
    requires Wf(f) && |ts| == |s|
    requires forall k | k in s :: k in f
    requires forall i | 0 <= i < |s| :: s[i] in f && ts[i] == TreeOf(f, s[i])
    ensures FirstNamed(ts, name) == TreeAt(f, MemberNamed(f, s, name))
  {
    if s != [] && f[s[0]].name != Some(name) {
      MemberAgrees(f, s[1..], ts[1..], name);
    }
  }

  lemma StepAgrees(f: Heap, n: Body, name: string)
    requires Wf(f) && n in f && name != ""
    ensures TreeStep(TreeOf(f, n), name) == TreeAt(f, Step(f, n, name))
  {
    RoomOfKids(f, n);
    assert forall i | 0 <= i < |f[n].kids| :: f[n].kids[i] in f[n].kids;
    if name[0] != '[' && f[n].value.Struct? {
      MemberAgrees(f, f[n].kids, TreeOf(f, n).kids, name);
    }
  }

  /** getmember on the heap finds the node whose tree the recursive lookup finds. */
  lemma {:induction false} GetAgrees(f: Heap, n: Body, path: string)
    requires Wf(f) && n in f
    ensures TreeGet(TreeOf(f, n), path) == TreeAt(f, PathGet(f, n, path))
    decreases |path|, Room(f, n)
  {
    var (name, rest) := Token(path);
    RoomOfKids(f, n);
    if name == "" {
    } else {
      if Descends(f[n].value, name) {
        if f[n].kids != [] {
          GetAgrees(f, f[n].kids[0], path);
        }
      } else {
        StepAgrees(f, n, name);
        var here := Step(f, n, name);
        if here != null && rest != "" {
          GetAgrees(f, here, rest);
        }
      }
    }
  }

  // ---- Deep copy ----

  /** g has all the nodes of f, unchanged. */
  ghost predicate Extends(f: Heap, g: Heap) {
    f.Keys <= g.Keys && forall x {:trigger g[x]} {:trigger f[x]} | x in f :: g[x] == f[x]
  }

  lemma ExtendsTree(f: Heap, g: Heap, n: Body)
    requires Wf(f) && Wf(g) && Extends(f, g) && n in f
    ensures TreeOf(g, n) == TreeOf(f, n)
  {
    forall x, k | x in f && k in f[x].kids
      ensures k in f
    {
      assert Linked(f, x);
    }
    TreeFrame(f, g, f.Keys, n);
  }

  /** m is a detached tree made of exactly the nodes that g has beyond f. */
  ghost predicate FreshTree(f: Heap, g: Heap, m: Body)
    requires Wf(g)
  {
    && Extends(f, g) && m in g && m !in f && g[m].parent == null
    && Subtree(g, m) == g.Keys - f.Keys
  }

  lemma FreshTreeIntro(f: Heap, g: Heap, m: Body)
    requires Wf(f) && Wf(g) && Extends(f, g) && m in g && m !in f && g[m].parent == null
    requires forall x | x in g && x !in f :: Under(g, x, m)
    ensures FreshTree(f, g, m)
  {
    forall x | x in f
      ensures !Under(g, x, m)
    {
      SameAncestry(g, f, x, m);
      if Under(f, x, m) {
        UnderKnown(f, x, m);
      }
    }
  }

  lemma ScalarTree(f: Heap, n: Body)
    requires Wf(f) && n in f && !f[n].value.Container()
    ensures TreeOf(f, n) == Tree(f[n].name, f[n].value, [], None) && NameOk(f[n].name) && TextOk(f[n].value)
  {
    assert Proper(f, n);
  }

  /** A new node that was given a value is a fresh tree without children. */
  lemma FreshLeaf(f: Heap, m: Body, name: Option<string>, v: Value)
    requires Wf(f) && m !in f && NameOk(name) && TextOk(v)
    ensures Wf(Create(f, m, name))
    ensures var g := SetValue(Create(f, m, name), m, v);
            && g == f[m := Node(name, v, null, [], null)] && Wf(g)
            && FreshTree(f, g, m) && TreeOf(g, m) == Tree(name, v, [], None)
  {
    var h := Create(f, m, name);
    CreateWf(f, m, name);
    SetLeaf(h, m, v);
    SetValueWf(h, m, v);
    var g := SetValue(h, m, v);
    assert g == f[m := Node(name, v, null, [], null)];
    FreshTreeIntro(f, g, m);
  }

  lemma {:induction false} AttachUnder(f: Heap, p: Body, i: nat, c: Body, x: Body, top: Body)
    requires Wf(f) && p in f && c in f && p != c && i <= |f[p].kids| && f[c].parent == null
    requires Wf(Attach(f, p, i, c)) && x in f && Under(f, x, top)
    ensures Under(Attach(f, p, i, c), x, top)
    decreases Depth(f, x)
  {
    DepthOfKid(f, x);
    if x != top {
      AttachUnder(f, p, i, c, f[x].parent, top);
    }
  }

  ghost predicate CopiedAt(f: Heap, n: Body, h: Heap, c: Body, j: nat)
    requires Wf(f) && Wf(h) && n in f && c in h && j < |f[n].kids| && j < |h[c].kids|
  {
    && h[c].kids[j] in h && f[n].kids[j] in f
    && TreeOf(h, h[c].kids[j]) == TreeOf(f, f[n].kids[j])
  }

  ghost function CopiedCursor(d: Node, e: Node, i: nat): Body? {
    if d.cursor != null && d.cursor in d.kids && Index(d.kids, d.cursor) < i && i <= |e.kids|
    then e.kids[Index(d.kids, d.cursor)] else null
  }

  /** How far DDF::copy has got when i of the children of n have been copied below c. */
  ghost predicate Copying(f: Heap, n: Body, h: Heap, c: Body, i: nat) {
    && Wf(f) && Wf(h) && FreshTree(f, h, c) && n in f && i <= |f[n].kids| && f[n].value.Container()
    && h[c].name == f[n].name && h[c].value == f[n].value && |h[c].kids| == i
    && (forall j {:trigger CopiedAt(f, n, h, c, j)} | 0 <= j < i :: CopiedAt(f, n, h, c, j))
    && h[c].cursor == CopiedCursor(f[n], h[c], i)
  }

  /** Adding the copy of the next child replaces nothing and appends it. */
  lemma CopyAddOk(f: Heap, n: Body, h: Heap, c: Body, i: nat, h2: Heap, t: Body)
    requires Copying(f, n, h, c, i) && i < |f[n].kids| && f[n].kids[i] in f
    requires Wf(h2) && FreshTree(h, h2, t) && TreeOf(h2, t) == TreeOf(f, f[n].kids[i])
    ensures AddOk(h2, c, t) && Adds(h2, c, t) && Replaced(h2, c, t) == null
    ensures Add(h2, c, t) == Attach(h2, c, i, t)
  {
    var k := f[n].kids[i];
    SameAncestry(h2, h, c, t);
    if Under(h, c, t) {
      UnderKnown(h, c, t);
    }
    assert Linked(h2, c) && Linked(f, n) && Proper(f, n) && Proper(f, k);
    assert h2[t].name == f[k].name;
    if h2[c].value.Struct? {
      assert k in f[n].kids && Named(f, k) && Named(h2, t);
      PlainName(h2, c, h2[t].name.value);
      forall x | x in h2[c].kids
        ensures h2[x].name != h2[t].name
      {
        var j := Index(h2[c].kids, x);
        assert CopiedAt(f, n, h, c, j) && Apart(f[n].kids, j, i);
        assert f[n].kids[j] in f[n].kids;
      }
    }
  }

  /** Changing a root node changes no tree but its own. */
  lemma OtherTrees(f: Heap, g: Heap, c: Body, x: Body)
    requires Wf(f) && Wf(g) && g.Keys == f.Keys && c in f && f[c].parent == null && x in f && x != c
    requires forall y {:trigger f[y]} {:trigger g[y]} | y in f && y != c ::
        f[y].(parent := null) == g[y].(parent := null)
    ensures TreeOf(g, x) == TreeOf(f, x)
  {
    var s := f.Keys - {c};
    forall y, k | y in s && k in f[y].kids
      ensures k in s
    {
      assert Linked(f, y);
    }
    TreeFrame(f, g, s, x);
  }

  lemma CopyKept(f: Heap, n: Body, h: Heap, c: Body, i: nat, h2: Heap, t: Body, h3: Heap, j: nat)
    requires Copying(f, n, h, c, i) && j < i && Wf(h2) && Wf(h3) && FreshTree(h, h2, t) && t != c
    requires h3 == Attach(h2, c, i, t)
    ensures j < |h3[c].kids| && CopiedAt(f, n, h3, c, j)
  {
    assert CopiedAt(f, n, h, c, j) && Linked(h, c) && h[c].kids[j] in h[c].kids;
    ExtendsTree(h, h2, h[c].kids[j]);
    OtherTrees(h2, h3, c, h[c].kids[j]);
  }

  lemma FreshUnder(f: Heap, h: Heap, c: Body, h2: Heap, t: Body, i: nat, x: Body)
    requires Wf(f) && Wf(h) && Wf(h2) && FreshTree(f, h, c) && FreshTree(h, h2, t)
    requires t != c && i <= |h2[c].kids| && Wf(Attach(h2, c, i, t)) && x in h2 && x !in f
    ensures Under(Attach(h2, c, i, t), x, c)
  {
    var h3 := Attach(h2, c, i, t);
    if x in h {
      assert x in Subtree(h, c);
      SameAncestry(h2, h, x, c);
      AttachUnder(h2, c, i, t, x, c);
    } else {
      assert x in Subtree(h2, t);
      AttachUnder(h2, c, i, t, x, t);
      assert Under(h3, c, c) && Under(h3, t, c);
      UnderTrans(h3, x, t, c);
    }
  }

  lemma CopyAttached(f: Heap, n: Body, h: Heap, c: Body, i: nat, h2: Heap, t: Body, h3: Heap)
    requires Copying(f, n, h, c, i) && i < |f[n].kids| && f[n].kids[i] in f
    requires Wf(h2) && FreshTree(h, h2, t) && TreeOf(h2, t) == TreeOf(f, f[n].kids[i])
    requires t != c && h3 == Attach(h2, c, i, t) && Wf(h3)
    ensures h3[c].kids == h[c].kids + [t]
    ensures FreshTree(f, h3, c)
    ensures forall j {:trigger CopiedAt(f, n, h3, c, j)} | 0 <= j <= i :: CopiedAt(f, n, h3, c, j)
  {
    forall x | x in h3 && x !in f
      ensures Under(h3, x, c)
    {
      FreshUnder(f, h, c, h2, t, i, x);
    }
    FreshTreeIntro(f, h3, c);
    forall j | 0 <= j <= i
      ensures CopiedAt(f, n, h3, c, j)
    {
      if j < i {
        CopyKept(f, n, h, c, i, h2, t, h3, j);
      } else {
        OtherTrees(h2, h3, c, t);
      }
    }
  }

  lemma CopyCursor(f: Heap, n: Body, h3: Heap, c: Body, i: nat, t: Body)
    requires Wf(f) && Wf(h3) && n in f && FreshTree(f, h3, c) && i < |f[n].kids| && f[n].kids[i] in f
    requires |h3[c].kids| == i + 1 && h3[c].kids[i] == t
    requires forall j | 0 <= j <= i :: CopiedAt(f, n, h3, c, j)
    ensures var g := SetCursor(h3, c, t);
            Wf(g) && FreshTree(f, g, c) && forall j | 0 <= j <= i :: CopiedAt(f, n, g, c, j)
  {
    var g := SetCursor(h3, c, t);
    assert t in h3[c].kids;
    SetCursorWf(h3, c, t);
    forall x | x in g && x !in f
      ensures Under(g, x, c)
    {
      assert x in Subtree(h3, c);
      SameAncestry(h3, g, x, c);
    }
    FreshTreeIntro(f, g, c);
    forall j | 0 <= j <= i
      ensures CopiedAt(f, n, g, c, j)
    {
      assert CopiedAt(f, n, h3, c, j) && Linked(h3, c) && h3[c].kids[j] in h3[c].kids;
      DepthOfKids(h3, c);
      OtherTrees(h3, g, c, h3[c].kids[j]);
    }
  }

  /** One round of the loop in DDF::copy. */
  lemma CopyStep(f: Heap, n: Body, h: Heap, c: Body, i: nat, h2: Heap, t: Body)
    requires Copying(f, n, h, c, i) && i < |f[n].kids| && f[n].kids[i] in f
    requires Wf(h2) && FreshTree(h, h2, t) && TreeOf(h2, t) == TreeOf(f, f[n].kids[i])
    requires AddOk(h2, c, t)
    ensures var h3 := Add(h2, c, t);
            && c in h3 && |h3[c].kids| == i + 1 && h3[c].kids[i] == t && h3[c].value == f[n].value
            && Copying(f, n, if f[n].cursor == f[n].kids[i] then SetCursor(h3, c, t) else h3, c, i + 1)
  {
    var h3 := Add(h2, c, t);
    CopyAddOk(f, n, h, c, i, h2, t);
    AddWf(h2, c, t);
    CopyAttached(f, n, h, c, i, h2, t, h3);
    assert h3[c].cursor == h[c].cursor;
    assert Linked(f, n) && Proper(f, n);
    OnlyAt(f[n].kids, i);
    if f[n].cursor == f[n].kids[i] {
      CopyCursor(f, n, h3, c, i, t);
    }
  }

  /** When all children are copied, so is the tree. */
  lemma CopyDone(f: Heap, n: Body, h: Heap, c: Body)
    requires n in f && Copying(f, n, h, c, |f[n].kids|)
    ensures TreeOf(h, c) == TreeOf(f, n)
  {
    RoomOfKids(f, n);
    RoomOfKids(h, c);
    assert Linked(f, n) && Proper(f, n) && Linked(h, c);
    forall j | 0 <= j < |f[n].kids|
      ensures TreeOf(h, h[c].kids[j]) == TreeOf(f, f[n].kids[j])
    {
      assert CopiedAt(f, n, h, c, j);
    }
    if f[n].cursor != null {
      OnlyAt(h[c].kids, Index(f[n].kids, f[n].cursor));
    }
  }
}
