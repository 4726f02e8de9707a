/**
 * The heap of DDF nodes, as a value.
 *
 * A Heap maps every live node to its name, its value, its parent, the sequence of its
 * children and the iteration cursor. The pointer fields next, prev, first, last and count
 * of a Body are not part of a Heap: class Store in Ddf.dfy ties them to the child sequence.
 */
module Forest {
  import opened Basics

  const MAX_NAME_LEN: nat := 255

  /** The range of the C type long on an LP64 platform. */
  const LONG_MIN := -0x8000_0000_0000_0000
  const LONG_MAX := 0x7FFF_FFFF_FFFF_FFFF
  type Long = n: int | LONG_MIN <= n <= LONG_MAX

  /** The type tag of a node together with the scalar members of its union. */
  datatype Value =
    | Empty
    | Str(text: Option<string>, safe: bool)
    | Int(n: Long)
    | Pointer(addr: nat)
    | Struct
    | List
  {
    predicate Container() { Struct? || List? }
  }

  /** A heap node with its C++ fields; kids is the sequence its links are meant to spell. */
  class Body {
    var name: Option<string>
    var value: Value
    var parent: Body?
    var next: Body?
    var prev: Body?
    var first: Body?
    var last: Body?
    var current: Body?
    var count: nat
    ghost var kids: seq<Body>

    constructor ()
      ensures name == None && value == Empty
      ensures parent == null && next == null && prev == null
      ensures kids == []
    {
      name, value := None, Empty;
      parent, next, prev := null, null, null;
      first, last, current, count := null, null, null, 0;
      kids := [];
    }
  }

  datatype Node = Node(name: Option<string>, value: Value, parent: Body?, kids: seq<Body>, cursor: Body?)

  type Heap = map<Body, Node>

  // ---- Well-formedness ----

  /** What DDF::name can leave in the name field. */
  predicate NameOk(name: Option<string>) {
    name.Some? ==> 0 < |name.value| <= MAX_NAME_LEN
  }

  /** A name that path syntax resolves to itself. */
  predicate MemberName(s: string) {
    0 < |s| <= MAX_NAME_LEN && s[0] != '[' && '.' !in s
  }

  /** Strings are stored by ddf_strdup, which keeps no empty string. */
  predicate TextOk(v: Value) {
    v.Str? && v.text.Some? ==> v.text.value != ""
  }

  ghost predicate Named(f: Heap, k: Body) {
    k in f && f[k].name.Some? && MemberName(f[k].name.value)
  }

  /** Parent pointers agree with the child sequences around node n. */
  ghost predicate Linked(f: Heap, n: Body)
    requires n in f
  {
    var d := f[n];
    && (d.parent != null ==> d.parent in f && n in f[d.parent].kids)
    && (forall k {:trigger k in d.kids} | k in d.kids :: k in f && f[k].parent == n)
    && NoDup(d.kids)
  }

  /** The node-local conditions that do not mention parents. */
  ghost predicate Proper(f: Heap, n: Body)
    requires n in f
  {
    var d := f[n];
    && (d.cursor != null ==> d.cursor in d.kids)
    && (!d.value.Container() ==> d.kids == [])
    && NameOk(d.name) && TextOk(d.value)
    && (d.value.Struct? ==>
          && (forall k {:trigger k in d.kids} | k in d.kids :: Named(f, k))
          && (forall j, k {:trigger j in d.kids, k in d.kids} | j in d.kids && k in d.kids && j != k ::
              f[j].name != f[k].name))
  }

  /** Node n is exactly k parent steps away from its root. */
  ghost predicate AtDepth(f: Heap, n: Body, k: nat) {
    && n in f
    && (f[n].parent == null <==> k == 0)
    && (k > 0 ==> AtDepth(f, f[n].parent, k - 1))
  }

  ghost predicate Rooted(f: Heap, n: Body) {
    exists k: nat :: AtDepth(f, n, k)
  }

  ghost predicate Wf(f: Heap) {
    && (forall n {:trigger Linked(f, n)} | n in f :: Linked(f, n))
    && (forall n {:trigger Proper(f, n)} | n in f :: Proper(f, n))
    && (forall n {:trigger Rooted(f, n)} | n in f :: Rooted(f, n))
  }

  // ---- Depth and ancestry ----

  lemma {:induction false} DepthUnique(f: Heap, n: Body, j: nat, k: nat)
    requires AtDepth(f, n, j) && AtDepth(f, n, k)
    ensures j == k
  {
    if j > 0 && k > 0 {
      DepthUnique(f, f[n].parent, j - 1, k - 1);
    }
  }

  ghost function Depth(f: Heap, n: Body): (k: nat)
    requires Rooted(f, n)
    ensures AtDepth(f, n, k)
  {
    var k: nat :| AtDepth(f, n, k);
    k
  }

  lemma DepthOfKid(f: Heap, n: Body)
    requires Wf(f) && n in f
    ensures f[n].parent != null ==> f[n].parent in f && Depth(f, n) == Depth(f, f[n].parent) + 1
  {
    assert Linked(f, n);
    if f[n].parent != null {
      assert Rooted(f, n) && Rooted(f, f[n].parent);
      var k := Depth(f, n);
      DepthUnique(f, f[n].parent, k - 1, Depth(f, f[n].parent));
    }
  }

  lemma DepthOfKids(f: Heap, n: Body)
    requires Wf(f) && n in f
    ensures forall k | k in f[n].kids :: k in f && f[k].parent == n && Depth(f, k) == Depth(f, n) + 1
  {
    assert Linked(f, n);
    forall k | k in f[n].kids
      ensures k in f && Depth(f, k) == Depth(f, n) + 1
    {
      DepthOfKid(f, k);
    }
  }

  /** The nodes from n up to its root. */
  ghost function Chain(f: Heap, n: Body): (s: seq<Body>)
    requires Wf(f) && n in f
    ensures |s| == Depth(f, n) + 1
    ensures forall x | x in s :: x in f && Depth(f, x) <= Depth(f, n)
    ensures NoDup(s)
    decreases Depth(f, n)
  {
    DepthOfKid(f, n);
    if f[n].parent == null then [n] else
      NoDupCons(n, Chain(f, f[n].parent));
      [n] + Chain(f, f[n].parent)
  }

  /** No node is deeper than there are nodes: the bound on every downward walk. */
  lemma DepthBounded(f: Heap, n: Body)
    requires Wf(f) && n in f
    ensures Depth(f, n) < |f|
  {
    NoDupFits(Chain(f, n), f.Keys);
    assert |f.Keys| == |f|;
  }

  ghost function Room(f: Heap, n: Body): (r: nat)
    requires Wf(f) && n in f
  {
    DepthBounded(f, n);
    |f| - Depth(f, n)
  }

  lemma RoomOfKids(f: Heap, n: Body)
    requires Wf(f) && n in f
    ensures forall k | k in f[n].kids :: k in f && f[k].parent == n && Room(f, k) < Room(f, n)
  {
    DepthOfKids(f, n);
  }

  /** x is top or lies below it. */
  ghost predicate Under(f: Heap, x: Body, top: Body)
    requires Wf(f) && x in f
    decreases Depth(f, x)
  {
    DepthOfKid(f, x);
    x == top || (f[x].parent != null && Under(f, f[x].parent, top))
  }

  ghost function Subtree(f: Heap, n: Body): (s: set<Body>)
    requires Wf(f)
  {
    set x | x in f && Under(f, x, n)
  }

  lemma {:induction false} UnderDepth(f: Heap, x: Body, top: Body)
    requires Wf(f) && x in f && top in f && Under(f, x, top)
    ensures Depth(f, top) <= Depth(f, x)
    ensures x != top ==> Depth(f, top) < Depth(f, x)
    decreases Depth(f, x)
  {
    DepthOfKid(f, x);
    if x != top {
      UnderDepth(f, f[x].parent, top);
    }
  }

  /** A node other than top lies below top exactly when it lies at or below one child of top. */
  lemma {:induction false} UnderSomeKid(f: Heap, x: Body, top: Body)
    requires Wf(f) && x in f && top in f
    ensures (Under(f, x, top) && x != top) <==> exists k | k in f[top].kids :: Under(f, x, k)
    decreases Depth(f, x)
  {
    DepthOfKid(f, x);
    DepthOfKids(f, top);
    assert Linked(f, x);
    if x != top && Under(f, x, top) {
      var p := f[x].parent;
      if p == top {
        assert x in f[top].kids && Under(f, x, x);
      } else {
        UnderSomeKid(f, p, top);
      }
    }
    if k :| k in f[top].kids && Under(f, x, k) {
      UnderDepth(f, x, k);
      if x == k {
        assert Under(f, top, top);
      } else {
        UnderSomeKid(f, f[x].parent, top);
      }
    }
  }

  /** Subtrees of two different children have no node in common. */
  lemma {:induction false} KidsApart(f: Heap, x: Body, top: Body, j: Body, k: Body)
    requires Wf(f) && x in f && top in f
    requires j in f[top].kids && k in f[top].kids
    requires Under(f, x, j) && Under(f, x, k)
    ensures j == k
    decreases Depth(f, x)
  {
    DepthOfKids(f, top);
    DepthOfKid(f, x);
    if x == j {
      UnderDepth(f, x, k);
    } else if x == k {
      UnderDepth(f, x, j);
    } else {
      KidsApart(f, f[x].parent, top, j, k);
    }
  }

  /** Ancestry depends on the parent pointers alone. */
  lemma {:induction false} SameAncestry(f: Heap, g: Heap, x: Body, top: Body)
    requires Wf(f) && Wf(g) && g.Keys <= f.Keys
    requires forall y | y in g :: g[y].parent == f[y].parent
    requires x in g
    ensures Under(g, x, top) == Under(f, x, top)
    decreases Depth(g, x)
  {
    DepthOfKid(g, x);
    assert Linked(g, x);
    if x != top && g[x].parent != null {
      SameAncestry(f, g, g[x].parent, top);
    }
  }

  // ---- Operations ----

  /** A node allocated by one of the DDF constructors, before it is attached anywhere. */
  ghost function Create(f: Heap, n: Body, name: Option<string>): Heap {
    f[n := Node(name, Empty, null, [], null)]
  }

  /** Where the cursor goes when the child at position i is taken out. */
  ghost function CursorWithout(d: Node, i: nat): Body?
    requires i < |d.kids|
  {
    if d.cursor != d.kids[i] then d.cursor else if i == 0 then null else d.kids[i - 1]
  }

  /** DDF::remove: take n out of its parent's child list. */
  ghost function Detach(f: Heap, n: Body): Heap
    requires Wf(f) && n in f
  {
    if f[n].parent == null then f else
      assert Linked(f, n);
      var p := f[n].parent;
      var i := Index(f[p].kids, n);
      f[p := f[p].(kids := Without(f[p].kids, i), cursor := CursorWithout(f[p], i))][n := f[n].(parent := null)]
  }

  /** Put the detached node c at position i among the children of p. */
  ghost function Attach(f: Heap, p: Body, i: nat, c: Body): Heap
    requires p in f && c in f && p != c && i <= |f[p].kids|
  {
    f[p := f[p].(kids := InsertAt(f[p].kids, i, c))][c := f[c].(parent := p)]
  }

  /** DDF::empty: free everything below n and leave n itself empty. */
  ghost function Hollow(f: Heap, n: Body): Heap
    requires Wf(f) && n in f
  {
    (f - (Subtree(f, n) - {n}))[n := f[n].(value := Empty, kids := [], cursor := null)]
  }

  lemma {:induction false} DetachRooted(f: Heap, n: Body, x: Body, k: nat)
    requires Wf(f) && n in f && AtDepth(f, x, k)
    ensures Rooted(Detach(f, n), x)
  {
    var g := Detach(f, n);
    if x == n || k == 0 {
      assert AtDepth(g, x, 0);
    } else {
      DetachRooted(f, n, f[x].parent, k - 1);
      assert AtDepth(g, x, Depth(g, f[x].parent) + 1);
    }
  }

  lemma DetachLinked(f: Heap, n: Body, x: Body)
    requires Wf(f) && n in f && x in f && f[n].parent != null
    ensures Linked(Detach(f, n), x)
  {
    var p := f[n].parent;
    assert Linked(f, n) && Linked(f, p) && Linked(f, x);
    DepthOfKid(f, n);
    WithoutElements(f[p].kids, Index(f[p].kids, n));
  }

  lemma DetachProper(f: Heap, n: Body, x: Body)
    requires Wf(f) && n in f && x in f && f[n].parent != null
    ensures Proper(Detach(f, n), x)
  {
    var g, p := Detach(f, n), f[n].parent;
    assert Linked(f, n) && Linked(f, p) && Linked(f, x) && Proper(f, x);
    DepthOfKid(f, n);
    var i := Index(f[p].kids, n);
    WithoutElements(f[p].kids, i);
    assert i > 0 ==> f[p].kids[i - 1] in Without(f[p].kids, i);
    assert forall y | y in f :: g[y].name == f[y].name && g[y].value == f[y].value;
    assert forall k | k in g[x].kids :: k in f[x].kids;
    if f[x].value.Struct? {
      forall k | k in g[x].kids
        ensures Named(g, k)
      {
        assert Named(f, k);
      }
    }
  }

  lemma DetachWf(f: Heap, n: Body)
    requires Wf(f) && n in f
    ensures Wf(Detach(f, n))
    ensures Detach(f, n).Keys == f.Keys
  {
    if f[n].parent != null {
      assert Linked(f, n);
      forall x | x in f
        ensures Linked(Detach(f, n), x) && Proper(Detach(f, n), x) && Rooted(Detach(f, n), x)
      {
        DetachLinked(f, n, x);
        DetachProper(f, n, x);
        DetachRooted(f, n, x, Depth(f, x));
      }
    }
  }

  /** DDF::destroy: take n out of its parent and free the whole subtree. */
  ghost function Destroy(f: Heap, n: Body): Heap
    requires Wf(f) && n in f
  {
    DetachWf(f, n);
    Detach(f, n) - Subtree(f, n)
  }

  /** The typed setters string, integer, pointer, structure and list: empty the node, then retag it. */
  ghost function SetValue(f: Heap, n: Body, v: Value): Heap
    requires Wf(f) && n in f
  {
    var g := Hollow(f, n);
    g[n := g[n].(value := v)]
  }

  ghost function SetCursor(f: Heap, n: Body, c: Body?): Heap
    requires n in f
  {
    f[n := f[n].(cursor := c)]
  }

  // ---- Every operation keeps the heap well formed ----

  /** Adding nodes and changing no parent changes no depth. */
  lemma {:induction false} DepthPreserved(f: Heap, g: Heap, x: Body, k: nat)
    requires AtDepth(f, x, k) && f.Keys <= g.Keys
    requires forall y | y in f :: g[y].parent == f[y].parent
    ensures AtDepth(g, x, k)
  {
    if k == 0 {
    } else {
      DepthPreserved(f, g, f[x].parent, k - 1);
    }
  }

  lemma CreateWf(f: Heap, n: Body, name: Option<string>)
    requires Wf(f) && n !in f && NameOk(name)
    ensures Wf(Create(f, n, name))
  {
    var g := Create(f, n, name);
    forall x | x in g
      ensures Linked(g, x) && Proper(g, x) && Rooted(g, x)
    {
      if x == n {
        assert AtDepth(g, n, 0);
      } else {
        assert Linked(f, x) && Proper(f, x);
        DepthPreserved(f, g, x, Depth(f, x));
      }
    }
  }

  lemma {:induction false} AttachAbove(f: Heap, p: Body, i: nat, c: Body, x: Body)
    requires Wf(f) && p in f && c in f && p != c && i <= |f[p].kids| && f[c].parent == null
    requires x in f && !Under(f, x, c)
    ensures AtDepth(Attach(f, p, i, c), x, Depth(f, x))
    decreases Depth(f, x)
  {
    DepthOfKid(f, x);
    if f[x].parent != null {
      AttachAbove(f, p, i, c, f[x].parent);
    }
  }

  lemma {:induction false} AttachRooted(f: Heap, p: Body, i: nat, c: Body, x: Body, k: nat)
    requires Wf(f) && p in f && c in f && p != c && i <= |f[p].kids| && f[c].parent == null
    requires !Under(f, p, c) && AtDepth(f, x, k)
    ensures Rooted(Attach(f, p, i, c), x)
  {
    var g := Attach(f, p, i, c);
    if x == c {
      AttachAbove(f, p, i, c, p);
      assert AtDepth(g, c, Depth(f, p) + 1);
    } else if k == 0 {
      assert AtDepth(g, x, 0);
    } else {
      AttachRooted(f, p, i, c, f[x].parent, k - 1);
      assert AtDepth(g, x, Depth(g, f[x].parent) + 1);
    }
  }

  /** A struct accepts a child whose name is a member name not yet in use. */
  ghost predicate Fits(f: Heap, p: Body, c: Body)
    requires p in f && c in f
  {
    && f[p].value.Container()
    && (f[p].value.Struct? ==>
          Named(f, c) && forall k | k in f[p].kids :: k in f && f[k].name != f[c].name)
  }

  lemma AttachLinked(f: Heap, p: Body, i: nat, c: Body, x: Body)
    requires Wf(f) && p in f && c in f && p != c && i <= |f[p].kids| && f[c].parent == null && x in f
    ensures Linked(Attach(f, p, i, c), x)
  {
    assert Linked(f, p) && Linked(f, x);
    InsertElements(f[p].kids, i, c);
  }

  lemma AttachProper(f: Heap, p: Body, i: nat, c: Body, x: Body)
    requires Wf(f) && p in f && c in f && p != c && i <= |f[p].kids| && f[c].parent == null && x in f
    requires Fits(f, p, c)
    ensures Proper(Attach(f, p, i, c), x)
  {
    var g := Attach(f, p, i, c);
    assert Linked(f, p) && Linked(f, x) && Proper(f, x);
    InsertElements(f[p].kids, i, c);
    assert forall y | y in f :: g[y].name == f[y].name && g[y].value == f[y].value;
    if f[x].value.Struct? {
      forall k | k in g[x].kids
        ensures Named(g, k)
      {
        assert Named(f, k);
      }
    }
  }

  lemma AttachWf(f: Heap, p: Body, i: nat, c: Body)
    requires Wf(f) && p in f && c in f && p != c && i <= |f[p].kids| && f[c].parent == null
    requires Fits(f, p, c) && !Under(f, p, c)
    ensures Wf(Attach(f, p, i, c))
    ensures Attach(f, p, i, c).Keys == f.Keys
  {
    forall x | x in f
      ensures Linked(Attach(f, p, i, c), x) && Proper(Attach(f, p, i, c), x) && Rooted(Attach(f, p, i, c), x)
    {
      AttachLinked(f, p, i, c, x);
      AttachProper(f, p, i, c, x);
      AttachRooted(f, p, i, c, x, Depth(f, x));
    }
  }

  // ---- Removing a set of nodes ----

  lemma {:induction false} HollowRooted(f: Heap, n: Body, x: Body, k: nat)
    requires Wf(f) && n in f && AtDepth(f, x, k) && (x == n || !Under(f, x, n))
    ensures AtDepth(Hollow(f, n), x, k)
  {
    DepthOfKid(f, x);
    if k == 0 {
    } else {
      if x == n && Under(f, f[n].parent, n) {
        UnderDepth(f, f[n].parent, n);
      }
      HollowRooted(f, n, f[x].parent, k - 1);
    }
  }

  lemma HollowWf(f: Heap, n: Body)
    requires Wf(f) && n in f
    ensures Wf(Hollow(f, n))
  {
    var g := Hollow(f, n);
    forall x | x in g
      ensures Linked(g, x) && Proper(g, x) && Rooted(g, x)
    {
      assert Linked(f, x) && Proper(f, x);
      DepthOfKid(f, x);
      HollowRooted(f, n, x, Depth(f, x));
      forall k | k in g[x].kids
        ensures k in g && f[k].parent == x
      {
        DepthOfKid(f, k);
      }
      if x == n && f[n].parent != null && Under(f, f[n].parent, n) {
        UnderDepth(f, f[n].parent, n);
      }
    }
  }

  lemma RetagProper(f: Heap, n: Body, v: Value, x: Body)
    requires Wf(f) && n in f && x in f && f[n].kids == [] && TextOk(v)
    ensures Proper(f[n := f[n].(value := v)], x)
  {
    var g := f[n := f[n].(value := v)];
    assert Linked(f, x) && Proper(f, x) && Proper(f, n) && Linked(f, n);
    if f[x].value.Struct? && x != n {
      forall k | k in g[x].kids
        ensures Named(g, k)
      {
        assert Named(f, k);
      }
    }
  }

  /** A childless node may take any value. */
  lemma RetagWf(f: Heap, n: Body, v: Value)
    requires Wf(f) && n in f && f[n].kids == [] && TextOk(v)
    ensures Wf(f[n := f[n].(value := v)])
  {
    var g := f[n := f[n].(value := v)];
    forall x | x in g
      ensures Linked(g, x) && Proper(g, x) && Rooted(g, x)
    {
      assert Linked(f, x);
      RetagProper(f, n, v, x);
      DepthPreserved(f, g, x, Depth(f, x));
    }
  }

  lemma SetValueWf(f: Heap, n: Body, v: Value)
    requires Wf(f) && n in f && TextOk(v)
    ensures Wf(SetValue(f, n, v))
  {
    HollowWf(f, n);
    RetagWf(Hollow(f, n), n, v);
  }

  lemma SetCursorWf(f: Heap, n: Body, c: Body?)
    requires Wf(f) && n in f && (c != null ==> c in f[n].kids)
    ensures Wf(SetCursor(f, n, c))
  {
    var g := SetCursor(f, n, c);
    forall x | x in g
      ensures Linked(g, x) && Proper(g, x) && Rooted(g, x)
    {
      assert Linked(f, x) && Proper(f, x);
      DepthPreserved(f, g, x, Depth(f, x));
    }
  }

  /** The nodes below n are still exactly the nodes below n once it is detached. */
  lemma {:induction false} DetachSubtree(f: Heap, n: Body, x: Body)
    requires Wf(f) && n in f && x in f
    requires Wf(Detach(f, n))
    ensures Under(Detach(f, n), x, n) == Under(f, x, n)
    decreases Depth(f, x)
  {
    var g := Detach(f, n);
    DepthOfKid(f, x);
    DepthOfKid(g, x);
    if x != n && f[x].parent != null {
      DetachSubtree(f, n, f[x].parent);
    }
  }

  lemma {:induction false} DropRooted(f: Heap, n: Body, x: Body, k: nat)
    requires Wf(f) && n in f && f[n].parent == null
    requires AtDepth(f, x, k) && !Under(f, x, n)
    ensures AtDepth(f - Subtree(f, n), x, k)
  {
    DepthOfKid(f, x);
    if k == 0 {
    } else {
      DropRooted(f, n, f[x].parent, k - 1);
    }
  }

  /** Freeing the whole tree under a root keeps the rest well formed. */
  lemma DropWf(f: Heap, n: Body)
    requires Wf(f) && n in f && f[n].parent == null
    ensures Wf(f - Subtree(f, n))
  {
    var g := f - Subtree(f, n);
    forall x | x in g
      ensures Linked(g, x) && Proper(g, x) && Rooted(g, x)
    {
      assert Linked(f, x) && Proper(f, x);
      DepthOfKid(f, x);
      DropRooted(f, n, x, Depth(f, x));
      forall k | k in g[x].kids
        ensures k in g && f[k].parent == x
      {
        DepthOfKid(f, k);
      }
    }
  }

  lemma DestroyWf(f: Heap, n: Body)
    requires Wf(f) && n in f
    ensures Wf(Destroy(f, n))
  {
    var g := Detach(f, n);
    DetachWf(f, n);
    forall x | x in f
      ensures Under(g, x, n) == Under(f, x, n)
    {
      DetachSubtree(f, n, x);
    }
    assert Subtree(g, n) == Subtree(f, n);
    DropWf(g, n);
  }

  /** What DDF::name stores for a given C string. */
  function Stored(name: Option<string>): (r: Option<string>)
    ensures NameOk(r)
    ensures NameOk(name) ==> r == name
    ensures r.Some? ==> name.Some? && r.value <= name.value && (r == name || |r.value| == MAX_NAME_LEN)
    ensures r.None? ==> name.None? || name.value == ""
  {
    match name
    case None => None
    case Some(s) => if s == "" then None else if |s| <= MAX_NAME_LEN then name else Some(s[..MAX_NAME_LEN])
  }

  /** DDF::name on a node. */
  ghost function Rename(f: Heap, n: Body, name: Option<string>): Heap
    requires n in f
  {
    f[n := f[n].(name := Stored(name))]
  }

  /** A member of a struct may take a plain name that no other member has; any other node may take any name. */
  ghost predicate RenameOk(f: Heap, n: Body, name: Option<string>)
    requires n in f
  {
    f[n].parent != null ==>
      && f[n].parent in f
      && (f[f[n].parent].value.Struct? ==>
            && Stored(name).Some? && MemberName(Stored(name).value)
            && forall k | k in f[f[n].parent].kids && k in f && k != n :: f[k].name != Stored(name))
  }

  lemma RenameProper(f: Heap, n: Body, name: Option<string>, x: Body)
    requires Wf(f) && n in f && RenameOk(f, n, name) && x in f
    ensures Proper(Rename(f, n, name), x)
  {
    var g := Rename(f, n, name);
    assert Proper(f, x) && Linked(f, x);
    if f[x].value.Struct? {
      forall k | k in g[x].kids
        ensures Named(g, k)
      {
        assert Named(f, k) && f[k].parent == x;
      }
      forall j, k | j in g[x].kids && k in g[x].kids && j != k
        ensures g[j].name != g[k].name
      {
        assert f[j].parent == x && f[k].parent == x;
      }
    }
  }

  lemma RenameWf(f: Heap, n: Body, name: Option<string>)
    requires Wf(f) && n in f && RenameOk(f, n, name)
    ensures Wf(Rename(f, n, name))
  {
    var g := Rename(f, n, name);
    forall x | x in g
      ensures Linked(g, x) && Proper(g, x) && Rooted(g, x)
    {
      assert Linked(f, x);
      RenameProper(f, n, name, x);
      DepthPreserved(f, g, x, Depth(f, x));
    }
  }

  // ---- Emptying a node child by child ----

  /** The nodes below the first i children of n. */
  ghost function Freed(f: Heap, n: Body, i: nat): set<Body>
    requires Wf(f) && n in f && i <= |f[n].kids|
  {
    set x | x in f && exists j | 0 <= j < i :: Under(f, x, f[n].kids[j])
  }

  /** The heap once the first i children of n have been destroyed. */
  ghost function Pruned(f: Heap, n: Body, i: nat): Heap
    requires Wf(f) && n in f && i <= |f[n].kids|
  {
    var d := f[n];
    (f - Freed(f, n, i))[n := d.(kids := d.kids[i..], cursor := if d.cursor in d.kids[..i] then null else d.cursor)]
  }

  lemma NotFreed(f: Heap, n: Body, i: nat)
    requires Wf(f) && n in f && i <= |f[n].kids|
    ensures n !in Freed(f, n, i)
    ensures forall j | i <= j < |f[n].kids| :: f[n].kids[j] in f && f[n].kids[j] !in Freed(f, n, i)
  {
    DepthOfKids(f, n);
    assert Linked(f, n);
    forall j | 0 <= j < i
      ensures !Under(f, n, f[n].kids[j])
    {
      if Under(f, n, f[n].kids[j]) {
        UnderDepth(f, n, f[n].kids[j]);
      }
    }
    forall j, k | 0 <= j < i <= k < |f[n].kids|
      ensures !Under(f, f[n].kids[k], f[n].kids[j])
    {
      assert f[n].kids[j] in f[n].kids && f[n].kids[k] in f[n].kids && Apart(f[n].kids, j, k);
    }
  }

  lemma PrunedSubtree(f: Heap, n: Body, i: nat)
    requires Wf(f) && n in f && i < |f[n].kids| && Wf(Pruned(f, n, i))
    ensures f[n].kids[i] in f && f[n].kids[i] in Pruned(f, n, i)
    ensures Subtree(Pruned(f, n, i), f[n].kids[i]) == Subtree(f, f[n].kids[i]) - Freed(f, n, i)
    ensures Subtree(f, f[n].kids[i]) < Subtree(f, n)
  {
    var g, k := Pruned(f, n, i), f[n].kids[i];
    NotFreed(f, n, i);
    assert Linked(f, n);
    forall x | x in g
      ensures Under(g, x, k) == Under(f, x, k)
    {
      SameAncestry(f, g, x, k);
    }
    assert k in f[n].kids;
    forall x | x in f && Under(f, x, k)
      ensures Under(f, x, n)
    {
      UnderSomeKid(f, x, n);
    }
    NotFreed(f, n, |f[n].kids|);
    assert Under(f, n, n) && n !in Subtree(f, k);
  }

  /** Destroying the next child prunes one child more. */
  lemma PrunedStep(f: Heap, n: Body, i: nat)
    requires Wf(f) && n in f && i < |f[n].kids| && Wf(Pruned(f, n, i))
    ensures f[n].kids[i] in Pruned(f, n, i)
    ensures Destroy(Pruned(f, n, i), f[n].kids[i]) == Pruned(f, n, i + 1)
  {
    var d, g, k := f[n], Pruned(f, n, i), f[n].kids[i];
    PrunedSubtree(f, n, i);
    NotFreed(f, n, i + 1);
    NotFreed(f, n, i);
    assert Linked(f, n) && k in d.kids;
    assert Linked(g, n) && g[n].kids[0] == k;
    OnlyAt(g[n].kids, 0);
    assert Without(g[n].kids, 0) == d.kids[i + 1..];
    assert d.kids[..i + 1] == d.kids[..i] + [k];
    var after := Destroy(g, k);
    assert after.Keys == Pruned(f, n, i + 1).Keys;
    assert after[n] == Pruned(f, n, i + 1)[n];
  }

  lemma PrunedAll(f: Heap, n: Body)
    requires Wf(f) && n in f
    ensures Pruned(f, n, 0) == f
    ensures var g := Pruned(f, n, |f[n].kids|); g[n := g[n].(value := Empty)] == Hollow(f, n)
  {
    var d := f[n];
    NotFreed(f, n, |d.kids|);
    assert Proper(f, n);
    assert d.kids[0..] == d.kids && d.kids[|d.kids|..] == [] && d.kids[..|d.kids|] == d.kids;
    assert Under(f, n, n);
    forall x | x in f
      ensures x in Freed(f, n, |d.kids|) <==> x in Subtree(f, n) - {n}
    {
      UnderSomeKid(f, x, n);
      if k :| k in d.kids && Under(f, x, k) {
        assert d.kids[Index(d.kids, k)] == k;
      }
    }
  }

  // ---- What the imperative code relies on, step by step ----

  lemma DetachAt(f: Heap, n: Body, p: Body, i: nat)
    requires Wf(f) && n in f && p in f && f[n].parent == p && i < |f[p].kids| && f[p].kids[i] == n
    ensures Wf(Detach(f, n))
    ensures Detach(f, n) == f[p := f[p].(kids := Without(f[p].kids, i), cursor := CursorWithout(f[p],
            i))][n := f[n].(parent := null)]
  {
    assert Linked(f, p);
    OnlyAt(f[p].kids, i);
    DetachWf(f, n);
  }

  /** Removing, emptying, unnaming and deleting n in turn amounts to destroying it. */
  lemma DestroySteps(f: Heap, n: Body)
    requires Wf(f) && n in f
    ensures var g := Detach(f, n);
            && Wf(g) && n in g && g[n].parent == null && Subtree(g, n) == Subtree(f, n)
            && n in Hollow(g, n) && Hollow(g, n)[n].parent == null && Hollow(g, n)[n].kids == []
            && Rename(Hollow(g, n), n, None) - {n} == Destroy(f, n)
    ensures Wf(Destroy(f, n))
  {
    var g := Detach(f, n);
    DetachWf(f, n);
    forall x | x in f
      ensures Under(g, x, n) == Under(f, x, n)
    {
      DetachSubtree(f, n, x);
    }
    assert Subtree(g, n) == Subtree(f, n);
    assert Under(g, n, n);
    DestroyWf(f, n);
  }

  lemma Smaller(a: set<Body>, b: set<Body>)
    requires a < b
    ensures |a| < |b|
  {
    assert b == a + (b - a);
    assert b - a != {};
  }

  /** The next child to destroy in DDF::empty, and the state after destroying it. */
  lemma PrunedNext(f: Heap, n: Body, i: nat)
    requires Wf(f) && n in f && i < |f[n].kids| && Wf(Pruned(f, n, i))
    ensures var g, k := Pruned(f, n, i), f[n].kids[i];
            && k in g && Destroy(g, k) == Pruned(f, n, i + 1)
            && |Subtree(g, k)| < |Subtree(f, n)|
    ensures n in Pruned(f, n, i + 1) && Pruned(f, n, i + 1)[n].value == f[n].value
  {
    PrunedStep(f, n, i);
    PrunedSubtree(f, n, i);
    NotFreed(f, n, i + 1);
    Smaller(Subtree(Pruned(f, n, i), f[n].kids[i]), Subtree(f, n));
  }

  lemma PrunedDone(f: Heap, n: Body)
    requires Wf(f) && n in f
    ensures Pruned(f, n, 0) == f && Wf(Hollow(f, n))
    ensures f[n].kids == [] && !f[n].value.Container() ==> f[n := f[n].(value := Empty, cursor := null)] == Hollow(f, n)
    ensures var g := Pruned(f, n, |f[n].kids|);
            n in g && g[n := g[n].(value := Empty, cursor := null)] == Hollow(f, n)
  {
    PrunedAll(f, n);
    HollowWf(f, n);
    assert Proper(f, n);
  }

  lemma SetValueSteps(f: Heap, n: Body, v: Value)
    requires Wf(f) && n in f && TextOk(v)
    ensures var g := Hollow(f, n);
            && Wf(g) && n in g && g[n].kids == [] && g[n].cursor == null
            && g[n := g[n].(value := v, cursor := null)] == SetValue(f, n, v)
    ensures Wf(SetValue(f, n, v))
  {
    HollowWf(f, n);
    SetValueWf(f, n, v);
  }

  lemma LeafSubtree(f: Heap, n: Body)
    requires Wf(f) && n in f && f[n].kids == []
    ensures Subtree(f, n) == {n}
  {
    forall x | x in f && Under(f, x, n)
      ensures x == n
    {
      UnderSomeKid(f, x, n);
    }
    assert Under(f, n, n);
  }

  /** Setting the value of a childless node frees nothing. */
  lemma SetLeaf(f: Heap, n: Body, v: Value)
    requires Wf(f) && n in f && f[n].kids == []
    ensures SetValue(f, n, v) == f[n := f[n].(value := v, cursor := null)]
  {
    LeafSubtree(f, n);
    assert f - {} == f;
  }
}
