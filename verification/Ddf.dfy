/**
 * The DDF operations on heap nodes.
 *
 * A DDF handle is the pointer it holds, so handles are values of type Body?. The set live
 * stands for the free store: it holds the nodes that are allocated and not yet deleted.
 */
module Ddf {
  import opened Basics
  import opened Forest
  import opened Paths
  import opened Ops
  import opened Trees
  import Members
  import Numbers

  ghost function NodeOf(b: Body): Node
    reads b
  {
    Node(b.name, b.value, b.parent, b.kids, if b.value.Container() then b.current else null)
  }

  ghost function Before(ks: seq<Body>, i: nat): Body?
    requires i < |ks|
  {
    if i == 0 then null else ks[i - 1]
  }

  ghost function Behind(ks: seq<Body>, i: nat): Body?
    requires i < |ks|
  {
    if i + 1 < |ks| then ks[i + 1] else null
  }

  /** The i-th node of ks points at its neighbours. */
  ghost predicate Neighbours(ks: seq<Body>, i: nat)
    requires i < |ks|
    reads ks
  {
    ks[i].prev == Before(ks, i) && ks[i].next == Behind(ks, i)
  }

  /** The links of b and its children spell out the sequence b.kids. */
  ghost predicate Spelled(b: Body)
    reads b, b.kids
  {
    && (b.value.Container() ==>
          && b.first == (if b.kids == [] then null else b.kids[0])
          && b.last == (if b.kids == [] then null else b.kids[|b.kids| - 1])
          && b.count == |b.kids|)
    && (forall i {:trigger Neighbours(b.kids, i)} | 0 <= i < |b.kids| :: Neighbours(b.kids, i))
    && (b.parent == null ==> b.next == null && b.prev == null)
  }

  /** Node j of ks, where node i is being skipped. */
  ghost predicate Skips(ks: seq<Body>, i: nat, j: nat)
    requires i < |ks| && j < |ks|
    reads ks
  {
    && ks[j].prev == (if j == i + 1 then Before(ks, i) else Before(ks, j))
    && ks[j].next == (if j + 1 == i then Behind(ks, i) else Behind(ks, j))
  }

  /** Node j of ks, where c has been spliced in at position i. */
  ghost predicate Spliced(ks: seq<Body>, i: nat, c: Body, j: nat)
    requires i <= |ks| && j < |ks|
    reads ks
  {
    && ks[j].prev == (if j == i then c else Before(ks, j))
    && ks[j].next == (if j + 1 == i then c else Behind(ks, j))
  }

  lemma SkippedNeighbours(ks: seq<Body>, i: nat)
    requires i < |ks| && forall j {:trigger Skips(ks, i, j)} | 0 <= j < |ks| && j != i :: Skips(ks, i, j)
    ensures forall j {:trigger Neighbours(Without(ks, i), j)} | 0 <= j < |ks| - 1 :: Neighbours(Without(ks, i), j)
  {
    forall j | 0 <= j < |ks| - 1
      ensures Neighbours(Without(ks, i), j)
    {
      assert Skips(ks, i, if j < i then j else j + 1);
    }
  }

  lemma SplicedNeighbours(ks: seq<Body>, i: nat, c: Body)
    requires i <= |ks| && forall j {:trigger Spliced(ks, i, c, j)} | 0 <= j < |ks| :: Spliced(ks, i, c, j)
    requires c.prev == (if i == 0 then null else ks[i - 1]) && c.next == (if i < |ks| then ks[i] else null)
    ensures forall j {:trigger Neighbours(InsertAt(ks, i, c), j)} | 0 <= j <= |ks| :: Neighbours(InsertAt(ks, i, c), j)
  {
    forall j | 0 <= j <= |ks|
      ensures Neighbours(InsertAt(ks, i, c), j)
    {
      if j != i {
        assert Spliced(ks, i, c, if j < i then j else j - 1);
      }
    }
  }

  /** Where add, addbefore and addafter put a node. */
  datatype Place = AtEnd | InFront(anchor: Body) | After(anchor: Body)

  class Store {
    ghost var live: set<Body>

    ghost function View(): Heap
      reads this, live
    {
      map b | b in live :: NodeOf(b)
    }

    ghost predicate Valid()
      reads this, live
    {
      && (forall b | b in live :: forall k | k in b.kids :: k in live)
      && (forall b | b in live :: Spelled(b))
      && Wf(View())
    }

    ghost predicate Has(n: Body?)
      reads this
    {
      n != null ==> n in live
    }

    constructor ()
      ensures Valid() && live == {} && View() == map[]
    {
      live := {};
    }

    lemma Around(n: Body)
      requires Valid() && n in live
      ensures n.parent != null ==> n.parent in live && n in n.parent.kids && n.parent != n
      ensures n.parent != null ==> n.parent.value.Container()
      ensures forall k {:trigger k in n.kids} | k in n.kids :: k in live && k.parent == n && k != n
      ensures NoDup(n.kids)
    {
      assert Linked(View(), n) && Proper(View(), n);
      DepthOfKid(View(), n);
      DepthOfKids(View(), n);
      if n.parent != null {
        assert Proper(View(), n.parent);
      }
    }

    lemma ViewIs(g: Heap)
      requires g.Keys == live
      requires forall b {:trigger NodeOf(b)} | b in live :: NodeOf(b) == g[b]
      ensures View() == g
    {
    }

    /** A heap whose nodes are spelled out and whose view is well formed is valid. */
    /** What does not write to the nodes of a store leaves it as it was. */
    twostate lemma Untouched()
      requires old(Valid()) && unchanged(this) && unchanged(old(live))
      ensures Valid() && View() == old(View())
    {
    }

    lemma ValidBy(g: Heap)
      requires View() == g && Wf(g)
      requires forall b {:trigger Spelled(b)} | b in live :: Spelled(b)
      ensures Valid()
    {
      forall b, k | b in live && k in b.kids
        ensures k in live
      {
        assert Linked(g, b) && k in g[b].kids;
      }
    }

    /** The two siblings of n skip it. */
    method Bridge(n: Body, ghost ks: seq<Body>, ghost i: nat, ghost siblings: set<Body>)
      requires i < |ks| && ks[i] == n && NoDup(ks) && forall k | k in ks :: k in siblings
      requires forall j {:trigger Neighbours(ks, j)} | 0 <= j < |ks| :: Neighbours(ks, j)
      modifies siblings`next, siblings`prev
      ensures n.next == old(n.next) && n.prev == old(n.prev)
      ensures forall j {:trigger Skips(ks, i, j)} | 0 <= j < |ks| && j != i :: Skips(ks, i, j)
    {
      assert Neighbours(ks, i);
      assert i > 0 ==> Apart(ks, i - 1, i) && ks[i - 1] in siblings;
      assert i + 1 < |ks| ==> Apart(ks, i, i + 1) && ks[i + 1] in siblings;
      if n.next != null {
        n.next.prev := n.prev;
      }
      if n.prev != null {
        n.prev.next := n.next;
      }
      forall j | 0 <= j < |ks| && j != i
        ensures Skips(ks, i, j)
      {
        assert old(Neighbours(ks, j));
        assert i > 0 && j != i - 1 ==> if j < i - 1 then Apart(ks, j, i - 1) else Apart(ks, i - 1, j);
        assert i + 1 < |ks| && j != i + 1 ==> if j < i + 1 then Apart(ks, j, i + 1) else Apart(ks, i + 1, j);
      }
    }

    /** The parent of n forgets it. */
    method Forget(n: Body, p: Body, ghost i: nat)
      requires p != n && p.count == |p.kids| && i < |p.kids| && p.kids[i] == n
      modifies p`first, p`last, p`current, p`count, p`kids
      ensures p.kids == Without(old(p.kids), i) && p.count == |p.kids|
      ensures p.first == if old(p.first) == n then n.next else old(p.first)
      ensures p.last == if old(p.last) == n then n.prev else old(p.last)
      ensures p.current == if old(p.current) == n then n.prev else old(p.current)
    {
      if p.first == n {
        p.first := n.next;
      }
      if p.last == n {
        p.last := n.prev;
      }
      if p.current == n {
        p.current := n.prev;
      }
      p.count := p.count - 1;
      p.kids := Without(p.kids, i);
    }

    /** n lets go of its parent and its siblings. */
    method Loosen(n: Body, ghost ks: seq<Body>, ghost i: nat)
      requires i < |ks| && ks[i] == n && NoDup(ks)
      requires forall j {:trigger Skips(ks, i, j)} | 0 <= j < |ks| && j != i :: Skips(ks, i, j)
      modifies n`parent, n`next, n`prev
      ensures n.parent == null && n.next == null && n.prev == null
      ensures forall j {:trigger Skips(ks, i, j)} | 0 <= j < |ks| && j != i :: Skips(ks, i, j)
    {
      n.parent := null;
      n.next := null;
      n.prev := null;
      forall j | 0 <= j < |ks| && j != i
        ensures Skips(ks, i, j)
      {
        assert old(Skips(ks, i, j));
        assert if j < i then Apart(ks, j, i) else Apart(ks, i, j);
      }
    }

    /** The pointer work of DDF::remove. */
    method Unlink(n: Body, p: Body, ghost i: nat, ghost siblings: set<Body>)
      requires n.parent == p && p != n && p !in siblings && p.value.Container() && Spelled(p)
      requires i < |p.kids| && p.kids[i] == n && NoDup(p.kids) && forall k | k in p.kids :: k in siblings
      modifies p`first, p`last, p`current, p`count, p`kids, n`parent, siblings`next, siblings`prev
      ensures p.kids == Without(old(p.kids), i) && Spelled(p)
      ensures p.current == if old(p.current) != n then old(p.current) else if i == 0 then null else old(p.kids[i - 1])
      ensures n.parent == null && n.next == null && n.prev == null
    {
      ghost var ks := p.kids;
      assert Neighbours(p.kids, i) && forall j | 0 <= j < |ks| :: Neighbours(p.kids, j);
      assert i > 0 ==> Apart(ks, 0, i);
      assert i + 1 < |ks| ==> Apart(ks, i, |ks| - 1);
      Bridge(n, ks, i, siblings);
      Forget(n, p, i);
      Loosen(n, ks, i);
      SkippedNeighbours(ks, i);
    }

    /** Unlinking n leaves the links of all nodes that are not its parent in order. */
    method UnlinkAmong(n: Body, p: Body, ghost i: nat, ghost siblings: set<Body>, ghost others: set<Body>)
      requires n.parent == p && p != n && p !in siblings && p.value.Container() && Spelled(p)
      requires i < |p.kids| && p.kids[i] == n && NoDup(p.kids) && forall k | k in p.kids :: k in siblings
      requires forall b {:trigger Spelled(b)} | b in others ::
          b != p && Spelled(b) && forall k | k in b.kids :: k !in siblings
      requires forall k | k in siblings :: k.parent == p
      modifies p`first, p`last, p`current, p`count, p`kids, n`parent, siblings`next, siblings`prev
      ensures p.kids == Without(old(p.kids), i) && Spelled(p)
      ensures p.current == if old(p.current) != n then old(p.current) else if i == 0 then null else old(p.kids[i - 1])
      ensures n.parent == null && n.next == null && n.prev == null
      ensures forall b {:trigger Spelled(b)} | b in others :: Spelled(b)
      ensures forall b {:trigger NodeOf(b)} | b in others && b != n :: NodeOf(b) == old(NodeOf(b))
      ensures NodeOf(n) == old(NodeOf(n)).(parent := null)
      ensures NodeOf(p) == old(NodeOf(p)).(kids := p.kids, cursor := CursorWithout(old(NodeOf(p)), i))
    {
      Unlink(n, p, i, siblings);
      forall b | b in others
        ensures Spelled(b)
      {
        assert old(Spelled(b));
        forall j | 0 <= j < |b.kids|
          ensures Neighbours(b.kids, j)
        {
          assert old(Neighbours(b.kids, j)) && b.kids[j] in b.kids;
        }
      }
    }

    /** DDF::remove. */
    method Remove(n: Body?)
      requires Valid() && Has(n)
      modifies live
      ensures Valid()
      ensures View() == if n == null then old(View()) else Detach(old(View()), n)
    {
      if n == null || n.parent == null {
        return;
      }
      ghost var f, g := View(), Detach(View(), n);
      Around(n);
      ghost var i := Index(n.parent.kids, n);
      var p := n.parent;
      Around(p);
      DetachAt(f, n, p, i);
      forall b | b in live && b != p
        ensures forall k | k in b.kids :: k !in p.kids
      {
        Around(b);
      }
      UnlinkAmong(n, p, i, (set k | k in p.kids), live - {p});
      ViewIs(g);
      ValidBy(g);
    }

    /** The DDF constructors, up to the value: a fresh detached empty node. */
    method New(name: Option<string>) returns (n: Body)
      requires Valid()
      modifies this
      ensures Valid() && fresh(n) && live == old(live) + {n}
      ensures View() == Create(old(View()), n, Stored(name))
    {
      ghost var f := View();
      n := new Body();
      n.name := Stored(name);
      live := live + {n};
      CreateWf(f, n, Stored(name));
      assert View() == Create(f, n, Stored(name));
    }

    /** DDF::name; a struct member may only take a plain name that is free. */
    method Name(n: Body, name: Option<string>)
      requires Valid() && n in live && RenameOk(View(), n, name)
      modifies n
      ensures Valid() && View() == Rename(old(View()), n, name)
    {
      ghost var f := View();
      n.name := Stored(name);
      RenameWf(f, n, name);
      assert View() == Rename(f, n, name);
      forall b | b in live
        ensures Spelled(b)
      {
        assert old(Spelled(b)) && b.kids == old(b.kids);
        forall i | 0 <= i < |b.kids|
          ensures Neighbours(b.kids, i)
        {
          assert old(Neighbours(b.kids, i));
        }
      }
    }

    /** operator delete on a node with no links left. */
    ghost method Delete(n: Body)
      requires Valid() && n in live && n.parent == null && n.kids == []
      modifies this
      ensures Valid() && live == old(live) - {n} && View() == old(View()) - {n}
    {
      var f := View();
      LeafSubtree(f, n);
      DropWf(f, n);
      live := live - {n};
      assert View() == f - {n};
      forall b, k | b in live && k in b.kids
        ensures k in live
      {
        assert Linked(View(), b);
      }
    }

    /** The loop of DDF::empty: destroy the first child until there is none. */
    method DestroyKids(n: Body)
      requires Valid() && n in live && n.value.Container()
      modifies this, live
      ensures Valid() && live <= old(live) && n in live && n.first == null
      ensures View() == Pruned(old(View()), n, |old(n.kids)|) && n.value == old(n.value)
      decreases |Subtree(View(), n)|, 1
    {
      ghost var f, i := View(), 0;
      PrunedDone(f, n);
      while n.first != null
        invariant 0 <= i <= |f[n].kids| && Valid() && n in live && live <= old(live)
        invariant View() == Pruned(f, n, i) && n.value == f[n].value
        decreases |f[n].kids| - i
      {
        assert n.kids == View()[n].kids == f[n].kids[i..] && Spelled(n);
        DestroyFirst(f, n, i);
        i := i + 1;
      }
      assert n.kids == View()[n].kids == f[n].kids[i..] && Spelled(n);
    }

    /** One round of the loop of DDF::empty. */
    method DestroyFirst(ghost f: Heap, n: Body, ghost i: nat)
      requires Valid() && Wf(f) && n in f && i < |f[n].kids| && n in live && View() == Pruned(f, n, i)
      requires n.first == f[n].kids[i]
      modifies this, live
      ensures Valid() && live <= old(live) && n in live
      ensures View() == Pruned(f, n, i + 1) && n.value == f[n].value
      decreases |Subtree(f, n)|, 0
    {
      PrunedNext(f, n, i);
      var temp := n.first;
      Destroy(temp);
      assert n in View() && NodeOf(n) == View()[n];
    }

    /** DDF::empty. */
    method Empty(n: Body?)
      requires Valid() && Has(n)
      modifies this, live
      ensures Valid() && live <= old(live)
      ensures View() == if n == null then old(View()) else Hollow(old(View()), n)
      decreases if n == null then 0 else |Subtree(View(), n)|, 2
    {
      if n == null {
        return;
      }
      PrunedDone(View(), n);
      assert Proper(View(), n) && NodeOf(n) == View()[n];
      if n.value.Container() {
        DestroyKids(n);
        assert NodeOf(n) == View()[n] && Spelled(n);
      }
      Retag(n, Value.Empty);
    }

    /** Overwrite the type tag of a node without children. */
    method Retag(n: Body, v: Value)
      requires Valid() && n in live && n.kids == [] && TextOk(v)
      requires v.Container() ==> n.first == null && n.last == null && n.current == null && n.count == 0
      modifies n`value
      ensures Valid() && View() == old(View())[n := old(View())[n].(value := v, cursor := null)]
    {
      ghost var f := View();
      assert Proper(f, n);
      n.value := v;
      RetagWf(f, n, v);
      ViewIs(f[n := f[n].(value := v, cursor := null)]);
      forall b | b in live
        ensures Spelled(b)
      {
        assert old(Spelled(b));
        forall i | 0 <= i < |b.kids|
          ensures Neighbours(b.kids, i)
        {
          assert old(Neighbours(b.kids, i));
        }
      }
    }

    /** DDF::destroy: afterwards the handle n dangles, so callers must drop it. */
    method Destroy(n: Body?)
      requires Valid() && Has(n)
      modifies this, live
      ensures Valid() && live <= old(live)
      ensures View() == if n == null then old(View()) else Forest.Destroy(old(View()), n)
      decreases if n == null then 0 else |Subtree(View(), n)|, 3
    {
      if n == null {
        return;
      }
      DestroySteps(View(), n);
      Remove(n);
      Empty(n);
      assert n in View() && NodeOf(n) == View()[n];
      Name(n, None);
      Delete(n);
    }

    // ---- Setters ----

    /** The string, integer and pointer setters. */
    method Set(n: Body?, v: Value)
      requires Valid() && Has(n) && !v.Container() && TextOk(v)
      modifies this, live
      ensures Valid() && live <= old(live)
      ensures View() == if n == null then old(View()) else SetValue(old(View()), n, v)
    {
      if n == null {
        return;
      }
      SetValueSteps(View(), n, v);
      Empty(n);
      assert NodeOf(n) == View()[n];
      Retag(n, v);
    }

    /** Reset the child list of a node that is not a container. */
    method NoKids(n: Body)
      requires Valid() && n in live && !n.value.Container()
      modifies n`first, n`last, n`current, n`count
      ensures Valid() && View() == old(View())
      ensures n.first == null && n.last == null && n.current == null && n.count == 0
    {
      ghost var f := View();
      n.first := null;
      n.last := null;
      n.current := null;
      n.count := 0;
      ViewIs(f);
      forall b | b in live
        ensures Spelled(b)
      {
        assert old(Spelled(b));
        forall i | 0 <= i < |b.kids|
          ensures Neighbours(b.kids, i)
        {
          assert old(Neighbours(b.kids, i));
        }
      }
    }

    /** DDF::structure and DDF::list. */
    method MakeContainer(n: Body?, v: Value)
      requires Valid() && Has(n) && v.Container()
      modifies this, live
      ensures Valid() && live <= old(live)
      ensures View() == if n == null then old(View()) else SetValue(old(View()), n, v)
    {
      if n == null {
        return;
      }
      SetValueSteps(View(), n, v);
      Empty(n);
      assert NodeOf(n) == View()[n];
      NoKids(n);
      Retag(n, v);
    }

    // ---- Linking a detached node into a child list ----

    /** p can take in the detached node c between its children. */
    static ghost predicate CanLink(p: Body, c: Body, siblings: set<Body>)
      reads p, p.kids, c
    {
      && c != p && p.value.Container() && Spelled(p) && NoDup(p.kids) && c !in siblings && p !in siblings
      && (forall k {:trigger k in p.kids} | k in p.kids :: k in siblings)
      && c.parent == null && c.next == null && c.prev == null
    }

    /** The pointer work of DDF::add: link c in after the last child. */
    method LinkLast(p: Body, c: Body, ghost siblings: set<Body>)
      requires CanLink(p, c, siblings)
      modifies p`first, p`last, p`count, p`kids, c`parent, c`next, c`prev, siblings`next, siblings`prev
      ensures p.kids == InsertAt(old(p.kids), |old(p.kids)|, c) && Spelled(p) && c.parent == p
    {
      ghost var ks := p.kids;
      assert forall i | 0 <= i < |ks| :: Neighbours(p.kids, i);
      if p.first == null {
        p.first := c;
      } else {
        SpliceLast(c, p.last, ks, siblings);
      }
      p.last := c;
      c.parent := p;
      p.count := p.count + 1;
      SplicedNeighbours(ks, |ks|, c);
      p.kids := InsertAt(p.kids, |p.kids|, c);
    }

    /** c takes the place behind the last sibling. */
    method SpliceLast(c: Body, last: Body, ghost ks: seq<Body>, ghost siblings: set<Body>)
      requires ks != [] && ks[|ks| - 1] == last && NoDup(ks) && c !in siblings && forall k | k in ks :: k in siblings
      requires forall j {:trigger Neighbours(ks, j)} | 0 <= j < |ks| :: Neighbours(ks, j)
      modifies c`prev, siblings`next
      ensures c.prev == last
      ensures forall j {:trigger Spliced(ks, |ks|, c, j)} | 0 <= j < |ks| :: Spliced(ks, |ks|, c, j)
    {
      assert last in ks;
      last.next := c;
      c.prev := last;
      forall j {:trigger Spliced(ks, |ks|, c, j)} | 0 <= j < |ks|
        ensures Spliced(ks, |ks|, c, j)
      {
        assert old(Neighbours(ks, j)) && ks[j] in siblings;
        assert j + 1 < |ks| ==> Apart(ks, j, |ks| - 1);
      }
    }

    /** c takes the place in front of its anchor. */
    method SpliceBefore(c: Body, before: Body, ghost ks: seq<Body>, ghost i: nat, ghost siblings: set<Body>)
      requires i < |ks| && ks[i] == before && NoDup(ks) && c !in siblings && forall k | k in ks :: k in siblings
      requires forall j {:trigger Neighbours(ks, j)} | 0 <= j < |ks| :: Neighbours(ks, j)
      modifies c`next, c`prev, siblings`next, siblings`prev
      ensures c.prev == Before(ks, i) && c.next == before
      ensures forall j {:trigger Spliced(ks, i, c, j)} | 0 <= j < |ks| :: Spliced(ks, i, c, j)
    {
      assert Neighbours(ks, i);
      assert i > 0 ==> Apart(ks, i - 1, i) && ks[i - 1] in siblings;
      c.prev := before.prev;
      if c.prev != null {
        c.prev.next := c;
      }
      before.prev := c;
      c.next := before;
      forall j | 0 <= j < |ks|
        ensures Spliced(ks, i, c, j)
      {
        assert old(Neighbours(ks, j)) && ks[j] in siblings;
        assert j != i ==> if j < i then Apart(ks, j, i) else Apart(ks, i, j);
        assert i > 0 && j != i - 1 ==> if j < i - 1 then Apart(ks, j, i - 1) else Apart(ks, i - 1, j);
      }
    }

    /** c takes the place behind its anchor. */
    method SpliceAfter(c: Body, after: Body, ghost ks: seq<Body>, ghost i: nat, ghost siblings: set<Body>)
      requires i < |ks| && ks[i] == after && NoDup(ks) && c !in siblings && forall k | k in ks :: k in siblings
      requires forall j {:trigger Neighbours(ks, j)} | 0 <= j < |ks| :: Neighbours(ks, j)
      modifies c`next, c`prev, siblings`next, siblings`prev
      ensures c.prev == after && c.next == Behind(ks, i)
      ensures forall j {:trigger Spliced(ks, i + 1, c, j)} | 0 <= j < |ks| :: Spliced(ks, i + 1, c, j)
    {
      ghost var at := i + 1;
      assert Neighbours(ks, i);
      assert i + 1 < |ks| ==> Apart(ks, i, i + 1) && ks[i + 1] in siblings;
      c.next := after.next;
      if c.next != null {
        c.next.prev := c;
      }
      after.next := c;
      c.prev := after;
      forall j | 0 <= j < |ks|
        ensures Spliced(ks, at, c, j)
      {
        assert old(Neighbours(ks, j)) && ks[j] in siblings;
        assert j != i ==> if j < i then Apart(ks, j, i) else Apart(ks, i, j);
        assert i + 1 < |ks| && j != i + 1 ==> if j < i + 1 then Apart(ks, j, i + 1) else Apart(ks, i + 1, j);
      }
    }

    /** The pointer work of DDF::addbefore: link c in at the place of its anchor. */
    method LinkBefore(p: Body, c: Body, before: Body, ghost i: nat, ghost siblings: set<Body>)
      requires CanLink(p, c, siblings)
      requires i < |p.kids| && p.kids[i] == before
      modifies p`first, p`last, p`count, p`kids, c`parent, c`next, c`prev, siblings`next, siblings`prev
      ensures p.kids == InsertAt(old(p.kids), i, c) && Spelled(p) && c.parent == p
    {
      ghost var ks := p.kids;
      assert forall j | 0 <= j < |ks| :: Neighbours(p.kids, j);
      assert i > 0 ==> Apart(ks, 0, i);
      if p.first == before {
        p.first := c;
      }
      SpliceBefore(c, before, ks, i, siblings);
      c.parent := p;
      p.count := p.count + 1;
      SplicedNeighbours(ks, i, c);
      p.kids := InsertAt(p.kids, i, c);
    }

    /** The pointer work of DDF::addafter: link c in just past its anchor. */
    method LinkAfter(p: Body, c: Body, after: Body, ghost i: nat, ghost siblings: set<Body>)
      requires CanLink(p, c, siblings)
      requires i < |p.kids| && p.kids[i] == after
      modifies p`first, p`last, p`count, p`kids, c`parent, c`next, c`prev, siblings`next, siblings`prev
      ensures p.kids == InsertAt(old(p.kids), i + 1, c) && Spelled(p) && c.parent == p
    {
      ghost var ks := p.kids;
      assert forall j | 0 <= j < |ks| :: Neighbours(p.kids, j);
      assert i + 1 < |ks| ==> Apart(ks, i, |ks| - 1);
      if p.last == after {
        p.last := c;
      }
      SpliceAfter(c, after, ks, i, siblings);
      c.parent := p;
      p.count := p.count + 1;
      SplicedNeighbours(ks, i + 1, c);
      p.kids := InsertAt(p.kids, i + 1, c);
    }

    /** Linking c in somewhere below p leaves the links of all other nodes in order. */
    method LinkAmong(p: Body, c: Body, place: Place, ghost i: nat, ghost siblings: set<Body>, ghost others: set<Body>)
      requires CanLink(p, c, siblings) && PlacedAt(p, place, i)
      requires forall b {:trigger Spelled(b)} | b in others ::
          b != p && Spelled(b) && forall k | k in b.kids :: k !in siblings && k != c
      requires forall k | k in siblings :: k.parent == p
      modifies p`first, p`last, p`count, p`kids, c`parent, c`next, c`prev, siblings`next, siblings`prev
      ensures Spelled(p) && forall b {:trigger Spelled(b)} | b in others :: Spelled(b)
      ensures forall b {:trigger NodeOf(b)} | b in others && b != c :: NodeOf(b) == old(NodeOf(b))
      ensures NodeOf(c) == old(NodeOf(c)).(parent := p)
      ensures NodeOf(p) == old(NodeOf(p)).(kids := InsertAt(old(p.kids), i, c))
    {
      match place {
        case AtEnd => LinkLast(p, c, siblings);
        case InFront(anchor) => LinkBefore(p, c, anchor, i, siblings);
        case After(anchor) => LinkAfter(p, c, anchor, i - 1, siblings);
      }
      forall b | b in others
        ensures Spelled(b)
      {
        assert old(Spelled(b));
        forall j | 0 <= j < |b.kids|
          ensures Neighbours(b.kids, j)
        {
          assert old(Neighbours(b.kids, j)) && b.kids[j] in b.kids;
        }
      }
    }

    /** The position a place denotes among the children of p. */
    static ghost predicate PlacedAt(p: Body, place: Place, i: nat)
      reads p
    {
      match place
      case AtEnd => i == |p.kids|
      case InFront(anchor) => i < |p.kids| && p.kids[i] == anchor
      case After(anchor) => 0 < i <= |p.kids| && p.kids[i - 1] == anchor
    }

    /** Put a detached node in among the children of p. */
    method Insert(p: Body, c: Body, place: Place, ghost i: nat)
      requires Valid() && p in live && c in live && p != c && c.parent == null && PlacedAt(p, place, i)
      requires Fits(View(), p, c) && !Under(View(), p, c)
      modifies live
      ensures Valid() && View() == Attach(old(View()), p, i, c)
    {
      ghost var f, g := View(), Attach(View(), p, i, c);
      Around(p);
      Around(c);
      AttachWf(f, p, i, c);
      assert Spelled(p) && Spelled(c) && p.value == f[p].value;
      forall b | b in live && b != p
        ensures forall k | k in b.kids :: k !in p.kids && k != c
      {
        Around(b);
      }
      LinkAmong(p, c, place, i, (set k | k in p.kids), live - {p});
      ViewIs(g);
      ValidBy(g);
    }

    // ---- add, addbefore, addafter ----

    /** DDF::add. */
    method Add(p: Body?, c: Body?)
      requires Valid() && Has(p) && Has(c) && (p != null && c != null ==> AddOk(View(), p, c))
      modifies this, live
      ensures Valid() && live <= old(live)
      ensures View() == if p == null || c == null then old(View()) else Ops.Add(old(View()), p, c)
    {
      if p == null || c == null {
        return;
      }
      assert NodeOf(p) == View()[p] && NodeOf(c) == View()[c];
      if !p.value.Container() || p == c.parent {
        return;
      }
      if p.value.Struct? {
        if c.name.None? {
          return;
        }
        ClearedReady(View(), p, c);
        var prior := GetMember(p, c.name.value);
        Destroy(prior);
      } else {
        ClearedReady(View(), p, c);
      }
      AppendTo(p, c);
    }

    /** The part of DDF::add that moves the child to the end of the list. */
    method AppendTo(p: Body, c: Body)
      requires Valid() && p in live && c in live && !Under(View(), p, c) && Fits(View(), p, c)
      modifies live
      ensures Valid()
      ensures p != c && p in old(View()) && Wf(Detach(old(View()), c)) && p in Detach(old(View()), c)
      ensures View() == Move(old(View()), p, |Detach(old(View()), c)[p].kids|, c)
    {
      ghost var f := View();
      MoveReady(f, p, c);
      Remove(c);
      assert NodeOf(p) == View()[p] && NodeOf(c) == View()[c];
      Insert(p, c, AtEnd, |p.kids|);
    }

    /** DDF::addbefore and, with after set, DDF::addafter. */
    method AddBeside(p: Body?, c: Body?, anchor: Body?, after: bool)
      requires Valid() && Has(p) && Has(c) && Has(anchor)
      requires p != null && c != null && anchor != null ==> AnchoredOk(View(), p, c, anchor)
      modifies live
      ensures Valid()
      ensures View() == if p == null || c == null || anchor == null then old(View())
                        else Ops.AddBeside(old(View()), p, c, anchor, after)
    {
      if p != null && c != null && anchor != null {
        AddBesideNode(p, c, anchor, after);
      }
    }

    /** The anchored insertions on nodes that are there: they act on lists, next to a child. */
    method AddBesideNode(p: Body, c: Body, anchor: Body, after: bool)
      requires Valid() && p in live && c in live && anchor in live && AnchoredOk(View(), p, c, anchor)
      modifies live
      ensures Valid() && p in old(View()) && c in old(View()) && anchor in old(View())
      ensures View() == Ops.AddBeside(old(View()), p, c, anchor, after)
    {
      ghost var f := View();
      assert NodeOf(p) == f[p] && NodeOf(anchor) == f[anchor];
      if p.value.List? && anchor.parent == p {
        AddBesideAt(f, p, c, anchor, after);
        MoveBeside(p, c, anchor, after);
      }
    }

    method MoveBeside(p: Body, c: Body, anchor: Body, after: bool)
      requires Valid() && p in live && c in live && p != c && anchor in live
      requires Wf(Detach(View(), c)) && p in Detach(View(), c) && anchor in Detach(View(), c)[p].kids
      requires Fits(Detach(View(), c), p, c) && !Under(Detach(View(), c), p, c)
      modifies live
      ensures Valid()
      ensures var g := Detach(old(View()), c);
              var i := Index(g[p].kids, anchor);
              c in g && View() == Attach(g, p, if after then i + 1 else i, c)
    {
      Remove(c);
      assert NodeOf(p) == View()[p] && NodeOf(c) == View()[c];
      ghost var i := Index(p.kids, anchor);
      if after {
        Insert(p, c, After(anchor), i + 1);
      } else {
        Insert(p, c, InFront(anchor), i);
      }
    }

    // ---- The cursor ----

    /** Move the cursor of a container. */
    method MoveCursor(n: Body, k: Body?)
      requires Valid() && n in live && n.value.Container() && (k != null ==> k in n.kids)
      modifies n`current
      ensures Valid() && View() == SetCursor(old(View()), n, k)
    {
      ghost var f := View();
      n.current := k;
      SetCursorWf(f, n, k);
      ViewIs(SetCursor(f, n, k));
      forall b | b in live
        ensures Spelled(b)
      {
        assert old(Spelled(b));
        forall i | 0 <= i < |b.kids|
          ensures Neighbours(b.kids, i)
        {
          assert old(Neighbours(b.kids, i));
        }
      }
    }

    lemma KidLinks(n: Body, k: Body)
      requires Valid() && n in live && k in n.kids
      ensures k in live && View()[n].kids == n.kids
      ensures k.prev == PrevOf(View()[n], k) && k.next == NextOf(View()[n], k)
    {
      Around(n);
      assert Spelled(n) && Neighbours(n.kids, Index(n.kids, k));
    }

    /** DDF::first, next, last and previous. */
    method Walk(n: Body?, w: Walk) returns (k: Body?)
      requires Valid() && Has(n)
      modifies n
      ensures Valid()
      ensures n == null ==> k == null && View() == old(View())
      ensures n != null ==> Proper(old(View()), n) && k == Advance(old(View())[n], w).1
                            && View() == SetCursor(old(View()), n, Advance(old(View())[n], w).0)
    {
      k := null;
      if n == null {
        return;
      }
      assert Proper(View(), n) && NodeOf(n) == View()[n];
      if n.value.Container() {
        k := WalkContainer(n, w);
      } else {
        assert SetCursor(View(), n, null) == View();
      }
    }

    method WalkContainer(n: Body, w: Walk) returns (k: Body?)
      requires Valid() && n in live && n.value.Container()
      modifies n`current
      ensures Valid()
      ensures Proper(old(View()), n) && k == Advance(old(View())[n], w).1
      ensures View() == SetCursor(old(View()), n, Advance(old(View())[n], w).0)
    {
      ghost var f := View();
      assert Proper(f, n) && NodeOf(n) == f[n] && Spelled(n);
      assert n.kids != [] ==> n.last in n.kids && n.first in n.kids;
      if n.current != null {
        KidLinks(n, n.current);
      }
      if n.last != null {
        KidLinks(n, n.last);
      }
      var cursor := n.current;
      match w {
        case First =>
          cursor := n.first;
          k := cursor;
        case Next =>
          k := null;
          if n.current != n.last {
            cursor := if n.current == null then n.first else n.current.next;
            k := cursor;
          }
        case Last =>
          k := n.last;
          if n.last != null {
            cursor := n.last.prev;
          }
        case Previous =>
          k := n.current;
          if k != null {
            cursor := n.current.prev;
          }
      }
      assert (cursor, k) == Advance(f[n], w);
      MoveCursor(n, cursor);
    }

    // ---- Lookup ----

    /** operator[] on a list with more than index elements. */
    method At(n: Body, index: nat) returns (k: Body)
      requires Valid() && n in live && n.value.Container() && index < n.count
      ensures |n.kids| == n.count && k == n.kids[index]
    {
      assert Spelled(n);
      k := n.first;
      var i := index;
      while i > 0
        invariant 0 <= i <= index && k == n.kids[index - i]
      {
        assert Neighbours(n.kids, index - i);
        k := k.next;
        i := i - 1;
      }
    }

    /** The loop of DDF::getmember over the members of a struct. */
    method FindMember(n: Body, name: string) returns (k: Body?)
      requires Valid() && n in live && n.value.Container()
      ensures forall j | j in n.kids :: j in live
      ensures k == MemberNamed(View(), n.kids, name)
    {
      Around(n);
      assert Spelled(n);
      ghost var i := 0;
      k := n.first;
      assert n.kids[0..] == n.kids;
      while k != null && k.name != Some(name)
        invariant 0 <= i <= |n.kids|
        invariant k == if i < |n.kids| then n.kids[i] else null
        invariant MemberNamed(View(), n.kids, name) == MemberNamed(View(), n.kids[i..], name)
        decreases |n.kids| - i
      {
        assert Neighbours(n.kids, i) && View()[k].name == k.name;
        assert n.kids[i..][1..] == n.kids[i + 1..];
        k := k.next;
        i := i + 1;
      }
      if k != null {
        assert View()[k].name == k.name && n.kids[i..][0] == k;
      }
    }

    /** The part of DDF::getmember that resolves one component; lists given a plain name are not its business. */
    method StepTo(n: Body, name: string) returns (k: Body?)
      requires Valid() && n in live && name != "" && !Descends(n.value, name)
      ensures Has(k) && k == Step(View(), n, name)
    {
      k := null;
      assert NodeOf(n) == View()[n] && Spelled(n);
      Around(n);
      if name[0] == '[' {
        var i := Numbers.Strtoul(name[1..]);
        if n.value.List? && i < n.count {
          k := At(n, i);
        } else if i == 0 {
          k := n;
        }
      } else if n.value.Struct? {
        k := FindMember(n, name);
      }
    }

    /** DDF::getmember. */
    method GetMember(n: Body?, path: string) returns (k: Body?)
      requires Valid() && Has(n)
      ensures Has(k) && k == PathGet(View(), n, path)
      decreases |path|, if n == null then 0 else Room(View(), n) + 1
    {
      var (name, rest) := Token(path);
      k := null;
      if name == "" || n == null {
        return;
      }
      assert NodeOf(n) == View()[n];
      if name[0] != '[' && n.value.List? {
        Around(n);
        assert Spelled(n);
        RoomOfKids(View(), n);
        k := GetMember(n.first, path);
        return;
      }
      k := StepTo(n, name);
      if k != null && rest != "" {
        k := GetMember(k, rest);
      }
    }

    // ---- addmember ----

    /** A new last member of a struct that has none of this name. */
    method NewMember(n: Body, name: string) returns (m: Body)
      requires Valid() && n in live && n.value.Struct? && MemberName(name) && PathGet(View(), n, name) == null
      modifies this, live
      ensures Valid() && fresh(m) && live == old(live) + {m}
      ensures n in old(View()) && old(View())[n].value.Struct?
      ensures Members.MemberMade(old(View()), n, name, [m], View(), m)
    {
      ghost var f := View();
      assert NodeOf(n) == f[n];
      m := New(Some(name));
      Members.NewMemberMade(f, n, name, m);
      Add(n, m);
      assert View().Keys == live;
    }

    /** The member of a struct called name, created if there is none. */
    method MemberOf(n: Body, name: string) returns (m: Body, ghost used: seq<Body>)
      requires Valid() && n in live && n.value.Struct? && MemberName(name)
      modifies this, live
      ensures Valid() && m in live && (forall b | b in used :: fresh(b) && b in live)
      ensures forall b | b in live :: b in old(live) || fresh(b)
      ensures n in old(View()) && old(View())[n].value.Struct?
      ensures Members.MemberMade(old(View()), n, name, used, View(), m)
    {
      ghost var f := View();
      assert NodeOf(n) == f[n];
      var found := GetMember(n, name);
      used := [];
      if found != null {
        m := found;
      } else {
        m := NewMember(n, name);
        used := [m];
      }
    }

    /** What the two halves of addmember add up to. */
    static lemma AddedFrom(f: Heap, n: Body, path: string, first: seq<Body>, more: seq<Body>, h: Heap, m: Body,
        g: Heap, k: Body?)
      requires Wf(f) && n in f && Members.Addable(path) && Token(path).0 != "" && Token(path).1 != ""
      requires f[n].value.Struct? && Members.MemberMade(f, n, Token(path).0, first, h, m)
      requires NoDup(more) && NoDup(first) && (forall b | b in first :: b !in f)
      requires forall b | b in more :: b !in f && b !in first
      requires Wf(h) && m in h && Members.Supply(h, more)
      requires var r := Members.AddPath(h, m, Token(path).1, more);
               && !r.short && r.node == k && r.spare == []
               && g == if k == null then Forest.Destroy(r.heap, m) else r.heap
      ensures Members.Supply(f, first + more)
      ensures Members.AddPath(f, n, path, first + more) == Members.Added(g, k, [], false)
    {
      Members.SupplyAppend(f, first, more);
      Members.MemberIs(f, n, Token(path).0, first, more, h, m);
      Members.AddPathUnfold(f, n, path, first + more, h, m, more);
    }

    static lemma AddedLast(f: Heap, n: Body, path: string, first: seq<Body>, h: Heap, m: Body)
      requires Wf(f) && n in f && Members.Addable(path) && Token(path).0 != "" && Token(path).1 == ""
      requires f[n].value.Struct? && Members.MemberMade(f, n, Token(path).0, first, h, m)
      ensures Members.Supply(f, first)
      ensures Members.AddPath(f, n, path, first) == Members.Added(h, m, [], false)
    {
    }

    /** DDF::addmember; used lists the nodes it allocates, in order. */
    method AddMember(n: Body?, path: string) returns (k: Body?, ghost used: seq<Body>)
      requires Valid() && Has(n) && Members.Addable(path)
      modifies this, live
      ensures Valid() && Has(k) && (forall b | b in used :: fresh(b))
      ensures forall b | b in live :: b in old(live) || fresh(b)
      ensures n == null ==> k == null && View() == old(View())
      ensures n != null ==> n in old(View()) && Members.Supply(old(View()), used)
      ensures n != null ==> Members.AddPath(old(View()), n, path, used) == Members.Added(View(), k, [], false)
      decreases |path|, 2
    {
      var (name, rest) := Token(path);
      k, used := null, [];
      if n == null || name == "" {
        return;
      }
      ghost var f := View();
      assert NodeOf(n) == f[n];
      if !n.value.Struct? {
        MakeContainer(n, Struct);
      }
      assert View() == Members.AsStruct(f, n) && NodeOf(n) == View()[n];
      k, used := AddFrom(n, path);
    }

    /** The part of DDF::addmember after the receiver is known to be a struct. */
    method AddFrom(n: Body, path: string) returns (k: Body?, ghost used: seq<Body>)
      requires Valid() && n in live && n.value.Struct? && Members.Addable(path) && Token(path).0 != ""
      modifies this, live
      ensures Valid() && Has(k) && (forall b | b in used :: fresh(b))
      ensures forall b | b in live :: b in old(live) || fresh(b)
      ensures n in old(View()) && Members.Supply(old(View()), used)
      ensures Members.AddPath(old(View()), n, path, used) == Members.Added(View(), k, [], false)
      decreases |path|, 1
    {
      ghost var f := View();
      assert NodeOf(n) == f[n];
      var (name, rest) := Token(path);
      var m;
      m, used := MemberOf(n, name);
      if rest == "" {
        AddedLast(f, n, path, used, View(), m);
        k := m;
      } else {
        k, used := AddRest(f, n, path, m, used);
      }
    }

    /** The part of DDF::addmember behind the first component, for which first was allocated. */
    method AddRest(ghost f: Heap, ghost n: Body, path: string, m: Body, ghost first: seq<Body>)
      returns (k: Body?, ghost used: seq<Body>)
      requires Valid() && m in live && Members.Addable(path) && Token(path).0 != "" && Token(path).1 != ""
      requires Wf(f) && n in f && f[n].value.Struct? && Members.MemberMade(f, n, Token(path).0, first, View(), m)
      requires Members.Supply(f, first)
      modifies this, live
      ensures Valid() && Has(k) && (forall b | b in used :: fresh(b) || b in first)
      ensures (forall b | b in live :: b in old(live) || fresh(b))
      ensures Members.Supply(f, used) && Members.AddPath(f, n, path, used) == Members.Added(View(), k, [], false)
      decreases |path|, 0
    {
      ghost var h := View();
      ghost var more;
      k, more := AddBelow(m, Token(path).1);
      AddedFrom(f, n, path, first, more, h, m, View(), k);
      used := first + more;
    }

    /** The remaining path, below the member just found or made; if that fails the member goes too. */
    method AddBelow(m: Body, rest: string) returns (k: Body?, ghost more: seq<Body>)
      requires Valid() && m in live && Members.Addable(rest)
      modifies this, live
      ensures Valid() && Has(k) && (forall b | b in more :: fresh(b))
      ensures forall b | b in live :: b in old(live) || fresh(b)
      ensures m in old(View()) && Members.Supply(old(View()), more)
      ensures var r := Members.AddPath(old(View()), m, rest, more);
              && !r.short && r.node == k && r.spare == []
              && View() == if k == null then Forest.Destroy(r.heap, m) else r.heap
      decreases |rest|, 3
    {
      k, more := AddMember(m, rest);
      if k == null {
        Destroy(m);
      }
    }

    // ---- Deep copy ----

    /** Attach the copy of one child and carry the cursor over. */
    method AddCopy(ghost f: Heap, n: Body, ghost h: Heap, m: Body, child: Body, temp: Body, ghost i: nat)
      requires Valid() && n in live && m in live && temp in live && Copying(f, n, h, m, i)
      requires i < |f[n].kids| && child == f[n].kids[i] && child in f
      requires FreshTree(h, View(), temp) && TreeOf(View(), temp) == TreeOf(f, child)
      modifies this, live
      ensures Valid() && live == old(live) && Copying(f, n, View(), m, i + 1)
    {
      ghost var h2 := View();
      CopyAddOk(f, n, h, m, i, h2, temp);
      CopyStep(f, n, h, m, i, h2, temp);
      Add(m, temp);
      assert NodeOf(n) == View()[n] && NodeOf(m) == View()[m] && Spelled(m);
      assert View().Keys == live;
      if n.current == child {
        MoveCursor(m, m.last);
      }
    }

    /** The cases of DDF::copy that have no children. */
    method CopyScalar(n: Body) returns (m: Body)
      requires Valid() && n in live && !n.value.Container()
      modifies this, live
      ensures Valid() && live >= old(live) && fresh(live - old(live))
      ensures FreshTree(old(View()), View(), m) && TreeOf(View(), m) == TreeOf(old(View()), n)
    {
      ghost var f := View();
      assert NodeOf(n) == f[n];
      ScalarTree(f, n);
      m := New(n.name);
      FreshLeaf(f, m, n.name, n.value);
      Set(m, n.value);
      assert View().Keys == live == f.Keys + {m};
    }

    /** The empty container DDF::copy starts from. */
    method StartCopy(n: Body) returns (m: Body)
      requires Valid() && n in live && n.value.Container()
      modifies this, live
      ensures Valid() && live >= old(live) && fresh(live - old(live)) && m in live && m !in old(live)
      ensures Copying(old(View()), n, View(), m, 0)
      ensures View()[n] == old(View())[n]
    {
      ghost var f := View();
      assert Proper(f, n) && NodeOf(n) == f[n];
      m := New(n.name);
      FreshLeaf(f, m, n.name, n.value);
      MakeContainer(m, n.value);
      assert View().Keys == live == f.Keys + {m};
    }

    /** One round of the loop in DDF::copy: copy a child and move on to its sibling. */
    method CopyKid(ghost f: Heap, n: Body, m: Body, child: Body, ghost i: nat) returns (sibling: Body?)
      requires Valid() && n in live && m in live && Copying(f, n, View(), m, i)
      requires i < |f[n].kids| && child == f[n].kids[i]
      modifies this, live
      ensures Valid() && live >= old(live) && fresh(live - old(live))
      ensures Copying(f, n, View(), m, i + 1)
      ensures sibling == if i + 1 < |f[n].kids| then f[n].kids[i + 1] else null
      decreases 1, TreeOf(f, n), 0
    {
      ghost var h := View();
      RoomOfKids(f, n);
      assert child in f[n].kids && TreeOf(f, n).kids[i] == TreeOf(f, child);
      ExtendsTree(f, h, child);
      var temp := Copy(child);
      AddCopy(f, n, h, m, child, temp, i);
      assert NodeOf(n) == View()[n] && Spelled(n) && Neighbours(n.kids, i);
      sibling := child.next;
    }

    /** The loop in DDF::copy. */
    method CopyKids(ghost f: Heap, n: Body, m: Body)
      requires Valid() && n in live && m in live && Copying(f, n, View(), m, 0) && View()[n] == f[n]
      modifies this, live
      ensures Valid() && live >= old(live) && fresh(live - old(live))
      ensures m in live && Copying(f, n, View(), m, |f[n].kids|)
      decreases 1, TreeOf(f, n), 1
    {
      var child := n.first;
      ghost var i := 0;
      assert Spelled(n) && NodeOf(n) == f[n];
      while child != null
        invariant 0 <= i <= |f[n].kids| && Valid() && live >= old(live) && fresh(live - old(live))
        invariant m in live && Copying(f, n, View(), m, i)
        invariant child == if i < |f[n].kids| then f[n].kids[i] else null
        decreases |f[n].kids| - i
      {
        child := CopyKid(f, n, m, child, i);
        i := i + 1;
      }
    }

    /** DDF::copy: the copy consists of new nodes only and stands for the same tree. */
    method Copy(n: Body?) returns (m: Body?)
      requires Valid() && Has(n)
      modifies this, live
      ensures Valid() && live >= old(live) && fresh(live - old(live))
      ensures n == null ==> m == null && View() == old(View())
      ensures n != null ==>
          m != null && FreshTree(old(View()), View(), m) && TreeOf(View(), m) == TreeOf(old(View()), n)
      decreases if n == null then 0 else 1, if n == null then Tree(None, Value.Empty, [], None)
                else TreeOf(View(), n), 2
    {
      m := null;
      if n == null {
        return;
      }
      if !n.value.Container() {
        m := CopyScalar(n);
        return;
      }
      ghost var f := View();
      m := StartCopy(n);
      CopyKids(f, n, m);
      CopyDone(f, n, View(), m);
    }
  }
}
