/** What attaching a detached tree to a node does to the trees of the heap. */
module Grafts {
  import opened Basics
  import opened Forest
  import opened Paths
  import opened Ops
  import opened Trees

  lemma SubtreeClosed(f: Heap, n: Body)
    requires Wf(f) && n in f
    ensures n in Subtree(f, n)
    ensures forall x, k {:trigger k in f[x].kids} | x in Subtree(f, n) && k in f[x].kids :: k in Subtree(f, n)
  {
    assert Under(f, n, n);
    forall x, k | x in Subtree(f, n) && k in f[x].kids
      ensures k in Subtree(f, n)
    {
      KidUnder(f, k, x);
      UnderTrans(f, k, x, n);
    }
  }

  /** A heap that agrees with f on the subtree of n has the same tree there. */
  lemma SameSubtree(f: Heap, g: Heap, n: Body)
    requires Wf(f) && Wf(g) && n in f
    requires forall x | x in f && Under(f, x, n) :: x in g && g[x].(parent := null) == f[x].(parent := null)
    ensures n in g && TreeOf(g, n) == TreeOf(f, n)
  {
    SubtreeClosed(f, n);
    assert Subtree(f, n) <= g.Keys;
    TreeFrame(f, g, Subtree(f, n), n);
  }

  /** A node at or below both a root and some other node: the other node is below the root. */
  lemma {:induction false} RootAbove(f: Heap, x: Body, root: Body, other: Body)
    requires Wf(f) && x in f && root in f && other in f && f[root].parent == null
    requires Under(f, x, root) && Under(f, x, other)
    ensures Under(f, other, root)
    decreases Depth(f, x)
  {
    DepthOfKid(f, x);
    if x != other {
      RootAbove(f, f[x].parent, root, other);
    }
  }

  /** Add, spelled out for a child that hangs nowhere. */
  lemma AddRootIs(f: Heap, p: Body, c: Body)
    requires Wf(f) && p in f && c in f && AddOk(f, p, c) && Adds(f, p, c) && f[c].parent == null
    ensures var g := Cleared(f, p, c);
            && Wf(g) && p in g && c in g && p != c && g[c].parent == null
            && Wf(Add(f, p, c)) && Add(f, p, c) == Attach(g, p, |g[p].kids|, c)
  {
    ClearedReady(f, p, c);
    var prior := Replaced(f, p, c);
    if prior != null {
      DestroyKeeps(f, prior);
    }
    AddWf(f, p, c);
  }

  /** The members of p once the old one is gone. */
  lemma ClearedKids(f: Heap, p: Body, c: Body)
    requires Wf(f) && p in f && c in f && AddOk(f, p, c) && Adds(f, p, c) && f[p].cursor == null
    requires p in Cleared(f, p, c)
    ensures var prior, d := Replaced(f, p, c), Cleared(f, p, c)[p];
            && d.name == f[p].name && d.value == f[p].value && d.cursor == null
            && (prior == null ==> d.kids == f[p].kids)
            && (prior != null ==> prior in f[p].kids && d.kids == Without(f[p].kids, Index(f[p].kids, prior)))
  {
    var prior := Replaced(f, p, c);
    if prior != null {
      ReplacedIsKid(f, p, c);
      assert Linked(f, p) && f[prior].parent == p;
      NoCycle(f, p, prior);
      assert Under(f, p, p);
      DetachAt(f, prior, p, Index(f[p].kids, prior));
    }
  }

  /** Nodes outside the tree under p are not touched by adding a detached tree to p. */
  lemma AddOther(f: Heap, p: Body, c: Body, x: Body)
    requires Wf(f) && p in f && c in f && AddOk(f, p, c) && Adds(f, p, c) && f[c].parent == null
    requires x in f && x != c && !Under(f, x, p)
    ensures x in Add(f, p, c) && Add(f, p, c)[x] == f[x]
  {
    AddRootIs(f, p, c);
    var prior := Replaced(f, p, c);
    assert Under(f, p, p);
    if prior != null {
      ReplacedIsKid(f, p, c);
      KidUnder(f, prior, p);
      assert Linked(f, p) && f[prior].parent == p;
      if Under(f, x, prior) {
        UnderTrans(f, x, prior, p);
      }
      DestroyKeeps(f, prior);
    }
  }

  /** Nothing below the new child lies below the old one. */
  lemma NotBelow(f: Heap, p: Body, c: Body, prior: Body, x: Body)
    requires Wf(f) && p in f && c in f && prior in f[p].kids && x in f && prior in f
    requires f[c].parent == null && !Under(f, p, c) && !Under(f, c, prior) && Under(f, x, c)
    ensures !Under(f, x, prior)
  {
    assert Linked(f, p) && Under(f, c, c);
    DepthOfKid(f, prior);
    if Under(f, x, prior) {
      RootAbove(f, x, c, prior);
    }
  }

  lemma NotAbove(f: Heap, p: Body, k: Body, c: Body)
    requires Wf(f) && p in f && c in f && !Under(f, p, c)
    requires k == c || k in f[p].kids
    ensures !Under(f, p, k)
  {
    if k != c {
      assert Linked(f, p);
      NoCycle(f, p, k);
    }
  }

  /** A child that stays keeps its tree, and so does the child that comes. */
  lemma AddKeepsTree(f: Heap, p: Body, c: Body, k: Body)
    requires Wf(f) && p in f && c in f && AddOk(f, p, c) && Adds(f, p, c) && f[c].parent == null
    requires k == c || (k in f[p].kids && k != Replaced(f, p, c))
    ensures k in f && k in Add(f, p, c) && Wf(Add(f, p, c)) && TreeOf(Add(f, p, c), k) == TreeOf(f, k)
  {
    var prior, g := Replaced(f, p, c), Add(f, p, c);
    AddRootIs(f, p, c);
    DepthOfKids(f, p);
    forall x | x in f && Under(f, x, k)
      ensures x in g && g[x].(parent := null) == f[x].(parent := null)
    {
      NotAbove(f, p, k, c);
      assert x != p;
      if prior != null {
        ReplacedIsKid(f, p, c);
        DestroyKeeps(f, prior);
        assert Linked(f, p) && f[prior].parent == p;
        if Under(f, x, prior) {
          if k == c {
            NotBelow(f, p, c, prior, x);
          } else {
            KidsApart(f, x, p, k, prior);
          }
        }
      }
    }
    SameSubtree(f, g, k);
  }

  ghost function KidTrees(f: Heap, s: seq<Body>): (ts: seq<Tree>)
    requires Wf(f) && forall k | k in s :: k in f
  {
    seq(|s|, i requires 0 <= i < |s| => assert s[i] in s; TreeOf(f, s[i]))
  }

  lemma TreeOfKids(f: Heap, n: Body)
    requires Wf(f) && n in f
    ensures forall k | k in f[n].kids :: k in f
    ensures TreeOf(f, n) == Tree(f[n].name, f[n].value, KidTrees(f, f[n].kids), CursorIndex(f[n]))
  {
    RoomOfKids(f, n);
    assert TreeOf(f, n).kids == KidTrees(f, f[n].kids);
  }

  function DropNamed(kids: seq<Tree>, name: string): seq<Tree> {
    if kids == [] then []
    else if kids[0].name == Some(name) then kids[1..]
    else [kids[0]] + DropNamed(kids[1..], name)
  }

  lemma {:induction false} DropAt(ts: seq<Tree>, i: nat, name: string)
    requires i < |ts| && ts[i].name == Some(name) && forall j | 0 <= j < i :: ts[j].name != Some(name)
    ensures DropNamed(ts, name) == Without(ts, i)
  {
    if i == 0 {
    } else {
      DropAt(ts[1..], i - 1, name);
      assert Without(ts, i) == [ts[0]] + Without(ts[1..], i - 1);
    }
  }

  lemma {:induction false} DropNone(ts: seq<Tree>, name: string)
    requires forall t | t in ts :: t.name != Some(name)
    ensures DropNamed(ts, name) == ts
  {
    if ts == [] {
    } else {
      DropNone(ts[1..], name);
      assert ts == [ts[0]] + ts[1..];
    }
  }

  /** The children of a container once t has been added: a struct member replaces its namesake. */
  function Grafted(v: Value, kids: seq<Tree>, t: Tree): seq<Tree> {
    (if v.Struct? && t.name.Some? then DropNamed(kids, t.name.value) else kids) + [t]
  }

  lemma MembersLeft(f: Heap, p: Body, c: Body)
    requires Wf(f) && p in f && c in f && AddOk(f, p, c) && Adds(f, p, c)
    requires forall k | k in f[p].kids :: k in f
    ensures var prior, ts := Replaced(f, p, c), KidTrees(f, f[p].kids);
            && (prior == null ==> Grafted(f[p].value, ts, TreeOf(f, c)) == ts + [TreeOf(f, c)])
            && (prior != null ==>
                  && prior in f[p].kids
                  && Grafted(f[p].value, ts, TreeOf(f, c)) == Without(ts, Index(f[p].kids, prior)) + [TreeOf(f, c)])
  {
    var prior, ks, ts := Replaced(f, p, c), f[p].kids, KidTrees(f, f[p].kids);
    assert Linked(f, p) && Proper(f, p);
    if f[p].value.Struct? {
      var name := f[c].name.value;
      PlainName(f, p, name);
      if prior == null {
        forall t | t in ts
          ensures t.name != Some(name)
        {
          var i := Index(ts, t);
          assert ks[i] in ks && t == TreeOf(f, ks[i]);
        }
        DropNone(ts, name);
      } else {
        var i := Index(ks, prior);
        forall j | 0 <= j < i
          ensures ts[j].name != Some(name)
        {
          assert Apart(ks, j, i) && ks[j] in ks && ks[i] in ks;
        }
        DropAt(ts, i, name);
      }
    }
  }

  lemma ReplacedKnown(f: Heap, p: Body, c: Body)
    requires Wf(f) && p in f && c in f && AddOk(f, p, c) && Adds(f, p, c)
    ensures Replaced(f, p, c) != null ==> Replaced(f, p, c) in f && Linked(f, p)
  {
  }

  lemma KidTreesWithout(f: Heap, ks: seq<Body>, i: nat)
    requires Wf(f) && i < |ks| && forall k | k in ks :: k in f
    ensures forall k | k in Without(ks, i) :: k in f
    ensures KidTrees(f, Without(ks, i)) == Without(KidTrees(f, ks), i)
  {
  }

  lemma KidTreesSnoc(f: Heap, g: Heap, left: seq<Body>, c: Body)
    requires Wf(f) && Wf(g)
    requires forall k | k in left :: k in f && k in g && TreeOf(g, k) == TreeOf(f, k)
    requires c in f && c in g && TreeOf(g, c) == TreeOf(f, c)
    ensures forall k | k in left + [c] :: k in g
    ensures KidTrees(g, left + [c]) == KidTrees(f, left) + [TreeOf(f, c)]
  {
  }

  lemma GraftedKids(f: Heap, p: Body, c: Body, left: seq<Body>)
    requires Wf(f) && p in f && c in f && AddOk(f, p, c) && Adds(f, p, c) && f[c].parent == null
    requires Linked(f, p) && Wf(Add(f, p, c))
    requires var prior := Replaced(f, p, c);
             if prior == null then left == f[p].kids
             else prior in f[p].kids && left == Without(f[p].kids, Index(f[p].kids, prior))
    ensures forall k | k in left + [c] :: k in Add(f, p, c)
    ensures KidTrees(Add(f, p, c), left + [c]) ==
            (if Replaced(f, p, c) == null then KidTrees(f, f[p].kids)
             else Without(KidTrees(f, f[p].kids), Index(f[p].kids, Replaced(f, p, c)))) + [TreeOf(f, c)]
  {
    var g, prior, ks := Add(f, p, c), Replaced(f, p, c), f[p].kids;
    if prior != null {
      WithoutElements(ks, Index(ks, prior));
      KidTreesWithout(f, ks, Index(ks, prior));
    }
    forall k | k in left
      ensures k in f && k in g && TreeOf(g, k) == TreeOf(f, k)
    {
      AddKeepsTree(f, p, c, k);
    }
    AddKeepsTree(f, p, c, c);
    KidTreesSnoc(f, g, left, c);
  }

  /** Adding a detached tree grafts it: nothing else below p changes but the member it replaces. */
  lemma AddGrafts(f: Heap, p: Body, c: Body)
    requires Wf(f) && p in f && c in f && AddOk(f, p, c) && Adds(f, p, c) && f[c].parent == null && f[p].cursor == null
    ensures var g := Add(f, p, c);
            && Wf(g) && p in g && g[p].parent == f[p].parent && g[p].cursor == null
            && TreeOf(g, p) == TreeOf(f, p).(kids := Grafted(f[p].value, TreeOf(f, p).kids, TreeOf(f, c)))
  {
    var g, prior, ks := Add(f, p, c), Replaced(f, p, c), f[p].kids;
    AddRootIs(f, p, c);
    ClearedKids(f, p, c);
    ReplacedKnown(f, p, c);
    if prior != null {
      DestroyKeeps(f, prior);
    }
    TreeOfKids(f, p);
    TreeOfKids(g, p);
    MembersLeft(f, p, c);
    var left := if prior == null then ks else Without(ks, Index(ks, prior));
    assert g[p].kids == left + [c];
    GraftedKids(f, p, c, left);
  }
}
