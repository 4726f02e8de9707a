/** DDF::add, addbefore, addafter and the iteration cursor. */
module Ops {
  import opened Basics
  import opened Forest
  import opened Paths

  // ---- Moving a node ----

  /** Detach c from wherever it is and put it at position i below p. */
  ghost function Move(f: Heap, p: Body, i: nat, c: Body): Heap
    requires Wf(f) && p in f && c in f && p != c && i <= |Detach(f, c)[p].kids|
  {
    DetachWf(f, c);
    Attach(Detach(f, c), p, i, c)
  }

  lemma DetachKeepsLabels(f: Heap, n: Body)
    requires Wf(f) && n in f
    ensures Detach(f, n).Keys == f.Keys
    ensures forall x | x in f :: Detach(f, n)[x].name == f[x].name && Detach(f, n)[x].value == f[x].value
    ensures forall x, y | x in f && y in Detach(f, n)[x].kids :: y in f[x].kids
  {
    assert Linked(f, n);
    if f[n].parent != null {
      assert Linked(f, f[n].parent);
      WithoutElements(f[f[n].parent].kids, Index(f[f[n].parent].kids, n));
    }
  }

  /** What is known once c has been detached on its way to p. */
  lemma MoveReady(f: Heap, p: Body, c: Body)
    requires Wf(f) && p in f && c in f && !Under(f, p, c) && Fits(f, p, c)
    ensures var g := Detach(f, c);
            && Wf(g) && p != c && p in g && c in g && g[c].parent == null
            && !Under(g, p, c) && Fits(g, p, c)
  {
    var g := Detach(f, c);
    DetachWf(f, c);
    DetachKeepsLabels(f, c);
    DetachSubtree(f, c, p);
    assert Linked(f, p) && Linked(g, p);
    if f[p].value.Struct? {
      assert Named(f, c) && Named(g, c);
      assert forall k | k in g[p].kids :: k in f && f[k].name != f[c].name;
    }
  }

  lemma MoveWf(f: Heap, p: Body, i: nat, c: Body)
    requires Wf(f) && p in f && c in f && p != c && i <= |Detach(f, c)[p].kids|
    requires !Under(f, p, c)
    requires Fits(f, p, c)
    ensures Wf(Move(f, p, i, c))
    ensures Move(f, p, i, c).Keys == f.Keys
  {
    MoveReady(f, p, c);
    DetachKeepsLabels(f, c);
    AttachWf(Detach(f, c), p, i, c);
  }

  // ---- add ----

  lemma NoCycle(h: Heap, p: Body, c: Body)
    requires Wf(h) && c in h && h[c].parent == p
    ensures p in h && !Under(h, p, c)
  {
    DepthOfKid(h, c);
    assert Linked(h, c);
    if Under(h, p, c) {
      UnderDepth(h, p, c);
    }
  }

  /** The child an add would replace. */
  ghost function Replaced(f: Heap, p: Body, c: Body): (r: Body?)
    requires Wf(f) && p in f && c in f
    ensures Handle(f, r)
  {
    if f[p].value.Struct? && f[c].name.Some? then PathGet(f, p, f[c].name.value) else null
  }

  /** DDF::add would change the tree. */
  ghost predicate Adds(f: Heap, p: Body, c: Body)
    requires p in f && c in f
  {
    && f[p].value.Container()
    && f[c].parent != p
    && (f[p].value.Struct? ==> f[c].name.Some?)
  }

  /**
   * What add demands of its caller when it is going to change the tree: a struct member is
   * called by a plain name, and the child is neither the receiver, nor an ancestor of it, nor
   * part of what gets replaced.
   */
  ghost predicate AddOk(f: Heap, p: Body, c: Body)
    requires Wf(f) && p in f && c in f
  {
    Adds(f, p, c) ==>
      && !Under(f, p, c)
      && (f[p].value.Struct? ==> Named(f, c))
      && (Replaced(f, p, c) != null ==> !Under(f, c, Replaced(f, p, c)))
  }

  ghost function Cleared(f: Heap, p: Body, c: Body): Heap
    requires Wf(f) && p in f && c in f
  {
    var prior := Replaced(f, p, c);
    if prior == null then f else Destroy(f, prior)
  }

  lemma DestroyKeeps(f: Heap, n: Body)
    requires Wf(f) && n in f
    ensures Destroy(f, n).Keys == f.Keys - Subtree(f, n)
    ensures forall x | x in Destroy(f, n) ::
              && Destroy(f, n)[x].name == f[x].name
              && Destroy(f, n)[x].value == f[x].value
              && Destroy(f, n)[x].parent == f[x].parent
              && (x != f[n].parent ==> Destroy(f, n)[x] == f[x])
  {
    DetachWf(f, n);
    assert Under(f, n, n);
    assert Linked(f, n);
  }

  lemma DestroyShrinks(f: Heap, n: Body, x: Body)
    requires Wf(f) && n in f && x in Destroy(f, n)
    ensures x in f
    ensures forall y | y in Destroy(f, n)[x].kids :: y in f[x].kids && y != n
  {
    var g := Detach(f, n);
    DetachWf(f, n);
    DetachKeepsLabels(f, n);
    assert Linked(g, x) && g[n].parent == null;
  }

  /** Once the old member is destroyed, no member of that name is left. */
  lemma ClearedFits(f: Heap, p: Body, c: Body)
    requires Wf(f) && p in f && c in f && Adds(f, p, c) && AddOk(f, p, c)
    requires p in Cleared(f, p, c) && c in Cleared(f, p, c) && Wf(Cleared(f, p, c))
    ensures Fits(Cleared(f, p, c), p, c)
  {
    var prior, g := Replaced(f, p, c), Cleared(f, p, c);
    if f[p].value.Struct? {
      assert Linked(f, p) && Proper(f, p) && Linked(g, p);
      PlainName(f, p, f[c].name.value);
      if prior != null {
        DestroyKeeps(f, prior);
        DestroyShrinks(f, prior, p);
        assert forall k | k in g[p].kids :: k in f[p].kids && k != prior && g[k].name == f[k].name;
      }
    }
  }

  lemma ReplacedIsKid(f: Heap, p: Body, c: Body)
    requires Wf(f) && p in f && c in f && Adds(f, p, c) && AddOk(f, p, c) && Replaced(f, p, c) != null
    ensures Replaced(f, p, c) in f[p].kids
  {
  }

  /** After the old member is gone, the struct has room for the new one. */
  lemma ClearedReady(f: Heap, p: Body, c: Body)
    requires Wf(f) && p in f && c in f && Adds(f, p, c) && AddOk(f, p, c)
    ensures Wf(Cleared(f, p, c)) && p in Cleared(f, p, c) && c in Cleared(f, p, c)
    ensures !Under(Cleared(f, p, c), p, c) && Fits(Cleared(f, p, c), p, c)
  {
    var prior := Replaced(f, p, c);
    if prior != null {
      DestroyWf(f, prior);
      DestroyKeeps(f, prior);
      ReplacedIsKid(f, p, c);
      assert Linked(f, p);
      NoCycle(f, p, prior);
      SameAncestry(f, Cleared(f, p, c), p, c);
    }
    ClearedFits(f, p, c);
  }

  ghost function Add(f: Heap, p: Body, c: Body): Heap
    requires Wf(f) && p in f && c in f && AddOk(f, p, c)
  {
    if !Adds(f, p, c) then f else
      ClearedReady(f, p, c);
      var g := Cleared(f, p, c);
      DetachWf(g, c);
      Move(g, p, |Detach(g, c)[p].kids|, c)
  }

  lemma AddWf(f: Heap, p: Body, c: Body)
    requires Wf(f) && p in f && c in f && AddOk(f, p, c)
    ensures Wf(Add(f, p, c))
  {
    if Adds(f, p, c) {
      ClearedReady(f, p, c);
      var g := Cleared(f, p, c);
      DetachWf(g, c);
      MoveWf(g, p, |Detach(g, c)[p].kids|, c);
    }
  }

  // ---- addbefore and addafter ----

  /** The anchored insertions act on lists only, next to a child of the list. */
  ghost predicate Anchors(f: Heap, p: Body, anchor: Body)
    requires p in f && anchor in f
  {
    f[p].value.List? && f[anchor].parent == p
  }

  ghost predicate AnchoredOk(f: Heap, p: Body, c: Body, anchor: Body)
    requires Wf(f) && p in f && c in f && anchor in f
  {
    Anchors(f, p, anchor) ==> c != anchor && !Under(f, p, c)
  }

  lemma AnchorStays(f: Heap, p: Body, c: Body, anchor: Body)
    requires Wf(f) && p in f && c in f && anchor in f && Anchors(f, p, anchor) && AnchoredOk(f, p, c, anchor)
    ensures p != c && anchor in Detach(f, c)[p].kids
  {
    assert Linked(f, anchor) && Linked(f, c) && Linked(f, p);
    if f[c].parent == p {
      WithoutElements(f[p].kids, Index(f[p].kids, c));
    }
  }

  ghost function AddBeside(f: Heap, p: Body, c: Body, anchor: Body, after: bool): Heap
    requires Wf(f) && p in f && c in f && anchor in f && AnchoredOk(f, p, c, anchor)
  {
    if !Anchors(f, p, anchor) then f else
      AnchorStays(f, p, c, anchor);
      var i := Index(Detach(f, c)[p].kids, anchor);
      Move(f, p, if after then i + 1 else i, c)
  }

  /** Where an anchored insertion ends up. */
  lemma AddBesideAt(f: Heap, p: Body, c: Body, anchor: Body, after: bool)
    requires Wf(f) && p in f && c in f && anchor in f && Anchors(f, p, anchor) && AnchoredOk(f, p, c, anchor)
    ensures var g := Detach(f, c);
            && Wf(g) && p != c && p in g && c in g && g[c].parent == null
            && !Under(g, p, c) && Fits(g, p, c) && anchor in g[p].kids
    ensures var i := Index(Detach(f, c)[p].kids, anchor);
            AddBeside(f, p, c, anchor, after) == Attach(Detach(f, c), p, if after then i + 1 else i, c)
  {
    AnchorStays(f, p, c, anchor);
    MoveReady(f, p, c);
  }

  lemma AddBesideWf(f: Heap, p: Body, c: Body, anchor: Body, after: bool)
    requires Wf(f) && p in f && c in f && anchor in f && AnchoredOk(f, p, c, anchor)
    ensures Wf(AddBeside(f, p, c, anchor, after))
  {
    if Anchors(f, p, anchor) {
      AnchorStays(f, p, c, anchor);
      var i := Index(Detach(f, c)[p].kids, anchor);
      MoveWf(f, p, if after then i + 1 else i, c);
    }
  }

  lemma InsertedBeside<T>(s: seq<T>, i: nat, c: T, after: bool)
    requires i < |s| && NoDup(InsertAt(s, if after then i + 1 else i, c))
    ensures var t := InsertAt(s, if after then i + 1 else i, c);
            && c in t && s[i] in t
            && (if after then Index(t, c) == Index(t, s[i]) + 1 else Index(t, s[i]) == Index(t, c) + 1)
            && Without(t, Index(t, c)) == s
  {
    var at, other := if after then i + 1 else i, if after then i else i + 1;
    var t := InsertAt(s, at, c);
    assert t[at] == c && t[other] == s[i];
    OnlyAt(t, at);
    OnlyAt(t, other);
    assert Without(t, at) == s;
  }

  /** The child stands right before or right behind its anchor, and the other children as they did. */
  lemma BesideAnchor(f: Heap, p: Body, c: Body, anchor: Body, after: bool)
    requires Wf(f) && p in f && c in f && anchor in f && Anchors(f, p, anchor) && AnchoredOk(f, p, c, anchor)
    ensures p in Detach(f, c) && p in AddBeside(f, p, c, anchor, after)
    ensures var ks := AddBeside(f, p, c, anchor, after)[p].kids;
            && c in ks && anchor in ks
            && (if after then Index(ks, c) == Index(ks, anchor) + 1 else Index(ks, anchor) == Index(ks, c) + 1)
            && Without(ks, Index(ks, c)) == Detach(f, c)[p].kids
  {
    AddBesideAt(f, p, c, anchor, after);
    AddBesideWf(f, p, c, anchor, after);
    assert Linked(AddBeside(f, p, c, anchor, after), p);
    var rest := Detach(f, c)[p].kids;
    InsertedBeside(rest, Index(rest, anchor), c, after);
  }

  lemma MoveParents(f: Heap, p: Body, i: nat, c: Body)
    requires Wf(f) && p in f && c in f && p != c && i <= |Detach(f, c)[p].kids|
    ensures Move(f, p, i, c).Keys == f.Keys && Move(f, p, i, c)[c].parent == p
    ensures forall y | y in f && y != c :: Move(f, p, i, c)[y].parent == f[y].parent
  {
    DetachWf(f, c);
  }

  lemma {:induction false} CycleAbove(f: Heap, h: Heap, x: Body, c: Body)
    requires Wf(f) && Wf(h) && x in f && c in f && h.Keys == f.Keys && Under(f, x, c)
    requires forall y | y in f && y != c :: h[y].parent == f[y].parent
    ensures Under(h, x, c)
    decreases Depth(f, x)
  {
    DepthOfKid(f, x);
    DepthOfKid(h, x);
    if x != c {
      CycleAbove(f, h, f[x].parent, c);
    }
  }

  /** The domain condition is exact: moving a node below itself always destroys well-formedness. */
  lemma MoveNeedsNonAncestor(f: Heap, p: Body, i: nat, c: Body)
    requires Wf(f) && p in f && c in f && p != c && i <= |Detach(f, c)[p].kids| && Fits(f, p, c)
    ensures Wf(Move(f, p, i, c)) <==> !Under(f, p, c)
  {
    if !Under(f, p, c) {
      MoveWf(f, p, i, c);
    } else {
      var h := Move(f, p, i, c);
      MoveParents(f, p, i, c);
      if Wf(h) {
        CycleAbove(f, h, p, c);
        NoCycle(h, p, c);
      }
    }
  }

  // ---- The cursor ----

  ghost function NextOf(d: Node, k: Body): Body?
    requires k in d.kids
  {
    var i := Index(d.kids, k);
    if i + 1 < |d.kids| then d.kids[i + 1] else null
  }

  ghost function PrevOf(d: Node, k: Body): Body?
    requires k in d.kids
  {
    var i := Index(d.kids, k);
    if i == 0 then null else d.kids[i - 1]
  }

  ghost function LastKid(d: Node): Body? {
    if d.kids == [] then null else d.kids[|d.kids| - 1]
  }

  datatype Walk = First | Next | Last | Previous

  /** The new cursor and the child handed out by first, next, last and previous. */
  ghost function Advance(d: Node, w: Walk): (r: (Body?, Body?))
    requires d.cursor != null ==> d.cursor in d.kids
    ensures r.0 != null ==> r.0 in d.kids
    ensures r.1 != null ==> r.1 in d.kids
  {
    if !d.value.Container() || d.kids == [] then
      (if d.value.Container() && w == First then null else d.cursor, null)
    else match w
      case First => (d.kids[0], d.kids[0])
      case Next =>
        if d.cursor == LastKid(d) then (d.cursor, null)
        else if d.cursor == null then (d.kids[0], d.kids[0])
        else (NextOf(d, d.cursor), NextOf(d, d.cursor))
      case Last => (PrevOf(d, LastKid(d)), LastKid(d))
      case Previous =>
        if d.cursor == null then (null, null) else (PrevOf(d, d.cursor), d.cursor)
  }
}
