/** Iterating over the children of a node, possibly removing the child just visited. */
module Iteration {
  import opened Basics
  import opened Forest
  import opened Ops

  /** What removing child k does to the node that holds it. */
  ghost function Cut(d: Node, k: Body): Node
    requires k in d.kids
  {
    var i := Index(d.kids, k);
    d.(kids := Without(d.kids, i), cursor := CursorWithout(d, i))
  }

  ghost predicate CursorOk(d: Node) {
    NoDup(d.kids) && (d.cursor != null ==> d.cursor in d.kids)
  }

  lemma CutOk(d: Node, k: Body)
    requires CursorOk(d) && k in d.kids
    ensures CursorOk(Cut(d, k))
  {
    var i := Index(d.kids, k);
    WithoutElements(d.kids, i);
    assert i > 0 ==> Apart(d.kids, i - 1, i);
  }

  /**
   * The children handed out by one call of w followed by calls of again, for as long as they
   * hand one out; cut[j] says whether the child of the j-th visit is removed after its visit.
   */
  ghost function Tour(d: Node, w: Walk, again: Walk, cut: seq<bool>): seq<Body>
    requires CursorOk(d)
    decreases |cut|
  {
    var (c, k) := Advance(d, w);
    if k == null || cut == [] then [] else
      var e := d.(cursor := c);
      CutOk(e, k);
      [k] + Tour(if cut[0] then Cut(e, k) else e, again, again, cut[1..])
  }

  /** The same walk on the heap: the visited child is removed by DDF::remove. */
  ghost function HeapTour(f: Heap, n: Body, w: Walk, again: Walk, cut: seq<bool>): seq<Body>
    requires Wf(f) && n in f
    decreases |cut|
  {
    assert Linked(f, n) && Proper(f, n);
    var (c, k) := Advance(f[n], w);
    if k == null || cut == [] then [] else
      SetCursorWf(f, n, c);
      var g := SetCursor(f, n, c);
      DetachWf(g, k);
      [k] + HeapTour(if cut[0] then Detach(g, k) else g, n, again, again, cut[1..])
  }

  lemma {:induction false} HeapTourIsTour(f: Heap, n: Body, w: Walk, again: Walk, cut: seq<bool>)
    requires Wf(f) && n in f
    ensures Linked(f, n) && Proper(f, n)
    ensures HeapTour(f, n, w, again, cut) == Tour(f[n], w, again, cut)
    decreases |cut|
  {
    assert Linked(f, n) && Proper(f, n);
    var (c, k) := Advance(f[n], w);
    if k != null && cut != [] {
      SetCursorWf(f, n, c);
      var g := SetCursor(f, n, c);
      assert Linked(g, n) && Linked(g, k);
      DetachWf(g, k);
      DepthOfKid(g, k);
      assert Detach(g, k)[n] == Cut(g[n], k);
      HeapTourIsTour(if cut[0] then Detach(g, k) else g, n, again, again, cut[1..]);
    }
  }

  lemma Split(s: seq<Body>, a: seq<Body>, b: seq<Body>)
    requires s == a + b && NoDup(s)
    ensures a != [] ==> a[|a| - 1] in s && Index(s, a[|a| - 1]) == |a| - 1
    ensures b != [] ==> b[0] in s && Index(s, b[0]) == |a|
  {
    if a != [] {
      OnlyAt(s, |a| - 1);
    }
    if b != [] {
      OnlyAt(s, |a|);
    }
  }

  ghost function LastOf(s: seq<Body>): Body? {
    if s == [] then null else s[|s| - 1]
  }

  lemma NextStep(d: Node, seen: seq<Body>, rest: seq<Body>)
    requires CursorOk(d) && d.value.Container() && d.kids == seen + rest && d.cursor == LastOf(seen)
    ensures Advance(d, Next) == if rest == [] then (d.cursor, null) else (rest[0], rest[0])
    ensures rest != [] ==> rest[0] in d.kids && Index(d.kids, rest[0]) == |seen|
  {
    Split(d.kids, seen, rest);
    assert rest != [] && seen != [] ==> Apart(d.kids, |seen| - 1, |d.kids| - 1);
  }

  /** The node after visiting rest[0]. */
  ghost function AfterNext(d: Node, seen: seq<Body>, rest: seq<Body>, cut: bool): Node
    requires rest != []
  {
    if cut then d.(kids := seen + rest[1..], cursor := LastOf(seen)) else d.(cursor := rest[0])
  }

  lemma NextVisit(d: Node, seen: seq<Body>, rest: seq<Body>, cut: seq<bool>)
    requires CursorOk(d) && d.value.Container() && d.kids == seen + rest && d.cursor == LastOf(seen)
    requires rest != [] && cut != []
    ensures CursorOk(AfterNext(d, seen, rest, cut[0]))
    ensures Tour(d, Next, Next, cut) == [rest[0]] + Tour(AfterNext(d, seen, rest, cut[0]), Next, Next, cut[1..])
  {
    NextStep(d, seen, rest);
    var e := d.(cursor := rest[0]);
    CutOk(e, rest[0]);
    assert Cut(e, rest[0]).kids == seen + rest[1..];
    assert Cut(e, rest[0]) == AfterNext(d, seen, rest, true);
  }

  /** With the cursor on the last child seen, next goes through the rest. */
  lemma {:induction false} NextTour(d: Node, seen: seq<Body>, rest: seq<Body>, cut: seq<bool>)
    requires CursorOk(d) && d.value.Container() && d.kids == seen + rest && d.cursor == LastOf(seen)
    requires |cut| >= |rest|
    ensures Tour(d, Next, Next, cut) == rest
    decreases |rest|
  {
    if rest == [] {
      NextStep(d, seen, rest);
    } else {
      NextVisit(d, seen, rest, cut);
      var e := AfterNext(d, seen, rest, cut[0]);
      if cut[0] {
        NextTour(e, seen, rest[1..], cut[1..]);
      } else {
        assert e.kids == (seen + [rest[0]]) + rest[1..];
        NextTour(e, seen + [rest[0]], rest[1..], cut[1..]);
      }
      assert rest == [rest[0]] + rest[1..];
    }
  }

  lemma TourFromFirst(d: Node, cut: seq<bool>)
    requires CursorOk(d) && d.value.Container()
    ensures Tour(d, First, Next, cut) == Tour(d.(cursor := null), Next, Next, cut)
  {
  }

  ghost function Reversed(s: seq<Body>): (r: seq<Body>)
    ensures |r| == |s|
    ensures forall i | 0 <= i < |s| :: r[i] == s[|s| - 1 - i]
  {
    if s == [] then [] else [s[|s| - 1]] + Reversed(s[..|s| - 1])
  }

  /** With the cursor on the next child to come, previous goes through what is left, backwards. */
  lemma {:induction false} PreviousTour(d: Node, rest: seq<Body>, seen: seq<Body>, cut: seq<bool>)
    requires CursorOk(d) && d.value.Container() && d.kids == rest + seen && d.cursor == LastOf(rest)
    requires |cut| >= |rest|
    ensures Tour(d, Previous, Previous, cut) == Reversed(rest)
    decreases |rest|
  {
    Split(d.kids, rest, seen);
    if rest == [] {
    } else {
      var i := |rest| - 1;
      var k, left := rest[i], rest[..i];
      Split(d.kids, left, [k] + seen);
      assert d.kids == left + ([k] + seen);
      assert Advance(d, Previous) == (LastOf(left), k);
      var e := d.(cursor := LastOf(left));
      CutOk(e, k);
      assert i > 0 ==> Apart(d.kids, i - 1, i);
      if cut[0] {
        assert Without(d.kids, i) == left + seen;
        PreviousTour(Cut(e, k), left, seen, cut[1..]);
      } else {
        PreviousTour(e, left, [k] + seen, cut[1..]);
      }
    }
  }

  lemma TourFromLast(d: Node, cut: seq<bool>)
    requires CursorOk(d) && d.value.Container()
    ensures Tour(d, Last, Previous, cut) == Tour(d.(cursor := LastKid(d)), Previous, Previous, cut)
  {
  }

  /**
   * first and then next hand out every child exactly once and in order, whichever of them are
   * removed right after being visited.
   */
  lemma ForwardTour(f: Heap, n: Body, cut: seq<bool>)
    requires Wf(f) && n in f && f[n].value.Container() && |cut| >= |f[n].kids|
    ensures HeapTour(f, n, First, Next, cut) == f[n].kids
  {
    HeapTourIsTour(f, n, First, Next, cut);
    TourFromFirst(f[n], cut);
    NextTour(f[n].(cursor := null), [], f[n].kids, cut);
  }

  /** last and then previous hand out the children in reverse, under the same removals. */
  lemma BackwardTour(f: Heap, n: Body, cut: seq<bool>)
    requires Wf(f) && n in f && f[n].value.Container() && |cut| >= |f[n].kids|
    ensures HeapTour(f, n, Last, Previous, cut) == Reversed(f[n].kids)
  {
    HeapTourIsTour(f, n, Last, Previous, cut);
    TourFromLast(f[n], cut);
    PreviousTour(f[n].(cursor := LastKid(f[n])), f[n].kids, [], cut);
  }
}
