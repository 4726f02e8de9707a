/** The part of the document object model that the handler uses, on elements as values of type Item. */
module Documents {
  import opened Basics
  import opened Xml

  predicate Is(x: Item, tag: string) { x.Elem? && x.tag == tag }

  /** getElementsByTagName on an element with these children. */
  function ByTag(xs: seq<Item>, tag: string): (r: seq<Item>)
    ensures forall x | x in r :: x.Elem? && x.tag == tag
  {
    if xs == [] then [] else
      (if xs[0].Elem? then (if xs[0].tag == tag then [xs[0]] else []) + ByTag(xs[0].kids, tag) else [])
      + ByTag(xs[1..], tag)
  }

  /** getTextContent. */
  function TextContent(xs: seq<Item>): string {
    if xs == [] then "" else
      (if xs[0].Elem? then TextContent(xs[0].kids) else xs[0].text) + TextContent(xs[1..])
  }

  /** The text of a sequence of nodes is made of the texts of its parts; an element counts as its children. */
  lemma {:induction false} TextContentCat(xs: seq<Item>, ys: seq<Item>)
    ensures TextContent(xs + ys) == TextContent(xs) + TextContent(ys)
  {
    if xs == [] {
      assert xs + ys == ys;
    } else {
      assert (xs + ys)[0] == xs[0] && (xs + ys)[1..] == xs[1..] + ys;
      TextContentCat(xs[1..], ys);
    }
  }

  lemma TextContentOne(x: Item)
    ensures TextContent([x]) == if x.Elem? then TextContent(x.kids) else x.text
  {
    assert [x][1..] == [];
  }

  // ---- Places in a document ----

  /** The node at a place: the index of a child, of a child of that one, and so on. */
  function At(xs: seq<Item>, p: seq<nat>): Option<Item>
    decreases |p|
  {
    if p == [] || p[0] >= |xs| then None
    else if |p| == 1 then Some(xs[p[0]])
    else if xs[p[0]].Elem? then At(xs[p[0]].kids, p[1..])
    else None
  }

  /** Document order: an element comes before what it holds, and that before what follows it. */
  predicate Precedes(p: seq<nat>, q: seq<nat>)
    decreases |q|
  {
    q != [] && (p == [] || p[0] < q[0] || (p[0] == q[0] && Precedes(p[1..], q[1..])))
  }

  predicate Tagged(xs: seq<Item>, tag: string, p: seq<nat>) {
    At(xs, p).Some? && Is(At(xs, p).value, tag)
  }

  /** r holds elements with the tag in document order, at these places. */
  ghost predicate Places(xs: seq<Item>, tag: string, r: seq<Item>, ps: seq<seq<nat>>) {
    && |ps| == |r| && (forall i | 0 <= i < |r| :: At(xs, ps[i]) == Some(r[i]) && Is(r[i], tag))
    && (forall i, j | 0 <= i < j < |ps| :: Precedes(ps[i], ps[j]))
  }

  /** r holds the elements with the tag at any depth, each once, none missing, and in document order. */
  ghost predicate Lists(xs: seq<Item>, tag: string, r: seq<Item>, ps: seq<seq<nat>>) {
    Places(xs, tag, r, ps) && forall p {:trigger Tagged(xs, tag, p)} | Tagged(xs, tag, p) :: p in ps
  }

  function Below(ps: seq<seq<nat>>): seq<seq<nat>> {
    seq(|ps|, i requires 0 <= i < |ps| => [0] + ps[i])
  }

  function Shifted(ps: seq<seq<nat>>): seq<seq<nat>>
    requires forall i | 0 <= i < |ps| :: ps[i] != []
  {
    seq(|ps|, i requires 0 <= i < |ps| && ps[i] != [] => [ps[i][0] + 1] + ps[i][1..])
  }

  lemma AtBelow(xs: seq<Item>, p: seq<nat>)
    requires xs != [] && xs[0].Elem? && p != []
    ensures At(xs, [0] + p) == At(xs[0].kids, p)
  {
    assert ([0] + p)[1..] == p;
  }

  lemma AtShifted(xs: seq<Item>, p: seq<nat>)
    requires xs != [] && p != []
    ensures At(xs, [p[0] + 1] + p[1..]) == At(xs[1..], p)
  {
    var q := [p[0] + 1] + p[1..];
    assert q[1..] == p[1..] && |q| == |p|;
    if p[0] < |xs| - 1 {
      assert xs[q[0]] == xs[1..][p[0]];
    }
  }

  lemma PlacesCat(xs: seq<Item>, tag: string, a: seq<Item>, qa: seq<seq<nat>>, b: seq<Item>, qb: seq<seq<nat>>)
    requires Places(xs, tag, a, qa) && Places(xs, tag, b, qb)
    requires forall i, j | 0 <= i < |qa| && 0 <= j < |qb| :: Precedes(qa[i], qb[j])
    ensures Places(xs, tag, a + b, qa + qb)
  {
  }

  /** The places below the first node. */
  lemma BelowPlaces(xs: seq<Item>, tag: string, r: seq<Item>, ps: seq<seq<nat>>)
    requires xs != [] && xs[0].Elem? && Lists(xs[0].kids, tag, r, ps)
    ensures Places(xs, tag, r, Below(ps))
    ensures forall i | 0 <= i < |ps| :: |Below(ps)[i]| > 1 && Below(ps)[i][0] == 0
  {
    var qs := Below(ps);
    forall i | 0 <= i < |ps|
      ensures ps[i] != [] && At(xs, qs[i]) == Some(r[i]) && qs[i][1..] == ps[i]
    {
      assert At(xs[0].kids, ps[i]) == Some(r[i]);
      AtBelow(xs, ps[i]);
    }
    forall i, j | 0 <= i < j < |qs|
      ensures Precedes(qs[i], qs[j])
    {
      assert Precedes(ps[i], ps[j]);
    }
  }

  lemma AllBelow(xs: seq<Item>, tag: string, r: seq<Item>, ps: seq<seq<nat>>, p: seq<nat>)
    requires xs != [] && xs[0].Elem? && Lists(xs[0].kids, tag, r, ps)
    requires Tagged(xs, tag, p) && p[0] == 0 && |p| > 1
    ensures p in Below(ps)
  {
    assert p == [0] + p[1..] && Tagged(xs[0].kids, tag, p[1..]);
    var i :| 0 <= i < |ps| && ps[i] == p[1..];
    assert Below(ps)[i] == p;
  }

  /** The places in the first node. */
  lemma HeadPlaces(xs: seq<Item>, tag: string, r: seq<Item>, ps: seq<seq<nat>>) returns (qs: seq<seq<nat>>)
    requires xs != [] && xs[0].Elem? && Lists(xs[0].kids, tag, r, ps)
    ensures Places(xs, tag, (if xs[0].tag == tag then [xs[0]] else []) + r, qs)
    ensures forall i | 0 <= i < |qs| :: qs[i] != [] && qs[i][0] == 0
    ensures forall p {:trigger Tagged(xs, tag, p)} | Tagged(xs, tag, p) && p[0] == 0 :: p in qs
  {
    var own: seq<seq<nat>> := if xs[0].tag == tag then [[0]] else [];
    BelowPlaces(xs, tag, r, ps);
    PlacesCat(xs, tag, if xs[0].tag == tag then [xs[0]] else [], own, r, Below(ps));
    qs := own + Below(ps);
    forall p | Tagged(xs, tag, p) && p[0] == 0
      ensures p in qs
    {
      if |p| == 1 {
        assert p == [0] && own == [p];
      } else {
        AllBelow(xs, tag, r, ps, p);
      }
    }
  }

  /** The places behind the first node. */
  lemma TailPlaces(xs: seq<Item>, tag: string, r: seq<Item>, ps: seq<seq<nat>>) returns (qs: seq<seq<nat>>)
    requires xs != [] && Lists(xs[1..], tag, r, ps)
    ensures Places(xs, tag, r, qs)
    ensures forall i | 0 <= i < |qs| :: qs[i] != [] && qs[i][0] > 0
    ensures forall p {:trigger Tagged(xs, tag, p)} | Tagged(xs, tag, p) && p[0] > 0 :: p in qs
  {
    assert forall i | 0 <= i < |ps| :: At(xs[1..], ps[i]) == Some(r[i]);
    qs := Shifted(ps);
    forall i | 0 <= i < |ps|
      ensures At(xs, qs[i]) == Some(r[i])
    {
      AtShifted(xs, ps[i]);
    }
    forall i, j | 0 <= i < j < |qs|
      ensures Precedes(qs[i], qs[j])
    {
      assert Precedes(ps[i], ps[j]);
      assert qs[i][1..] == ps[i][1..] && qs[j][1..] == ps[j][1..];
    }
    forall p | Tagged(xs, tag, p) && p[0] > 0
      ensures p in qs
    {
      var q := [p[0] - 1] + p[1..];
      AtShifted(xs, q);
      assert q[1..] == p[1..] && [q[0] + 1] + q[1..] == p;
      assert Tagged(xs[1..], tag, q);
      var i :| 0 <= i < |ps| && ps[i] == q;
      assert qs[i] == p;
    }
  }

  lemma TextLists(xs: seq<Item>, tag: string, rest: seq<seq<nat>>) returns (ps: seq<seq<nat>>)
    requires xs != [] && xs[0].Text? && Lists(xs[1..], tag, ByTag(xs[1..], tag), rest)
    ensures Lists(xs, tag, ByTag(xs, tag), ps)
  {
    ps := TailPlaces(xs, tag, ByTag(xs[1..], tag), rest);
    assert ByTag(xs, tag) == ByTag(xs[1..], tag);
    assert forall p {:trigger Tagged(xs, tag, p)} | Tagged(xs, tag, p) :: p[0] > 0;
  }

  lemma ElemLists(xs: seq<Item>, tag: string, kids: seq<seq<nat>>, rest: seq<seq<nat>>) returns (ps: seq<seq<nat>>)
    requires xs != [] && xs[0].Elem?
    requires Lists(xs[0].kids, tag, ByTag(xs[0].kids, tag), kids) && Lists(xs[1..], tag, ByTag(xs[1..], tag), rest)
    ensures Lists(xs, tag, ByTag(xs, tag), ps)
  {
    var a := (if xs[0].tag == tag then [xs[0]] else []) + ByTag(xs[0].kids, tag);
    var head := HeadPlaces(xs, tag, ByTag(xs[0].kids, tag), kids);
    var tail := TailPlaces(xs, tag, ByTag(xs[1..], tag), rest);
    PlacesCat(xs, tag, a, head, ByTag(xs[1..], tag), tail);
    ps := head + tail;
  }

  /**
   * getElementsByTagName finds the elements with the tag at any depth, each once, none missing, and
   * in document order.
   */
  lemma {:induction false} ByTagLists(xs: seq<Item>, tag: string) returns (ps: seq<seq<nat>>)
    ensures Lists(xs, tag, ByTag(xs, tag), ps)
  {
    if xs == [] {
      ps := [];
    } else {
      var rest := ByTagLists(xs[1..], tag);
      if xs[0].Elem? {
        var kids := ByTagLists(xs[0].kids, tag);
        ps := ElemLists(xs, tag, kids, rest);
      } else {
        ps := TextLists(xs, tag, rest);
      }
    }
  }

  // ---- First and only elements ----

  /** The first element with a tag in document order is at p. */
  ghost predicate FirstAt(xs: seq<Item>, tag: string, p: seq<nat>) {
    Tagged(xs, tag, p) && forall q {:trigger Tagged(xs, tag, q)} | Tagged(xs, tag, q) :: q == p || Precedes(p, q)
  }

  /** The only element with a tag is at p. */
  ghost predicate SoleAt(xs: seq<Item>, tag: string, p: seq<nat>) {
    Tagged(xs, tag, p) && forall q {:trigger Tagged(xs, tag, q)} | Tagged(xs, tag, q) :: q == p
  }

  lemma {:induction false} PrecedesNot(p: seq<nat>, q: seq<nat>)
    requires Precedes(p, q)
    ensures p != q && !Precedes(q, p)
    decreases |q|
  {
    if p != [] && p[0] == q[0] {
      PrecedesNot(p[1..], q[1..]);
    }
  }

  /** item(0) of the list is the first element, and the list is empty exactly when there is none. */
  lemma FirstByTag(xs: seq<Item>, tag: string)
    ensures ByTag(xs, tag) == [] <==> forall p :: !Tagged(xs, tag, p)
    ensures forall p {:trigger FirstAt(xs, tag, p)} | FirstAt(xs, tag, p) ::
              ByTag(xs, tag) != [] && At(xs, p) == Some(ByTag(xs, tag)[0])
    ensures ByTag(xs, tag) != [] ==> exists p :: FirstAt(xs, tag, p)
  {
    var ps := ByTagLists(xs, tag);
    if ps != [] {
      assert Tagged(xs, tag, ps[0]) && FirstAt(xs, tag, ps[0]);
      forall p | FirstAt(xs, tag, p)
        ensures p == ps[0]
      {
        if p != ps[0] {
          PrecedesNot(p, ps[0]);
        }
      }
    }
  }

  /** The list has one entry exactly when there is only one element. */
  lemma OnlyByTag(xs: seq<Item>, tag: string)
    ensures forall p {:trigger SoleAt(xs, tag, p)} | SoleAt(xs, tag, p) ::
              |ByTag(xs, tag)| == 1 && At(xs, p) == Some(ByTag(xs, tag)[0])
    ensures |ByTag(xs, tag)| == 1 ==> exists p :: SoleAt(xs, tag, p)
  {
    var r := ByTag(xs, tag);
    var ps := ByTagLists(xs, tag);
    forall p | SoleAt(xs, tag, p)
      ensures |r| == 1 && At(xs, p) == Some(r[0])
    {
      assert p in ps;
      if |ps| > 1 {
        assert Tagged(xs, tag, ps[0]) && Tagged(xs, tag, ps[1]);
        PrecedesNot(ps[0], ps[1]);
      }
    }
    if |r| == 1 {
      assert Tagged(xs, tag, ps[0]) && SoleAt(xs, tag, ps[0]);
    }
  }
}
