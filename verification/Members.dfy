/** DDF::addmember: creating the node a dotted path denotes. */
module Members {
  import opened Basics
  import opened Forest
  import opened Paths
  import opened Ops

  /** The components that addmember will use: up to the first empty one, and none an index. */
  predicate Addable(path: string)
    decreases |path|
  {
    var (name, rest) := Token(path);
    name != "" ==> MemberName(name) && Addable(rest)
  }

  /** A plain path without empty components. */
  predicate FullPath(path: string)
    ensures FullPath(path) ==> Addable(path)
    decreases |path|
  {
    var (name, rest) := Token(path);
    name != "" && MemberName(name) && (rest != "" ==> FullPath(rest))
  }

  /** Nodes that can be allocated next. */
  ghost predicate Supply(f: Heap, supply: seq<Body>) {
    NoDup(supply) && forall b | b in supply :: b !in f
  }

  /**
   * The heap and the node addmember returns, the nodes of the supply it did not use, and
   * whether the supply was too short.
   */
  datatype Added = Added(heap: Heap, node: Body?, spare: seq<Body>, short: bool)

  /** Nodes are only added from the supply, and no node that survives gets another parent. */
  ghost predicate Evolves(f: Heap, g: Heap, supply: seq<Body>) {
    && (forall x | x in g :: x in f || x in supply)
    && (forall x | x in f && x in g :: g[x].parent == f[x].parent)
  }

  lemma EvolvesOn(f: Heap, g: Heap, h: Heap, supply: seq<Body>, spare: seq<Body>)
    requires Supply(f, supply) && forall b | b in spare :: b in supply
    requires Evolves(f, g, supply) && Evolves(g, h, spare)
    ensures Evolves(f, h, supply)
  {
  }

  /** The receiver, turned into a struct if it is not one. */
  ghost function AsStruct(f: Heap, n: Body): (g: Heap)
    requires Wf(f) && n in f
    ensures Wf(g) && n in g && g[n].value.Struct? && g.Keys <= f.Keys
    ensures Evolves(f, g, [])
  {
    if f[n].value.Struct? then f else
      SetValueSteps(f, n, Struct);
      SetValue(f, n, Struct)
  }

  lemma NewMemberReady(f: Heap, n: Body, name: string, b: Body)
    requires Wf(f) && n in f && f[n].value.Struct? && MemberName(name) && b !in f
    requires PathGet(f, n, name) == null
    ensures var g := Create(f, b, Some(name));
            && Wf(g) && AddOk(g, n, b) && Add(g, n, b) == Attach(g, n, |f[n].kids|, b)
    ensures Wf(Attach(Create(f, b, Some(name)), n, |f[n].kids|, b))
  {
    var g := Create(f, b, Some(name));
    CreateWf(f, b, Some(name));
    PlainName(f, n, name);
    PlainName(g, n, name);
    assert Linked(f, n) && Linked(g, n);
    SameAncestry(g, f, n, b);
    if Under(f, n, b) {
      UnderKnown(f, n, b);
    }
    assert MemberNamed(g, g[n].kids, name) == null;
    AddWf(g, n, b);
  }

  lemma SupplyTail(f: Heap, supply: seq<Body>)
    requires Supply(f, supply) && supply != []
    ensures NoDup(supply[1..]) && supply[0] !in supply[1..]
    ensures forall b | b in supply[1..] :: b in supply
  {
    forall i, j | 0 <= i < j < |supply[1..]|
      ensures Apart(supply[1..], i, j)
    {
      assert Apart(supply, i + 1, j + 1);
    }
    forall i | 0 <= i < |supply[1..]|
      ensures supply[1..][i] != supply[0]
    {
      assert Apart(supply, 0, i + 1);
    }
  }

  /** The member of struct n called name, created from the supply if there is none. */
  ghost function Member(f: Heap, n: Body, name: string, supply: seq<Body>): (r: Added)
    requires Wf(f) && n in f && f[n].value.Struct? && MemberName(name) && Supply(f, supply)
    ensures Wf(r.heap) && n in r.heap && Handle(r.heap, r.node)
    ensures Supply(r.heap, r.spare)
    ensures !r.short ==> r.node != null && r.node in r.heap && r.heap[r.node].parent == n
    ensures Evolves(f, r.heap, supply) && forall b | b in r.spare :: b in supply
  {
    assert Linked(f, n);
    PlainName(f, n, name);
    var m := PathGet(f, n, name);
    if m != null then Added(f, m, supply, false)
    else if supply == [] then Added(f, null, [], true)
    else
      var b := supply[0];
      NewMemberReady(f, n, name, b);
      SupplyTail(f, supply);
      Added(Add(Create(f, b, Some(name)), n, b), b, supply[1..], false)
  }

  /** DDF::addmember. */
  ghost function AddPath(f: Heap, n: Body, path: string, supply: seq<Body>): (r: Added)
    requires Wf(f) && n in f && Addable(path) && Supply(f, supply)
    ensures Wf(r.heap) && Handle(r.heap, r.node) && Supply(r.heap, r.spare)
    ensures n in r.heap && Evolves(f, r.heap, supply)
    ensures forall b | b in r.spare :: b in supply
    decreases |path|
  {
    var (name, rest) := Token(path);
    if name == "" then Added(f, null, supply, false) else
      var g := AsStruct(f, n);
      var first := Member(g, n, name, supply);
      EvolvesOn(f, g, first.heap, supply, supply);
      if first.short || rest == "" then first else
        var r := AddPath(first.heap, first.node, rest, first.spare);
        EvolvesOn(f, first.heap, r.heap, supply, first.spare);
        assert Linked(r.heap, first.node);
        if r.short || r.node != null then r else
          DestroyWf(r.heap, first.node);
          DestroyKeeps(r.heap, first.node);
          NoCycle(r.heap, n, first.node);
          EvolvesOn(f, r.heap, Destroy(r.heap, first.node), supply, []);
          Added(Destroy(r.heap, first.node), null, r.spare, false)
  }

  lemma SupplyAppend(f: Heap, first: seq<Body>, more: seq<Body>)
    requires Supply(f, first) && NoDup(more)
    requires forall b | b in more :: b !in f && b !in first
    ensures Supply(f, first + more)
  {
    var s := first + more;
    forall i, j | 0 <= i < j < |s|
      ensures Apart(s, i, j)
    {
      if j < |first| {
        assert Apart(first, i, j);
      } else if i >= |first| {
        assert Apart(more, i - |first|, j - |first|);
      } else {
        assert s[j] in more;
      }
    }
  }

  /** The member m was found, or created as the only node allocated. */
  ghost predicate MemberMade(g: Heap, n: Body, name: string, used: seq<Body>, h: Heap, m: Body)
    requires Wf(g) && n in g && g[n].value.Struct? && MemberName(name)
  {
    if used == [] then h == g && PathGet(g, n, name) == m
    else
      && used == [m] && m !in g && PathGet(g, n, name) == null
      && (NewMemberReady(g, n, name, m); h == Add(Create(g, m, Some(name)), n, m))
  }

  /** Adding a new member makes it. */
  lemma NewMemberMade(f: Heap, n: Body, name: string, b: Body)
    requires Wf(f) && n in f && f[n].value.Struct? && MemberName(name) && b !in f
    requires PathGet(f, n, name) == null
    ensures var g := Create(f, b, Some(name));
            && Wf(g) && n in g && b in g && AddOk(g, n, b) && Add(g, n, b).Keys == f.Keys + {b}
            && MemberMade(f, n, name, [b], Add(g, n, b), b)
  {
    NewMemberReady(f, n, name, b);
  }

  lemma MemberIs(g: Heap, n: Body, name: string, used: seq<Body>, more: seq<Body>, h: Heap, m: Body)
    requires Wf(g) && n in g && g[n].value.Struct? && MemberName(name)
    requires MemberMade(g, n, name, used, h, m) && Supply(g, used + more)
    ensures Member(g, n, name, used + more) == Added(h, m, more, false)
  {
  }

  /** addmember in terms of its first step and the rest. */
  lemma AddPathUnfold(f: Heap, n: Body, path: string, supply: seq<Body>, h: Heap, m: Body, more: seq<Body>)
    requires Wf(f) && n in f && Addable(path) && Supply(f, supply) && Token(path).0 != ""
    requires Member(AsStruct(f, n), n, Token(path).0, supply) == Added(h, m, more, false)
    ensures Wf(h) && m in h && Supply(h, more)
    ensures Token(path).1 == "" ==> AddPath(f, n, path, supply) == Added(h, m, more, false)
    ensures Token(path).1 != "" ==>
              var r := AddPath(h, m, Token(path).1, more);
              && (!r.short && r.node == null ==>
                    AddPath(f, n, path, supply) == Added(Destroy(r.heap, m), null, r.spare, false))
              && (r.short || r.node != null ==> AddPath(f, n, path, supply) == r)
  {
  }

  // ---- What addmember leaves alone ----

  /**
   * What a lookup can rely on at a node that survives: its name stays, it changes its value only
   * by becoming a struct, and unless it does so it keeps its children, a struct perhaps gaining
   * some at the end.
   */
  ghost predicate KeptAt(f: Heap, g: Heap, v: Body)
    requires v in f && v in g
  {
    && g[v].name == f[v].name
    && (g[v].value == f[v].value || g[v].value.Struct?)
    && (f[v].value.Struct? ==> g[v].value.Struct?)
    && (g[v].value == f[v].value ==>
          && f[v].kids <= g[v].kids
          && (f[v].value.List? ==> f[v].kids == g[v].kids)
          && forall k | k in f[v].kids :: k in g)
  }

  ghost predicate Kept(f: Heap, g: Heap) {
    forall v {:trigger KeptAt(f, g, v)} | v in f && v in g :: KeptAt(f, g, v)
  }

  lemma KeptOn(f: Heap, g: Heap, h: Heap)
    requires Kept(f, g) && Kept(g, h)
    requires forall x | x in f && x in h :: x in g
    requires Wf(f)
    ensures Kept(f, h)
  {
    forall v | v in f && v in h
      ensures KeptAt(f, h, v)
    {
      assert KeptAt(f, g, v) && KeptAt(g, h, v) && Linked(f, v);
    }
  }

  lemma AsStructKept(f: Heap, n: Body)
    requires Wf(f) && n in f
    ensures Kept(f, AsStruct(f, n))
  {
    var g := AsStruct(f, n);
    forall v | v in f && v in g
      ensures KeptAt(f, g, v)
    {
      assert Linked(f, v);
      forall k | k in f[v].kids && v != n
        ensures k in g
      {
        DepthOfKid(f, k);
        assert Linked(f, k);
      }
    }
  }

  lemma MemberKept(f: Heap, n: Body, name: string, supply: seq<Body>)
    requires Wf(f) && n in f && f[n].value.Struct? && MemberName(name) && Supply(f, supply)
    ensures Kept(f, Member(f, n, name, supply).heap)
    ensures f.Keys <= Member(f, n, name, supply).heap.Keys
  {
    var g := Member(f, n, name, supply).heap;
    if supply != [] && PathGet(f, n, name) == null {
      NewMemberReady(f, n, name, supply[0]);
    }
    forall v | v in f
      ensures KeptAt(f, g, v)
    {
      assert Linked(f, v);
    }
  }

  /** A successful addmember keeps whatever survives it. */
  lemma {:induction false} AddPathKept(f: Heap, n: Body, path: string, supply: seq<Body>)
    requires Wf(f) && n in f && FullPath(path) && Supply(f, supply)
    requires !AddPath(f, n, path, supply).short
    ensures AddPath(f, n, path, supply).node != null
    ensures Kept(f, AddPath(f, n, path, supply).heap)
    decreases |path|
  {
    var (name, rest) := Token(path);
    var g := AsStruct(f, n);
    var first := Member(g, n, name, supply);
    AsStructKept(f, n);
    MemberKept(g, n, name, supply);
    KeptOn(f, g, first.heap);
    if rest == "" {
    } else {
      AddPathKept(first.heap, first.node, rest, first.spare);
      var r := AddPath(first.heap, first.node, rest, first.spare);
      KeptOn(f, first.heap, r.heap);
    }
  }

  /** Every node getmember visits on its way is still there and has not been converted. */
  ghost predicate Undisturbed(f: Heap, g: Heap, n: Body, path: string)
    requires Wf(f) && n in f
    decreases |path|, Room(f, n)
  {
    var (name, rest) := Token(path);
    && n in g && g[n].value == f[n].value
    && (name != "" ==>
          if Descends(f[n].value, name) then
            RoomOfKids(f, n);
            f[n].kids != [] ==> Undisturbed(f, g, f[n].kids[0], path)
          else
            var here := Step(f, n, name);
            here != null && rest != "" ==> Undisturbed(f, g, here, rest))
  }

  lemma {:induction false} MemberInPrefix(f: Heap, g: Heap, s: seq<Body>, t: seq<Body>, name: string)
    requires forall k | k in s :: k in f && k in g && g[k].name == f[k].name
    requires s <= t && forall k | k in t :: k in g
    requires MemberNamed(f, s, name) != null
    ensures MemberNamed(g, t, name) == MemberNamed(f, s, name)
  {
    assert s[0] == t[0];
    assert s[0] in s;
    if f[s[0]].name != Some(name) {
      assert forall k | k in s[1..] :: k in s;
      assert forall k | k in t[1..] :: k in t;
      MemberInPrefix(f, g, s[1..], t[1..], name);
    }
  }

  lemma StepKept(f: Heap, g: Heap, n: Body, name: string)
    requires Wf(f) && Wf(g) && n in f && n in g && Kept(f, g) && name != ""
    requires g[n].value == f[n].value && Step(f, n, name) != null
    ensures Step(g, n, name) == Step(f, n, name)
  {
    assert KeptAt(f, g, n) && Linked(f, n) && Linked(g, n);
    if name[0] != '[' && f[n].value.Struct? {
      forall k | k in f[n].kids
        ensures k in f && k in g && g[k].name == f[k].name
      {
        assert KeptAt(f, g, k);
      }
      MemberInPrefix(f, g, f[n].kids, g[n].kids, name);
    }
  }

  /** A lookup that succeeded on undisturbed nodes finds the same node afterwards. */
  lemma {:induction false} LookupKept(f: Heap, g: Heap, n: Body, path: string)
    requires Wf(f) && Wf(g) && n in f && Kept(f, g) && Undisturbed(f, g, n, path)
    requires PathGet(f, n, path) != null
    ensures n in g && PathGet(g, n, path) == PathGet(f, n, path)
    decreases |path|, Room(f, n)
  {
    var (name, rest) := Token(path);
    assert KeptAt(f, g, n);
    RoomOfKids(f, n);
    if Descends(f[n].value, name) {
      LookupKept(f, g, f[n].kids[0], path);
    } else {
      StepKept(f, g, n, name);
      if rest != "" {
        LookupKept(f, g, Step(f, n, name), rest);
      }
    }
  }

  /** Paths that pass through no converted node resolve after addmember as they did before. */
  lemma AddKeepsLookups(f: Heap, n: Body, path: string, supply: seq<Body>, x: Body, q: string)
    requires Wf(f) && n in f && FullPath(path) && Supply(f, supply) && x in f
    requires !AddPath(f, n, path, supply).short
    requires Undisturbed(f, AddPath(f, n, path, supply).heap, x, q) && PathGet(f, x, q) != null
    ensures var g := AddPath(f, n, path, supply).heap;
            x in g && PathGet(g, x, q) == PathGet(f, x, q)
  {
    AddPathKept(f, n, path, supply);
    LookupKept(f, AddPath(f, n, path, supply).heap, x, q);
  }

  // ---- addmember finds what it made ----

  /** The first step of addmember yields a struct in which the component finds the node returned. */
  lemma MemberFound(f: Heap, n: Body, name: string, supply: seq<Body>)
    requires Wf(f) && n in f && f[n].value.Struct? && MemberName(name) && Supply(f, supply)
    requires !Member(f, n, name, supply).short
    ensures var r := Member(f, n, name, supply);
            && r.heap[n].value.Struct? && r.node in r.heap[n].kids
            && PathGet(r.heap, n, name) == r.node
  {
    var r := Member(f, n, name, supply);
    PlainName(f, n, name);
    if PathGet(f, n, name) == null {
      NewMemberReady(f, n, name, supply[0]);
      assert r.heap[n].kids == f[n].kids + [r.node];
      OwnName(r.heap, n, r.node);
    }
  }

  lemma FirstStep(g: Heap, n: Body, path: string, m: Body)
    requires Wf(g) && n in g && g[n].value.Struct? && FullPath(path) && m in g
    requires PathGet(g, n, Token(path).0) == m
    ensures PathGet(g, n, path) == if Token(path).1 == "" then m else PathGet(g, m, Token(path).1)
  {
  }

  /** A struct that keeps its members still finds the one called name. */
  lemma StillMember(f: Heap, g: Heap, n: Body, name: string, m: Body)
    requires Wf(f) && Wf(g) && n in f && n in g && m in f && Kept(f, g) && MemberName(name)
    requires f[n].value.Struct? && PathGet(f, n, name) == m
    ensures g[n].value.Struct? && PathGet(g, n, name) == m && m in g
  {
    assert KeptAt(f, g, n);
    PlainName(f, n, name);
    PlainName(g, n, name);
    StepKept(f, g, n, name);
  }

  /** After a successful addmember, getmember finds the node it returned. */
  lemma {:induction false} AddThenGet(f: Heap, n: Body, path: string, supply: seq<Body>)
    requires Wf(f) && n in f && FullPath(path) && Supply(f, supply)
    requires !AddPath(f, n, path, supply).short
    ensures var r := AddPath(f, n, path, supply);
            && r.node != null && r.heap[n].value.Struct? && PathGet(r.heap, n, path) == r.node
    decreases |path|
  {
    var (name, rest) := Token(path);
    var g := AsStruct(f, n);
    var first := Member(g, n, name, supply);
    MemberFound(g, n, name, supply);
    AddPathKept(f, n, path, supply);
    if rest == "" {
      FirstStep(first.heap, n, path, first.node);
    } else {
      var r := AddPath(first.heap, first.node, rest, first.spare);
      AddThenGet(first.heap, first.node, rest, first.spare);
      AddPathKept(first.heap, first.node, rest, first.spare);
      StillMember(first.heap, r.heap, n, name, first.node);
      FirstStep(r.heap, n, path, first.node);
    }
  }

  /** A second addmember of the same path returns the same node and changes nothing. */
  lemma {:induction false} AddAgain(f: Heap, n: Body, path: string, supply: seq<Body>, again: seq<Body>)
    requires Wf(f) && n in f && FullPath(path) && Supply(f, supply)
    requires !AddPath(f, n, path, supply).short
    requires Supply(AddPath(f, n, path, supply).heap, again)
    ensures var r := AddPath(f, n, path, supply);
            AddPath(r.heap, n, path, again) == Added(r.heap, r.node, again, false)
    decreases |path|
  {
    var (name, rest) := Token(path);
    var g := AsStruct(f, n);
    var first := Member(g, n, name, supply);
    MemberFound(g, n, name, supply);
    AddPathKept(f, n, path, supply);
    if rest == "" {
    } else {
      var r := AddPath(first.heap, first.node, rest, first.spare);
      AddPathKept(first.heap, first.node, rest, first.spare);
      StillMember(first.heap, r.heap, n, name, first.node);
      AddAgain(first.heap, first.node, rest, first.spare, again);
    }
  }

  // ---- Paths made of names ----

  lemma {:induction false} JoinedFull(names: seq<string>)
    requires MemberNames(names)
    ensures FullPath(Joined(names))
    decreases |names|
  {
    assert MemberName(names[0]);
    if |names| == 1 {
      TokenOf(names[0], "");
    } else {
      assert forall s | s in names[1..] :: s in names;
      TokenOf(names[0], Joined(names[1..]));
      JoinedFull(names[1..]);
    }
  }

  /** A struct in which a name finds a node has that node as a member of this name. */
  lemma FoundIsMember(f: Heap, n: Body, name: string, k: Body)
    requires Wf(f) && n in f && f[n].value.Struct? && MemberName(name) && PathGet(f, n, name) == k
    ensures k in f[n].kids && k in f && f[k].name == Some(name)
  {
    PlainName(f, n, name);
  }

  /** The first component of an addmember that succeeds ends up a member of the receiver. */
  lemma AddStep(f: Heap, n: Body, path: string, supply: seq<Body>) returns (first: Added)
    requires Wf(f) && n in f && FullPath(path) && Supply(f, supply) && !AddPath(f, n, path, supply).short
    ensures Wf(first.heap) && first.node != null && first.node in first.heap && Supply(first.heap, first.spare)
    ensures var r := AddPath(f, n, path, supply);
            && r.node != null && Wf(r.heap) && n in r.heap && r.heap[n].value.Struct?
            && first.node in r.heap[n].kids && first.node in r.heap
            && r.heap[first.node].name == Some(Token(path).0)
            && (Token(path).1 == "" ==> r.node == first.node)
            && (Token(path).1 != "" ==> r == AddPath(first.heap, first.node, Token(path).1, first.spare))
  {
    var (name, rest) := Token(path);
    var g := AsStruct(f, n);
    first := Member(g, n, name, supply);
    MemberFound(g, n, name, supply);
    var r := AddPath(f, n, path, supply);
    if rest == "" {
      FoundIsMember(r.heap, n, name, first.node);
    } else {
      AddPathKept(first.heap, first.node, rest, first.spare);
      StillMember(first.heap, r.heap, n, name, first.node);
      FoundIsMember(r.heap, n, name, first.node);
    }
  }

  lemma ReachesBy(f: Heap, n: Body, names: seq<string>, k: Body, m: Body)
    requires Wf(f) && n in f && f[n].value.Struct? && k in f[n].kids && k in f && names != []
    requires f[k].name == Some(names[0]) && Reaches(f, k, names[1..], m)
    ensures Reaches(f, n, names, m)
  {
  }

  lemma JoinedToken(names: seq<string>)
    requires MemberNames(names)
    ensures Token(Joined(names)).0 == names[0]
    ensures Token(Joined(names)).1 == if |names| == 1 then "" else Joined(names[1..])
    ensures |names| > 1 ==> MemberNames(names[1..]) && Token(Joined(names)).1 != ""
  {
    assert MemberName(names[0]);
    if |names| > 1 {
      assert forall s | s in names[1..] :: s in names;
      JoinedNotEmpty(names[1..]);
      TokenOf(names[0], Joined(names[1..]));
    } else {
      TokenOf(names[0], "");
    }
  }

  /**
   * After addmember of a dotted path, the node it returned is reached from the receiver through
   * structs, member by member, and bears the last name.
   */
  lemma {:induction false} AddReaches(f: Heap, n: Body, names: seq<string>, supply: seq<Body>)
    requires Wf(f) && n in f && MemberNames(names) && Supply(f, supply)
    requires FullPath(Joined(names)) && !AddPath(f, n, Joined(names), supply).short
    ensures var r := AddPath(f, n, Joined(names), supply);
            && Wf(r.heap) && r.node != null && r.node in r.heap && Reaches(r.heap, n, names, r.node)
            && r.heap[r.node].name == Some(names[|names| - 1])
    decreases |names|
  {
    var first := AddStep(f, n, Joined(names), supply);
    JoinedToken(names);
    var r := AddPath(f, n, Joined(names), supply);
    if |names| == 1 {
      assert names[1..] == [];
    } else {
      JoinedFull(names[1..]);
      AddReaches(first.heap, first.node, names[1..], first.spare);
    }
    ReachesBy(r.heap, n, names, first.node, r.node);
  }

  // ---- When addmember fails ----

  /** addmember returns a node exactly when no component of the path is empty. */
  lemma {:induction false} AddSucceeds(f: Heap, n: Body, path: string, supply: seq<Body>)
    requires Wf(f) && n in f && Addable(path) && Supply(f, supply) && !AddPath(f, n, path, supply).short
    ensures AddPath(f, n, path, supply).node != null <==> FullPath(path)
    decreases |path|
  {
    var (name, rest) := Token(path);
    if name != "" && rest != "" {
      var first := Member(AsStruct(f, n), n, name, supply);
      AddSucceeds(first.heap, first.node, rest, first.spare);
    }
  }

  /** Names stay, and a struct stays one. */
  ghost predicate Steady(f: Heap, g: Heap) {
    forall v {:trigger g[v]} | v in f && v in g :: g[v].name == f[v].name && (f[v].value.Struct? ==> g[v].value.Struct?)
  }

  lemma KeptSteady(f: Heap, g: Heap)
    requires Kept(f, g)
    ensures Steady(f, g)
  {
    forall v | v in f && v in g
      ensures g[v].name == f[v].name && (f[v].value.Struct? ==> g[v].value.Struct?)
    {
      assert KeptAt(f, g, v);
    }
  }

  /** The step of addmember that takes a member back. */
  lemma TakenBack(h: Heap, n: Body, m: Body, name: string)
    requires Wf(h) && n in h && m in h && h[m].parent == n && h[n].value.Struct?
    requires MemberName(name) && h[m].name == Some(name)
    ensures var g := Destroy(h, m);
            && Wf(g) && n in g && g[n].value.Struct? && PathGet(g, n, name) == null && m !in g
            && Steady(h, g) && g.Keys <= h.Keys
  {
    assert Linked(h, m) && Linked(h, n) && Proper(h, n);
    DestroyWf(h, m);
    DestroyKeeps(h, m);
    NoCycle(h, n, m);
    var g := Destroy(h, m);
    DetachWf(h, m);
    WithoutElements(h[n].kids, Index(h[n].kids, m));
    assert g[n].kids == Without(h[n].kids, Index(h[n].kids, m));
    PlainName(g, n, name);
  }

  lemma MemberNodes(f: Heap, n: Body, name: string, supply: seq<Body>)
    requires Wf(f) && n in f && f[n].value.Struct? && MemberName(name) && Supply(f, supply)
    requires !Member(f, n, name, supply).short
    ensures var r := Member(f, n, name, supply); r.heap.Keys <= f.Keys + {r.node}
  {
    if PathGet(f, n, name) == null {
      NewMemberReady(f, n, name, supply[0]);
    }
  }

  /**
   * An addmember that fails leaves no new node behind. The member with the first name is gone, also if
   * it was there before.
   */
  lemma {:induction false} AddFailsClean(f: Heap, n: Body, path: string, supply: seq<Body>)
    requires Wf(f) && n in f && Addable(path) && Supply(f, supply) && !AddPath(f, n, path, supply).short
    ensures Steady(f, AddPath(f, n, path, supply).heap)
    ensures var r := AddPath(f, n, path, supply);
            r.node == null ==> r.heap.Keys <= f.Keys
    ensures var r := AddPath(f, n, path, supply);
            r.node == null && Token(path).0 != "" ==>
              r.heap[n].value.Struct? && PathGet(r.heap, n, Token(path).0) == null
    decreases |path|
  {
    var (name, rest) := Token(path);
    if name != "" {
      var g := AsStruct(f, n);
      var first := Member(g, n, name, supply);
      AsStructKept(f, n);
      MemberKept(g, n, name, supply);
      MemberFound(g, n, name, supply);
      FoundIsMember(first.heap, n, name, first.node);
      KeptSteady(f, g);
      KeptSteady(g, first.heap);
      if rest != "" {
        var r := AddPath(first.heap, first.node, rest, first.spare);
        AddFailsClean(first.heap, first.node, rest, first.spare);
        if r.node == null {
          assert Linked(r.heap, first.node);
          TakenBack(r.heap, n, first.node, name);
          MemberNodes(g, n, name, supply);
        }
      }
    }
  }
}
