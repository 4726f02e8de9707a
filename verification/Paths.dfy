/** Dotted paths: ddf_token and DDF::getmember. */
module Paths {
  import opened Basics
  import opened Forest
  import Numbers

  /** The position of the first dot, or the length of the path. */
  function DotAt(path: string): (i: nat)
    ensures i <= |path|
    ensures forall j | 0 <= j < i :: path[j] != '.'
    ensures i < |path| ==> path[i] == '.'
  {
    if path == "" || path[0] == '.' then 0 else DotAt(path[1..]) + 1
  }

  /**
   * ddf_token: the first component and the remaining path. A final component is cut at
   * MAX_NAME_LEN; a null remaining path is the empty string.
   */
  function Token(path: string): (r: (string, string))
    ensures path != "" ==> |r.1| < |path|
    ensures '.' !in r.0
    ensures r.0 == "" ==> path == "" || path[0] == '.'
  {
    var i := DotAt(path);
    if i == |path| then (if |path| <= MAX_NAME_LEN then path else path[..MAX_NAME_LEN], "")
    else (path[..i], path[i + 1..])
  }

  /** The first of the nodes in s that is called name. */
  ghost function MemberNamed(f: Heap, s: seq<Body>, name: string): (r: Body?)
    requires forall k | k in s :: k in f
    ensures r != null ==> r in s && f[r].name == Some(name)
    ensures r == null ==> forall k | k in s :: f[k].name != Some(name)
  {
    if s == [] then null
    else if f[s[0]].name == Some(name) then s[0]
    else MemberNamed(f, s[1..], name)
  }

  ghost predicate Handle(f: Heap, n: Body?) {
    n != null ==> n in f
  }

  ghost function FirstKid(f: Heap, n: Body): Body?
    requires n in f
  {
    if f[n].kids == [] then null else f[n].kids[0]
  }

  ghost function StepAt(f: Heap, n: Body, name: string): Body?
    requires n in f && name != ""
    requires forall k | k in f[n].kids :: k in f
  {
    if name[0] == '[' then
      var i := Numbers.Strtoul(name[1..]);
      if f[n].value.List? && i < |f[n].kids| then f[n].kids[i]
      else if i == 0 then n
      else null
    else if f[n].value.Struct? then MemberNamed(f, f[n].kids, name)
    else null
  }

  /** One component of a path, looked up on a node that is not a list or an index into one. */
  ghost function Step(f: Heap, n: Body?, name: string): (r: Body?)
    requires Wf(f) && Handle(f, n) && name != ""
    ensures Handle(f, r)
    ensures r != null ==> n != null && (r == n || r in f[n].kids)
  {
    if n != null then assert Linked(f, n); StepAt(f, n, name) else null
  }

  /** A list handed a plain name passes the whole path on to its first child. */
  predicate Descends(v: Value, name: string)
    requires name != ""
  {
    v.List? && name[0] != '['
  }

  /** DDF::getmember. */
  ghost function PathGet(f: Heap, n: Body?, path: string): (r: Body?)
    requires Wf(f) && Handle(f, n)
    ensures Handle(f, r)
    decreases |path|, if n == null then 0 else Room(f, n) + 1
  {
    var (name, rest) := Token(path);
    if name == "" || n == null then null
    else if Descends(f[n].value, name) then
      RoomOfKids(f, n);
      PathGet(f, FirstKid(f, n), path)
    else
      var here := Step(f, n, name);
      if here != null && rest != "" then PathGet(f, here, rest) else here
  }

  // ---- The result stays inside the receiver's subtree ----

  lemma {:induction false} UnderTrans(f: Heap, x: Body, y: Body, z: Body)
    requires Wf(f) && x in f && y in f && Under(f, x, y) && Under(f, y, z)
    ensures Under(f, x, z)
    decreases Depth(f, x)
  {
    DepthOfKid(f, x);
    if x != y {
      UnderTrans(f, f[x].parent, y, z);
    }
  }

  lemma {:induction false} UnderKnown(f: Heap, x: Body, top: Body)
    requires Wf(f) && x in f && Under(f, x, top)
    ensures top in f
    decreases Depth(f, x)
  {
    DepthOfKid(f, x);
    if x != top {
      UnderKnown(f, f[x].parent, top);
    }
  }

  lemma KidUnder(f: Heap, k: Body, n: Body)
    requires Wf(f) && n in f && (k == n || k in f[n].kids)
    ensures k in f && Under(f, k, n)
  {
    DepthOfKids(f, n);
    assert k != n ==> Under(f, n, n);
  }

  /** What getmember finds is the receiver or lies below it. */
  lemma {:induction false} GetStaysInside(f: Heap, n: Body, path: string)
    requires Wf(f) && n in f && PathGet(f, n, path) != null
    ensures Under(f, PathGet(f, n, path), n)
    decreases |path|, Room(f, n)
  {
    var (name, rest) := Token(path);
    if Descends(f[n].value, name) {
      RoomOfKids(f, n);
      var k := FirstKid(f, n);
      GetStaysInside(f, k, path);
      KidUnder(f, k, n);
      UnderTrans(f, PathGet(f, k, path), k, n);
    } else {
      var here := Step(f, n, name);
      KidUnder(f, here, n);
      if rest != "" {
        GetStaysInside(f, here, rest);
        UnderTrans(f, PathGet(f, here, rest), here, n);
      }
    }
  }

  // ---- Plain names ----

  lemma {:induction false} NoDot(s: string)
    requires '.' !in s
    ensures DotAt(s) == |s|
  {
  }

  /** A member name, used as a path on a struct, finds the child of that name and nothing else. */
  lemma PlainName(f: Heap, n: Body, name: string)
    requires Wf(f) && n in f && MemberName(name)
    ensures Token(name) == (name, "")
    ensures f[n].value.Struct? ==> forall k | k in f[n].kids :: k in f
    ensures f[n].value.Struct? ==> PathGet(f, n, name) == MemberNamed(f, f[n].kids, name)
    ensures !f[n].value.Container() ==> PathGet(f, n, name) == null
  {
    NoDot(name);
    assert Linked(f, n);
  }

  /** Names in a struct are unique, so looking up a child's own name finds that child. */
  lemma OwnName(f: Heap, n: Body, k: Body)
    requires Wf(f) && n in f && f[n].value.Struct? && k in f[n].kids
    ensures k in f && Named(f, k) && PathGet(f, n, f[k].name.value) == k
  {
    assert Linked(f, n) && Proper(f, n) && Named(f, k);
    PlainName(f, n, f[k].name.value);
  }

  // ---- Laws of paths ----

  lemma {:induction false} FirstDot(c: string, rest: string)
    requires '.' !in c
    ensures DotAt(c + "." + rest) == |c|
  {
    var path := c + "." + rest;
    if c == "" {
    } else {
      assert path[0] == c[0] && path[1..] == c[1..] + "." + rest;
      FirstDot(c[1..], rest);
    }
  }

  /** The first component of a longer path and what is left of it. */
  lemma TokenOf(c: string, rest: string)
    requires '.' !in c
    ensures Token(c + "." + rest) == (c, rest)
    ensures |c| <= MAX_NAME_LEN ==> Token(c) == (c, "")
  {
    FirstDot(c, rest);
    NoDot(c);
    assert (c + "." + rest)[..|c|] == c && (c + "." + rest)[|c| + 1..] == rest;
  }

  /** A dotted path is followed one component after the other, whatever the nodes on the way are. */
  lemma {:induction false} Dotted(f: Heap, n: Body?, c: string, q: string)
    requires Wf(f) && Handle(f, n) && c != "" && '.' !in c && |c| <= MAX_NAME_LEN && q != ""
    ensures PathGet(f, n, c + "." + q) == PathGet(f, PathGet(f, n, c), q)
    decreases if n == null then 0 else Room(f, n) + 1
  {
    TokenOf(c, q);
    if n == null {
    } else if Descends(f[n].value, c) {
      RoomOfKids(f, n);
      Dotted(f, FirstKid(f, n), c, q);
    }
  }

  /** Only the first MAX_NAME_LEN characters of a last component count. */
  lemma {:induction false} LongLast(f: Heap, n: Body?, c: string)
    requires Wf(f) && Handle(f, n) && '.' !in c && |c| > MAX_NAME_LEN
    ensures PathGet(f, n, c) == PathGet(f, n, c[..MAX_NAME_LEN])
    decreases if n == null then 0 else Room(f, n) + 1
  {
    NoDot(c);
    NoDot(c[..MAX_NAME_LEN]);
    if n == null {
    } else if Descends(f[n].value, c) {
      RoomOfKids(f, n);
      LongLast(f, FirstKid(f, n), c);
    }
  }

  /** An empty component finds nothing. */
  lemma NoComponent(f: Heap, n: Body?, rest: string)
    requires Wf(f) && Handle(f, n)
    ensures PathGet(f, n, "") == null && PathGet(f, n, "." + rest) == null
  {
    FirstDot("", rest);
    assert "" + "." + rest == "." + rest;
  }

  lemma IndexText(i: nat, close: string)
    requires '.' !in close
    ensures var path := "[" + Numbers.PrintNat(i) + close;
            '.' !in path && path[0] == '[' && path[1..] == Numbers.PrintNat(i) + close
  {
    var digits := Numbers.PrintNat(i);
    var path := "[" + digits + close;
    assert '.' !in digits;
    assert path[1..] == digits + close;
    assert path == "[" + (digits + close);
  }

  /**
   * An index in brackets finds the child of a list at that place; an index of zero finds any other
   * node itself, and there is nothing else to find. What follows the digits does not matter.
   */
  lemma IndexFinds(f: Heap, n: Body, i: nat, close: string)
    requires Wf(f) && n in f && i <= Numbers.ULONG_MAX
    requires (close == "" || !Numbers.IsDigit(close[0])) && '.' !in close
    requires |"[" + Numbers.PrintNat(i) + close| <= MAX_NAME_LEN
    ensures var path := "[" + Numbers.PrintNat(i) + close;
            PathGet(f, n, path) ==
            if f[n].value.List? && i < |f[n].kids| then f[n].kids[i] else if i == 0 then n else null
  {
    var path := "[" + Numbers.PrintNat(i) + close;
    IndexText(i, close);
    NoDot(path);
    Numbers.StrtoulOfNat(i, close);
    assert Linked(f, n);
  }

  /** A list hands a name on to its first child. */
  lemma ListHandsOn(f: Heap, n: Body, path: string)
    requires Wf(f) && n in f && f[n].value.List? && path != "" && path[0] != '[' && path[0] != '.'
    ensures Handle(f, FirstKid(f, n)) && PathGet(f, n, path) == PathGet(f, FirstKid(f, n), path)
  {
    RoomOfKids(f, n);
    var (name, rest) := Token(path);
    assert name[0] == path[0];
  }

  // ---- Paths as sequences of names ----

  function Joined(names: seq<string>): string {
    if names == [] then "" else if |names| == 1 then names[0] else names[0] + "." + Joined(names[1..])
  }

  predicate MemberNames(names: seq<string>) {
    names != [] && forall s | s in names :: MemberName(s)
  }

  /** From n, node m is reached through structs by way of members of these names. */
  ghost predicate Reaches(f: Heap, n: Body, names: seq<string>, m: Body)
    requires Wf(f)
    decreases |names|
  {
    if names == [] then n == m else
      && n in f && f[n].value.Struct?
      && exists k :: k in f[n].kids && k in f && f[k].name == Some(names[0]) && Reaches(f, k, names[1..], m)
  }

  lemma {:induction false} JoinedNotEmpty(names: seq<string>)
    requires MemberNames(names)
    ensures Joined(names) != ""
  {
    assert MemberName(names[0]);
  }

  /** Following the names one by one is what getmember does with the dotted path. */
  lemma {:induction false} ReachesIsGet(f: Heap, n: Body, names: seq<string>, m: Body)
    requires Wf(f) && n in f && MemberNames(names) && Reaches(f, n, names, m)
    ensures PathGet(f, n, Joined(names)) == m
    decreases |names|
  {
    var a := names[0];
    assert MemberName(a);
    var k :| k in f[n].kids && k in f && f[k].name == Some(a) && Reaches(f, k, names[1..], m);
    OwnName(f, n, k);
    if |names| == 1 {
      assert names[1..] == [];
    } else {
      assert forall s | s in names[1..] :: s in names;
      JoinedNotEmpty(names[1..]);
      Dotted(f, n, a, Joined(names[1..]));
      ReachesIsGet(f, k, names[1..], m);
    }
  }
}
