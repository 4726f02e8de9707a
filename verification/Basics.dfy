/** Small shared vocabulary: optional values and facts about sequences. */
module Basics {
  datatype Option<+T> = None | Some(value: T)

  ghost predicate Apart<T>(s: seq<T>, i: nat, j: nat)
    requires i < |s| && j < |s|
  {
    s[i] != s[j]
  }

  /** No element occurs twice; the trigger keeps this from being tried on every pair of indices. */
  ghost predicate NoDup<T>(s: seq<T>) {
    forall i, j {:trigger Apart(s, i, j)} | 0 <= i < j < |s| :: Apart(s, i, j)
  }

  /** The position of the only occurrence of x in a duplicate-free sequence. */
  ghost function Index<T>(s: seq<T>, x: T): (i: nat)
    requires x in s
    ensures i < |s| && s[i] == x
  {
    var i :| 0 <= i < |s| && s[i] == x;
    i
  }

  lemma OnlyAt<T>(s: seq<T>, i: nat)
    requires NoDup(s) && i < |s|
    ensures Index(s, s[i]) == i
    ensures forall j {:trigger s[j]} | 0 <= j < |s| && j != i :: s[j] != s[i]
  {
    forall j | 0 <= j < |s| && j != i
      ensures s[j] != s[i]
    {
      assert if j < i then Apart(s, j, i) else Apart(s, i, j);
    }
  }

  lemma NoDupCons<T>(x: T, s: seq<T>)
    requires NoDup(s) && x !in s
    ensures NoDup([x] + s)
  {
    var t := [x] + s;
    forall i, j | 0 <= i < j < |t|
      ensures Apart(t, i, j)
    {
      if i > 0 {
        assert Apart(s, i - 1, j - 1);
      }
    }
  }

  ghost function Without<T>(s: seq<T>, i: nat): seq<T>
    requires i < |s|
  {
    s[..i] + s[i + 1..]
  }

  ghost function InsertAt<T>(s: seq<T>, i: nat, x: T): seq<T>
    requires i <= |s|
  {
    s[..i] + [x] + s[i..]
  }

  lemma WithoutElements<T>(s: seq<T>, i: nat)
    requires i < |s| && NoDup(s)
    ensures NoDup(Without(s, i))
    ensures forall y {:trigger y in Without(s, i)} {:trigger y in s} :: y in Without(s, i) <==> y in s && y != s[i]
  {
    var t := Without(s, i);
    forall j, k | 0 <= j < k < |t|
      ensures Apart(t, j, k)
    {
      assert Apart(s, if j < i then j else j + 1, if k < i then k else k + 1);
    }
    forall y
      ensures y in t <==> y in s && y != s[i]
    {
      if y in t {
        var k := Index(t, y);
        var m := if k < i then k else k + 1;
        assert s[m] == y && if m < i then Apart(s, m, i) else Apart(s, i, m);
      }
      if y in s && y != s[i] {
        var k := Index(s, y);
        assert t[if k < i then k else k - 1] == y;
      }
    }
  }

  lemma InsertElements<T>(s: seq<T>, i: nat, x: T)
    requires i <= |s| && NoDup(s) && x !in s
    ensures NoDup(InsertAt(s, i, x))
    ensures forall y {:trigger y in InsertAt(s, i, x)} {:trigger y in s} :: y in InsertAt(s, i, x) <==> y in s || y == x
  {
    var t := InsertAt(s, i, x);
    assert t[i] == x;
    forall j, k | 0 <= j < k < |t|
      ensures Apart(t, j, k)
    {
      if j != i && k != i {
        assert Apart(s, if j < i then j else j - 1, if k < i then k else k - 1);
      }
    }
    forall y | y in s
      ensures y in t
    {
      var k := Index(s, y);
      assert t[if k < i then k else k + 1] == y;
    }
  }

  /** A duplicate-free sequence drawn from a finite set is no longer than the set. */
  lemma {:induction false} NoDupFits<T>(s: seq<T>, u: set<T>)
    requires NoDup(s)
    requires forall x | x in s :: x in u
    ensures |s| <= |u|
  {
    if s == [] {
    } else {
      var rest := s[1..];
      forall x | x in rest
        ensures x in u - {s[0]}
      {
        var k := Index(rest, x);
        assert s[k + 1] == x && Apart(s, 0, k + 1);
      }
      forall j, k | 0 <= j < k < |rest|
        ensures Apart(rest, j, k)
      {
        assert Apart(s, j + 1, k + 1);
      }
      NoDupFits(rest, u - {s[0]});
    }
  }
}
