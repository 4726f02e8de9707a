/** CGIParser.cpp: splitting a query string or a form body into parameters. */
module CgiParser {
  import opened Basics

  const NUL: char := '\0'

  /** The byte 0xFF, which equals EOF as a signed char. */
  const EOF_BYTE: char := 255 as char

  // ---- C strings in buffers ----

  /** The buffer holds a terminated string of length n. */
  predicate Holds(buffer: seq<char>, s: string) {
    |s| < |buffer| && buffer[..|s|] == s && buffer[|s|] == NUL && NUL !in s
  }

  lemma HoldsAt(buffer: seq<char>, s: string)
    requires Holds(buffer, s)
    ensures buffer[|s|] == NUL && forall j | 0 <= j < |s| :: buffer[j] == s[j] && s[j] != NUL
  {
  }

  // ---- makeword ----

  function Position(s: string, stop: char): (i: nat)
    ensures i <= |s| && (i < |s| ==> s[i] == stop) && forall j | 0 <= j < i :: s[j] != stop
  {
    if s == "" || s[0] == stop then 0 else Position(s[1..], stop) + 1
  }

  lemma PositionIs(s: string, stop: char, x: nat)
    requires x <= |s| && (x < |s| ==> s[x] == stop) && forall j | 0 <= j < x :: s[j] != stop
    ensures Position(s, stop) == x
  {
  }

  /** What comes before the first stop character. */
  function Before(s: string, stop: char): string { s[..Position(s, stop)] }

  /** What comes after it, if there is one. */
  function Behind(s: string, stop: char): string {
    if Position(s, stop) < |s| then s[Position(s, stop) + 1..] else ""
  }

  /** strlen. */
  method Length(buffer: array<char>, ghost s: string) returns (n: nat)
    requires Holds(buffer[..], s)
    ensures n == |s|
  {
    HoldsAt(buffer[..], s);
    n := 0;
    while buffer[n] != NUL
      invariant 0 <= n <= |s|
      decreases |s| - n
    {
      n := n + 1;
    }
  }

  /** The second half of makeword: move line[x..] to the front. */
  method ShiftFront(line: array<char>, from: nat, ghost s: string)
    requires Holds(line[..], s) && from <= |s|
    modifies line
    ensures Holds(line[..], s[from..])
  {
    ghost var was := line[..];
    HoldsAt(was, s);
    var x, y := from, 0;
    while line[x] != NUL
      invariant y <= x <= |s| && x == from + y
      invariant forall j | 0 <= j < y :: line[j] == s[from + j]
      invariant forall j | x <= j < line.Length :: line[j] == was[j]
      decreases |s| - x
    {
      line[y] := line[x];
      x, y := x + 1, y + 1;
    }
    line[y] := NUL;
    assert x == |s|;
    assert line[..][..y] == s[from..];
  }

  /** makeword: split off the first word and shift the rest of the line to the front, in place. */
  method MakeWord(line: array<char>, stop: char, ghost s: string) returns (word: array<char>)
    requires Holds(line[..], s) && stop != NUL
    modifies line
    ensures fresh(word) && Holds(word[..], Before(s, stop)) && Holds(line[..], Behind(s, stop))
  {
    HoldsAt(line[..], s);
    var n := Length(line, s);
    word := new char[n + 1](_ => NUL);
    var x := 0;
    while line[x] != NUL && line[x] != stop
      invariant 0 <= x <= |s| && word[..x] == s[..x] && line[..] == old(line[..])
      invariant forall j | 0 <= j < x :: s[j] != stop
      decreases |s| - x
    {
      word[x] := line[x];
      x := x + 1;
    }
    word[x] := NUL;
    PositionIs(s, stop, x);
    if line[x] != NUL {
      x := x + 1;
    }
    ShiftFront(line, x, s);
  }

  // ---- fmakeword ----

  /** The next segment of a non-empty text and what follows its stop character. */
  function Cut(s: string, stop: char): (r: (string, string))
    requires s != ""
    ensures |r.1| < |s|
  {
    if s[0] == stop then ("", s[1..])
    else if s[0] == EOF_BYTE || |s| == 1 then ([s[0]], s[1..])
    else
      var r := Cut(s[1..], stop);
      ([s[0]] + r.0, r.1)
  }

  /** Where Cut ends: the position of the last character it consumes. */
  predicate CutsAt(s: string, stop: char, i: nat) {
    && i < |s| && (s[i] == stop || s[i] == EOF_BYTE || i == |s| - 1)
    && forall j | 0 <= j < i :: s[j] != stop && s[j] != EOF_BYTE
  }

  lemma CutsAtTail(s: string, stop: char, i: nat)
    requires CutsAt(s, stop, i) && i > 0
    ensures CutsAt(s[1..], stop, i - 1)
  {
    assert forall j | 0 <= j < i :: s[1..][j] == s[j + 1];
  }

  lemma Slices<T>(s: seq<T>, i: nat)
    requires 0 < i < |s|
    ensures s[..i] == [s[0]] + s[1..][..i - 1] && s[..i + 1] == [s[0]] + s[1..][..i] && s[1..][i..] == s[i + 1..]
  {
  }

  lemma {:induction false} CutIs(s: string, stop: char, i: nat)
    requires CutsAt(s, stop, i)
    ensures Cut(s, stop) == (if s[i] == stop then s[..i] else s[..i + 1], s[i + 1..])
  {
    if i == 0 {
      assert s[..1] == [s[0]] && s[..0] == "";
    } else {
      CutsAtTail(s, stop, i);
      CutIs(s[1..], stop, i - 1);
      Slices(s, i);
    }
  }

  /** realloc: a larger buffer with the same start. */
  method Grow(word: array<char>, size: nat) returns (larger: array<char>)
    requires word.Length <= size
    ensures fresh(larger) && larger.Length == size && larger[..word.Length] == word[..]
  {
    larger := new char[size](_ => NUL);
    var i := 0;
    while i < word.Length
      invariant 0 <= i <= word.Length && larger[..i] == word[..i] && word[..] == old(word[..])
    {
      larger[i] := word[i];
      i := i + 1;
    }
  }

  lemma PartNulFree(text: string, from: nat)
    requires from <= |text| && NUL !in text
    ensures forall j | 0 <= j < |text| - from :: text[from..][j] != NUL
  {
  }

  /**
   * fmakeword: copy characters into a growing buffer up to the stop character, the end of the
   * text or a byte that looks like EOF. pos is the pointer into the text and cl the count of
   * characters left; they move in step.
   */
  method FMakeWord(stop: char, cl0: nat, text: string, pos0: nat) returns (word: array<char>, cl: nat, pos: nat)
    requires cl0 > 0 && pos0 + cl0 == |text| && NUL !in text && stop != NUL
    ensures fresh(word) && pos + cl == |text| && cl < cl0
    ensures Holds(word[..], Cut(text[pos0..], stop).0) && text[pos..] == Cut(text[pos0..], stop).1
  {
    var wsize := 1024;
    var ll := 0;
    word := new char[wsize + 1](_ => NUL);
    cl, pos := cl0, pos0;
    ghost var s := text[pos0..];
    while true
      invariant 0 <= ll < wsize && word.Length == wsize + 1 && fresh(word)
      invariant cl > 0 && pos + cl == |text| && pos == pos0 + ll
      invariant word[..ll] == s[..ll]
      invariant forall j | 0 <= j < ll :: s[j] != stop && s[j] != EOF_BYTE
      decreases cl
    {
      word[ll] := text[pos];
      pos := pos + 1;
      assert word[..ll + 1] == s[..ll + 1];
      if ll == wsize - 1 {
        word[ll + 1] := NUL;
        wsize := wsize + 1024;
        ghost var old' := word[..];
        word := Grow(word, wsize + 1);
        assert word[..ll + 1] == old'[..ll + 1];
      }
      cl := cl - 1;
      assert word[ll] == s[ll];
      if word[ll] == stop || word[ll] == EOF_BYTE || cl == 0 {
        CutIs(s, stop, ll);
        PartNulFree(text, pos0);
        if word[ll] != stop {
          ll := ll + 1;
        }
        word[ll] := NUL;
        assert word[..ll] == s[..ll];
        return;
      }
      ll := ll + 1;
    }
  }

  // ---- plustospace and decoding ----

  function Spaced(s: string): (t: string)
    ensures |t| == |s| && '+' !in t
    ensures forall i | 0 <= i < |s| :: if s[i] == '+' then t[i] == ' ' else t[i] == s[i]
  {
    seq(|s|, i requires 0 <= i < |s| => if s[i] == '+' then ' ' else s[i])
  }

  /** plustospace, in place. */
  method PlusToSpace(str: array<char>, ghost s: string)
    requires Holds(str[..], s)
    modifies str
    ensures Holds(str[..], Spaced(s))
  {
    HoldsAt(str[..], s);
    var x := 0;
    while str[x] != NUL
      invariant 0 <= x <= |s|
      invariant forall j | 0 <= j < x :: str[j] == Spaced(s)[j]
      invariant forall j | x <= j <= |s| :: str[j] == old(str[..])[j]
      decreases |s| - x
    {
      if str[x] == '+' {
        str[x] := ' ';
      }
      x := x + 1;
    }
    assert str[..][..|s|] == Spaced(s);
  }

  /** The URL decoder works in place, so it never makes a string longer. */
  ghost predicate DecoderOk(dec: string -> string) {
    forall s {:trigger dec(s)} :: |dec(s)| <= |s| && NUL !in dec(s)
  }

  /** URLEncoder::decode. */
  method Decode(dec: string -> string, str: array<char>, ghost s: string)
    requires DecoderOk(dec) && Holds(str[..], s)
    modifies str
    ensures Holds(str[..], dec(s))
  {
    var n := Length(str, s);
    var d := dec(str[..n]);
    assert str[..n] == s;
    var i := 0;
    while i < |d|
      invariant 0 <= i <= |d| && str[..i] == d[..i]
    {
      str[i] := d[i];
      i := i + 1;
    }
    str[i] := NUL;
    assert str[..][..|d|] == d;
  }

  // ---- The multimap ----

  datatype Pair = Pair(name: string, value: string)

  /** operator< on std::string. */
  predicate Less(a: string, b: string) {
    b != "" && (a == "" || a[0] < b[0] || (a[0] == b[0] && Less(a[1..], b[1..])))
  }

  lemma {:induction false} LessTotal(a: string, b: string)
    ensures (Less(a, b) && !Less(b, a) && a != b) || (Less(b, a) && !Less(a, b) && a != b) || (a == b && !Less(a, b))
  {
    if a != "" && b != "" && a[0] == b[0] {
      LessTotal(a[1..], b[1..]);
      assert a == [a[0]] + a[1..] && b == [b[0]] + b[1..];
    }
  }

  lemma {:induction false} LessTrans(a: string, b: string, c: string)
    requires Less(a, b) && Less(b, c)
    ensures Less(a, c)
  {
    if a != "" && a[0] == b[0] && b[0] == c[0] {
      LessTrans(a[1..], b[1..], c[1..]);
    }
  }

  predicate Sorted(m: seq<Pair>) {
    forall i, j | 0 <= i < j < |m| :: !Less(m[j].name, m[i].name)
  }

  /** Behind all entries whose key is not greater, which keeps equal keys in order of insertion. */
  function Inserted(m: seq<Pair>, p: Pair): seq<Pair> {
    if m == [] then [p]
    else if Less(p.name, m[|m| - 1].name) then Inserted(m[..|m| - 1], p) + [m[|m| - 1]]
    else m + [p]
  }

  lemma {:induction false} InsertedNames(m: seq<Pair>, p: Pair)
    ensures |Inserted(m, p)| == |m| + 1
    ensures forall q | q in Inserted(m, p) :: q == p || q in m
  {
    if m != [] && Less(p.name, m[|m| - 1].name) {
      InsertedNames(m[..|m| - 1], p);
    }
  }

  lemma NotLess(a: string, b: string, c: string)
    requires !Less(a, b) && !Less(b, c)
    ensures !Less(a, c)
  {
  }

  lemma {:induction false} InsertedSorted(m: seq<Pair>, p: Pair)
    requires Sorted(m)
    ensures Sorted(Inserted(m, p))
  {
    if m == [] {
    } else {
      var init, last := m[..|m| - 1], m[|m| - 1];
      if Less(p.name, last.name) {
        InsertedSorted(init, p);
        InsertedNames(init, p);
        var r := Inserted(init, p);
        forall i | 0 <= i < |r|
          ensures !Less(last.name, r[i].name)
        {
          assert r[i] in r;
          LessTotal(p.name, last.name);
          if r[i] != p {
            var k := Index(m, r[i]);
          }
        }
      } else {
        forall i | 0 <= i < |m|
          ensures !Less(p.name, m[i].name)
        {
          LessTotal(last.name, last.name);
          NotLess(p.name, last.name, m[i].name);
        }
      }
    }
  }

  /** The values of a name, in the order of the map. */
  function ValuesOf(m: seq<Pair>, name: string): seq<string> {
    if m == [] then [] else
      ValuesOf(m[..|m| - 1], name) + (if m[|m| - 1].name == name then [m[|m| - 1].value] else [])
  }

  /** Inserting a pair adds its value behind the others of the same name and changes no other name. */
  lemma {:induction false} InsertedValues(m: seq<Pair>, p: Pair, name: string)
    requires Sorted(m)
    ensures ValuesOf(Inserted(m, p), name) == ValuesOf(m, name) + (if p.name == name then [p.value] else [])
  {
    if m == [] {
      assert [p][..0] == [];
    } else {
      var init, last := m[..|m| - 1], m[|m| - 1];
      if Less(p.name, last.name) {
        InsertedValues(init, p, name);
        var r := Inserted(init, p) + [last];
        assert r[..|r| - 1] == Inserted(init, p);
        LessTotal(p.name, last.name);
      } else {
        assert (m + [p])[..|m|] == m;
      }
    }
  }

  // ---- equal_range ----

  /** How many entries are less than name. */
  function Lower(m: seq<Pair>, name: string): (n: nat)
    ensures n <= |m|
  {
    if m == [] then 0 else if Less(m[|m| - 1].name, name) then |m| else Lower(m[..|m| - 1], name)
  }

  /** How many entries are not greater than name. */
  function Upper(m: seq<Pair>, name: string): (n: nat)
    ensures n <= |m|
  {
    if m == [] then 0 else if !Less(name, m[|m| - 1].name) then |m| else Upper(m[..|m| - 1], name)
  }

  lemma {:induction false} LowerIs(m: seq<Pair>, name: string, i: nat)
    requires Sorted(m) && i < |m|
    ensures i < Lower(m, name) <==> Less(m[i].name, name)
  {
    var last := m[|m| - 1].name;
    if Less(last, name) {
      LessTotal(last, last);
      LessTotal(last, m[i].name);
      if m[i].name != last {
        LessTrans(m[i].name, last, name);
      }
    } else if i < |m| - 1 {
      LowerIs(m[..|m| - 1], name, i);
    }
  }

  lemma {:induction false} UpperIs(m: seq<Pair>, name: string, i: nat)
    requires Sorted(m) && i < |m|
    ensures i < Upper(m, name) <==> !Less(name, m[i].name)
  {
    var last := m[|m| - 1].name;
    if !Less(name, last) {
      LessTotal(last, last);
      NotLess(name, last, m[i].name);
    } else if i < |m| - 1 {
      UpperIs(m[..|m| - 1], name, i);
    }
  }

  /** equal_range holds exactly the entries of the name. */
  lemma RangeIs(m: seq<Pair>, name: string)
    requires Sorted(m)
    ensures forall i | 0 <= i < |m| :: (Lower(m, name) <= i < Upper(m, name)) <==> m[i].name == name
  {
    forall i | 0 <= i < |m|
      ensures (Lower(m, name) <= i < Upper(m, name)) <==> m[i].name == name
    {
      LowerIs(m, name, i);
      UpperIs(m, name, i);
      LessTotal(m[i].name, name);
    }
  }

  // ---- parse ----

  /** The segments fmakeword cuts a text into. */
  function Pieces(s: string): seq<string>
    decreases |s|
  {
    if s == "" then [] else [Cut(s, '&').0] + Pieces(Cut(s, '&').1)
  }

  /** A segment, decoded and then split at its first '='. */
  function PairOf(dec: string -> string, piece: string): Pair {
    var d := dec(Spaced(piece));
    Pair(Before(d, '='), Behind(d, '='))
  }

  function InsertedAll(m: seq<Pair>, dec: string -> string, pieces: seq<string>): seq<Pair>
    decreases |pieces|
  {
    if pieces == [] then m else InsertedAll(Inserted(m, PairOf(dec, pieces[0])), dec, pieces[1..])
  }

  /** A segment k=v is the pair of k and v, where v may hold further equals signs. */
  lemma PairSplit(dec: string -> string, piece: string, k: string, v: string)
    requires '=' !in k && dec(Spaced(piece)) == k + "=" + v
    ensures PairOf(dec, piece) == Pair(k, v)
  {
    var d := k + "=" + v;
    PositionIs(d, '=', |k|);
    assert d[..|k|] == k && d[|k| + 1..] == v;
  }

  /** A segment without an equals sign is a name without a value. */
  lemma PairWhole(dec: string -> string, piece: string)
    requires '=' !in dec(Spaced(piece))
    ensures PairOf(dec, piece) == Pair(dec(Spaced(piece)), "")
  {
    var d := dec(Spaced(piece));
    PositionIs(d, '=', |d|);
    assert d[..|d|] == d;
  }

  /** What a decoded segment says about a name: the text behind the equals sign that follows the name. */
  function ValueFor(d: string, name: string): Option<string> {
    if '=' in name then None
    else if d == name then Some("")
    else if name + "=" <= d then Some(d[|name| + 1..])
    else None
  }

  /** The values a list of segments holds for a name, in the order of the text. */
  function ValuesIn(dec: string -> string, pieces: seq<string>, name: string): seq<string> {
    if pieces == [] then [] else
      var v := ValueFor(dec(Spaced(pieces[0])), name);
      (if v.Some? then [v.value] else []) + ValuesIn(dec, pieces[1..], name)
  }

  lemma PrefixHolds(name: string, d: string)
    requires name + "=" <= d
    ensures '=' in d
  {
    assert d[|name|] == (name + "=")[|name|];
  }

  lemma PairValue(dec: string -> string, piece: string, name: string)
    ensures var v := ValueFor(dec(Spaced(piece)), name);
            && (v.Some? <==> PairOf(dec, piece).name == name)
            && (v.Some? ==> PairOf(dec, piece).value == v.value)
  {
    var d := dec(Spaced(piece));
    var x := Position(d, '=');
    if x == |d| {
      PairWhole(dec, piece);
      if name + "=" <= d {
        PrefixHolds(name, d);
      }
    } else {
      assert d == d[..x] + "=" + d[x + 1..];
      PairSplit(dec, piece, d[..x], d[x + 1..]);
      assert d == name ==> '=' in name;
      if '=' !in name && name + "=" <= d {
        PositionIs(d, '=', |name|);
        assert d[..|name|] == name;
      }
    }
  }

  lemma Joined<T>(a: seq<T>, b: seq<T>, c: seq<T>)
    ensures a + b + c == a + (b + c) && a + [] == a
  {
  }

  lemma {:induction false} AllSorted(m: seq<Pair>, dec: string -> string, pieces: seq<string>)
    requires Sorted(m)
    ensures Sorted(InsertedAll(m, dec, pieces))
    decreases |pieces|
  {
    if pieces == [] {
    } else {
      InsertedSorted(m, PairOf(dec, pieces[0]));
      AllSorted(Inserted(m, PairOf(dec, pieces[0])), dec, pieces[1..]);
    }
  }

  /**
   * The values found for a name come out in the order of the text: they are what stands behind the
   * name and its equals sign in the decoded segments.
   */
  lemma {:induction false} InOrder(m: seq<Pair>, dec: string -> string, pieces: seq<string>, name: string)
    requires Sorted(m)
    ensures Sorted(InsertedAll(m, dec, pieces))
    ensures ValuesOf(InsertedAll(m, dec, pieces), name) == ValuesOf(m, name) + ValuesIn(dec, pieces, name)
    decreases |pieces|
  {
    AllSorted(m, dec, pieces);
    if pieces == [] {
      Joined(ValuesOf(m, name), [], []);
    } else {
      var p := PairOf(dec, pieces[0]);
      InsertedSorted(m, p);
      InsertedValues(m, p, name);
      PairValue(dec, pieces[0], name);
      InOrder(Inserted(m, p), dec, pieces[1..], name);
      Joined(ValuesOf(m, name), if p.name == name then [p.value] else [], ValuesIn(dec, pieces[1..], name));
    }
  }

  predicate Occurs(part: string, s: string) {
    part <= s || (s != "" && Occurs(part, s[1..]))
  }

  /** Occurs is string::find. */
  lemma {:induction false} OccursSomewhere(part: string, s: string)
    ensures Occurs(part, s) <==> exists i {:trigger s[i..]} | 0 <= i <= |s| :: part <= s[i..]
  {
    assert s[0..] == s;
    if part <= s {
    } else if s == "" {
      assert forall i | 0 <= i <= |s| :: s[i..] == s;
    } else {
      OccursSomewhere(part, s[1..]);
      if Occurs(part, s) {
        var i :| 0 <= i <= |s[1..]| && part <= s[1..][i..];
        assert s[1..][i..] == s[i + 1..];
      }
      if i :| 0 <= i <= |s| && part <= s[i..] {
        assert s[i..] == s[1..][i - 1..];
      }
    }
  }

  /** A form body is looked at only if the request says it is one. */
  predicate IsForm(verb: string, contentType: string) {
    verb == "POST" && Occurs("application/x-www-form-urlencoded", contentType)
  }

  /** The content type may carry parameters. */
  lemma FormContent(verb: string, before: string, after: string)
    ensures IsForm(verb, before + "application/x-www-form-urlencoded" + after) <==> verb == "POST"
  {
    var part := "application/x-www-form-urlencoded";
    var s := before + part + after;
    assert s[|before|..] == part + after;
    OccursSomewhere(part, s);
  }

  predicate NulFree(text: Option<string>) {
    text.Some? ==> NUL !in text.value
  }

  function TextOf(text: Option<string>): string {
    if text.Some? then text.value else ""
  }

  /** The string a buffer holds. */
  method Copied(buffer: array<char>, ghost s: string) returns (t: string)
    requires Holds(buffer[..], s)
    ensures t == s
  {
    var n := Length(buffer, s);
    t := buffer[..n];
    assert buffer[..][..n] == s;
  }

  class CgiParser {
    const dec: string -> string
    var kvp: seq<Pair>

    ghost predicate Valid()
      reads this
    {
      Sorted(kvp) && DecoderOk(dec)
    }

    /** The constructor: the query string, then the body of a form. */
    constructor (dec: string -> string, query: Option<string>, verb: string, contentType: string,
        body: Option<string>, queryOnly: bool)
      requires DecoderOk(dec) && NulFree(query) && NulFree(body)
      ensures Valid() && this.dec == dec
      ensures kvp == InsertedAll(InsertedAll([], dec, Pieces(TextOf(query))), dec,
                                 if !queryOnly && IsForm(verb, contentType) then Pieces(TextOf(body)) else [])
    {
      this.dec := dec;
      kvp := [];
      new;
      Parse(query);
      if !queryOnly && verb == "POST" {
        if Occurs("application/x-www-form-urlencoded", contentType) {
          Parse(body);
        }
      }
    }

    /** One parameter: cut it off, decode it, split it, insert it. */
    method TakeOne(text: string, cl0: nat, pos0: nat) returns (cl: nat, pos: nat)
      requires Valid() && cl0 > 0 && pos0 + cl0 == |text| && NUL !in text
      modifies this
      ensures Valid() && pos + cl == |text| && cl < cl0
      ensures text[pos..] == Cut(text[pos0..], '&').1
      ensures kvp == Inserted(old(kvp), PairOf(dec, Cut(text[pos0..], '&').0))
    {
      ghost var piece := Cut(text[pos0..], '&').0;
      var value;
      value, cl, pos := FMakeWord('&', cl0, text, pos0);
      PlusToSpace(value, piece);
      Decode(dec, value, Spaced(piece));
      ghost var d := dec(Spaced(piece));
      var name := MakeWord(value, '=', d);
      var key := Copied(name, Before(d, '='));
      var val := Copied(value, Behind(d, '='));
      InsertedSorted(kvp, Pair(key, val));
      kvp := Inserted(kvp, Pair(key, val));
    }

    /** CGIParser::parse. */
    method Parse(pch: Option<string>)
      requires Valid() && NulFree(pch)
      modifies this
      ensures Valid() && kvp == InsertedAll(old(kvp), dec, Pieces(TextOf(pch)))
    {
      if pch.None? {
        return;
      }
      var cl, pos := |pch.value|, 0;
      assert pch.value[0..] == pch.value;
      while cl > 0
        invariant Valid() && 0 <= pos && 0 <= cl && pos + cl == |pch.value|
        invariant InsertedAll(kvp, dec, Pieces(pch.value[pos..])) == InsertedAll(old(kvp), dec, Pieces(pch.value))
        decreases cl
      {
        ghost var rest := pch.value[pos..];
        assert Pieces(rest)[0] == Cut(rest, '&').0 && Pieces(rest)[1..] == Pieces(Cut(rest, '&').1);
        cl, pos := TakeOne(pch.value, cl, pos);
      }
      assert pch.value[pos..] == "";
    }

    /** CGIParser::getParameters: the bounds of the entries of a name, or of all entries. */
    method GetParameters(name: Option<string>) returns (first: nat, last: nat)
      requires Valid()
      ensures first <= last <= |kvp|
      ensures forall i | 0 <= i < |kvp| :: first <= i < last <==> (name.Some? ==> kvp[i].name == name.value)
    {
      if name.None? {
        return 0, |kvp|;
      }
      RangeIs(kvp, name.value);
      first, last := Lower(kvp, name.value), Upper(kvp, name.value);
      if last < first {
        assert !Less(kvp[last].name, name.value) || last < Lower(kvp, name.value);
        LowerIs(kvp, name.value, last);
        UpperIs(kvp, name.value, last);
        LessTotal(kvp[last].name, name.value);
      }
    }
  }

  /** The entries getParameters encloses hold the values of the name, in order. */
  lemma {:induction false} RangeValues(m: seq<Pair>, name: string, first: nat, last: nat)
    requires first <= last <= |m|
    requires forall i | 0 <= i < |m| :: first <= i < last <==> m[i].name == name
    ensures |ValuesOf(m, name)| == last - first
    ensures forall i | first <= i < last :: ValuesOf(m, name)[i - first] == m[i].value
  {
    if m == [] {
    } else {
      var init := m[..|m| - 1];
      RangeValues(init, name, if first < |m| then first else |init|, if last < |m| then last else |init|);
    }
  }

  // ---- Segments ----

  /** The parts between the stop characters; there is always at least one. */
  function Split(s: string, stop: char): (parts: seq<string>)
    ensures parts != []
    decreases |s|
  {
    if Position(s, stop) == |s| then [s] else [Before(s, stop)] + Split(Behind(s, stop), stop)
  }

  function Join(parts: seq<string>, stop: char): string
    requires parts != []
  {
    if |parts| == 1 then parts[0] else parts[0] + [stop] + Join(parts[1..], stop)
  }

  /** Split is the inverse of joining parts without stop characters. */
  lemma {:induction false} JoinSplit(s: string, stop: char)
    ensures Join(Split(s, stop), stop) == s
    ensures forall p | p in Split(s, stop) :: stop !in p
    decreases |s|
  {
    var x := Position(s, stop);
    if x < |s| {
      JoinSplit(Behind(s, stop), stop);
      assert Split(s, stop)[1..] == Split(Behind(s, stop), stop);
      assert s == s[..x] + [stop] + s[x + 1..];
    }
  }

  function DropEmptyLast(parts: seq<string>): seq<string>
    requires parts != []
  {
    if parts[|parts| - 1] == "" then parts[..|parts| - 1] else parts
  }

  /** Without the byte 0xFF, parse sees one segment between any two '&', an empty last one dropped. */
  lemma {:induction false} PiecesAreSegments(s: string)
    requires EOF_BYTE !in s
    ensures Pieces(s) == DropEmptyLast(Split(s, '&'))
    decreases |s|
  {
    if s == "" {
    } else {
      var x := Position(s, '&');
      if x < |s| {
        var rest := s[x + 1..];
        CutIs(s, '&', x);
        PiecesAreSegments(rest);
        var parts := Split(rest, '&');
        assert Split(s, '&') == [s[..x]] + parts;
        assert ([s[..x]] + parts)[..|parts|] == [s[..x]] + parts[..|parts| - 1];
      } else {
        CutIs(s, '&', |s| - 1);
        assert s[..|s|] == s && s[|s|..] == "";
        assert Pieces("") == [];
      }
    }
  }
}
