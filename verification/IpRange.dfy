/** IPRange.cpp: CIDR blocks over bit sets. Bit 0 of a bit set is the least significant one. */
module IpRange {
  import opened Basics

  type Bits = seq<bool>
  type Byte = n: nat | n < 256

  function Pow2(n: nat): (p: nat)
    ensures p > 0
  {
    if n == 0 then 1 else 2 * Pow2(n - 1)
  }

  function Bit(b: bool): nat { if b then 1 else 0 }

  /** The number a bit set stands for. */
  function Value(b: Bits): nat {
    if b == [] then 0 else Bit(b[0]) + 2 * Value(b[1..])
  }

  /** The bitset constructor from an integer: the low bits of n. */
  function FromNat(n: nat, len: nat): (b: Bits)
    ensures |b| == len
  {
    if len == 0 then [] else [n % 2 == 1] + FromNat(n / 2, len - 1)
  }

  function And(a: Bits, b: Bits): (c: Bits)
    requires |a| == |b|
    ensures |c| == |a|
  {
    seq(|a|, i requires 0 <= i < |a| => a[i] && b[i])
  }

  function Or(a: Bits, b: Bits): (c: Bits)
    requires |a| == |b|
    ensures |c| == |a|
  {
    seq(|a|, i requires 0 <= i < |a| => a[i] || b[i])
  }

  function ShiftLeft(a: Bits, k: nat): (c: Bits)
    requires k <= |a|
    ensures |c| == |a|
  {
    seq(k, _ => false) + a[..|a| - k]
  }

  // ---- Bit sets and numbers ----

  lemma Twice(p: nat, h: nat)
    ensures 2 * (p * h) == (2 * p) * h
  {
  }

  lemma {:induction false} Pow2Sum(a: nat, b: nat)
    ensures Pow2(a + b) == Pow2(a) * Pow2(b)
  {
    if a == 0 {
    } else {
      Pow2Sum(a - 1, b);
      Twice(Pow2(a - 1), Pow2(b));
    }
  }

  lemma {:induction false} ValueBound(b: Bits)
    ensures Value(b) < Pow2(|b|)
  {
    if b == [] {
    } else {
      ValueBound(b[1..]);
    }
  }

  /** The low k bits are the remainder, the others the quotient, modulo 2^k. */
  lemma {:induction false} ValueSplit(b: Bits, k: nat)
    requires k <= |b|
    ensures Value(b) == Value(b[..k]) + Pow2(k) * Value(b[k..])
  {
    if k == 0 {
      assert b[..0] == [] && b[0..] == b;
    } else {
      ValueSplit(b[1..], k - 1);
      assert b[..k][1..] == b[1..][..k - 1] && b[k..] == b[1..][k - 1..];
      var low, high := Value(b[1..][..k - 1]), Value(b[k..]);
      assert 2 * (low + Pow2(k - 1) * high) == 2 * low + Pow2(k) * high by {
        Twice(Pow2(k - 1), high);
      }
    }
  }

  lemma {:induction false} ValueInjective(a: Bits, b: Bits)
    requires |a| == |b| && Value(a) == Value(b)
    ensures a == b
  {
    if a == [] {
    } else {
      assert Bit(a[0]) == Value(a) % 2 && Bit(b[0]) == Value(b) % 2;
      ValueInjective(a[1..], b[1..]);
      assert a == [a[0]] + a[1..] && b == [b[0]] + b[1..];
    }
  }

  lemma {:induction false} ValueFromNat(n: nat, len: nat)
    requires n < Pow2(len)
    ensures Value(FromNat(n, len)) == n
  {
    if len == 0 {
    } else {
      ValueFromNat(n / 2, len - 1);
    }
  }

  lemma {:induction false} NoBits(k: nat)
    ensures Value(seq(k, _ => false)) == 0
  {
    if k == 0 {
    } else {
      NoBits(k - 1);
      assert seq(k, _ => false)[1..] == seq(k - 1, _ => false);
    }
  }

  lemma Distribute(a: nat, d: nat, p: nat)
    ensures (a + d) * p == a * p + d * p
  {
  }

  lemma NotNegative(a: nat, b: nat)
    ensures a * b >= 0
  {
  }

  lemma MulLess(a: nat, b: nat, p: nat)
    requires a < b && p > 0
    ensures a * p + p <= b * p
  {
    Distribute(a, b - a, p);
    Distribute(1, b - a - 1, p);
    NotNegative(b - a - 1, p);
  }

  lemma DivUnique(v: nat, low: nat, p: nat, high: nat)
    requires v == low + p * high && low < p
    ensures v / p == high && v % p == low
  {
    var q, r := v / p, v % p;
    assert v == q * p + r && p * high == high * p;
    if q < high {
      MulLess(q, high, p);
    } else if q > high {
      MulLess(high, q, p);
    }
  }

  lemma ValueParts(b: Bits, k: nat)
    requires k <= |b|
    ensures Value(b[k..]) == Value(b) / Pow2(k) && Value(b[..k]) == Value(b) % Pow2(k)
  {
    ValueSplit(b, k);
    ValueBound(b[..k]);
    DivUnique(Value(b), Value(b[..k]), Pow2(k), Value(b[k..]));
  }

  // ---- Assembling an address ----

  /** The number that bytes in network order stand for. */
  function BigEndian(raw: seq<Byte>): nat {
    if raw == [] then 0 else BigEndian(raw[..|raw| - 1]) * 256 + raw[|raw| - 1]
  }

  lemma {:induction false} BigEndianBound(raw: seq<Byte>)
    ensures BigEndian(raw) < Pow2(8 * |raw|)
  {
    if raw == [] {
    } else {
      BigEndianBound(raw[..|raw| - 1]);
      Pow2Sum(8, 8 * (|raw| - 1));
      assert Pow2(8) == 256;
      assert 8 + 8 * (|raw| - 1) == 8 * |raw|;
    }
  }

  lemma SmallDiv(v: nat, p: nat)
    requires v < p
    ensures v / p == 0 && v % p == v
  {
  }

  /** Shifting in zeroes multiplies, as long as nothing is shifted out. */
  lemma ShiftValue(b: Bits, k: nat)
    requires k <= |b| && Value(b) < Pow2(|b| - k)
    ensures Value(ShiftLeft(b, k)) == Pow2(k) * Value(b)
  {
    var n := |b| - k;
    var s := ShiftLeft(b, k);
    ValueParts(b, n);
    ValueSplit(b, n);
    SmallDiv(Value(b), Pow2(n));
    assert s[..k] == seq(k, _ => false) && s[k..] == b[..n];
    NoBits(k);
    ValueSplit(s, k);
  }

  lemma Grows(p: nat, q: nat)
    requires q > 0
    ensures p <= p * q
  {
  }

  /** A small number has no high bits. */
  lemma HighBits(n: nat, len: nat, k: nat)
    requires k <= len && n < Pow2(k)
    ensures Value(FromNat(n, len)[..k]) == n && forall i | k <= i < len :: !FromNat(n, len)[i]
  {
    var c := FromNat(n, len);
    Pow2Sum(k, len - k);
    Grows(Pow2(k), Pow2(len - k));
    ValueFromNat(n, len);
    ValueParts(c, k);
    SmallDiv(n, Pow2(k));
    NoBits(len - k);
    ValueInjective(c[k..], seq(len - k, _ => false));
    forall i | k <= i < len
      ensures !c[i]
    {
      assert c[i] == c[k..][i - k];
    }
  }

  /** Filling in bits where there are only zeroes adds. */
  lemma OrValue(b: Bits, n: nat, k: nat)
    requires k <= |b| && n < Pow2(k) && forall i | 0 <= i < k :: !b[i]
    ensures Value(Or(b, FromNat(n, |b|))) == Value(b) + n
  {
    var c, d := FromNat(n, |b|), Or(b, FromNat(n, |b|));
    HighBits(n, |b|, k);
    assert d[..k] == c[..k] && d[k..] == b[k..] && b[..k] == seq(k, _ => false);
    NoBits(k);
    ValueSplit(b, k);
    ValueSplit(d, k);
  }

  lemma FirstByte(raw: seq<Byte>)
    requires |raw| == 16
    ensures Value(FromNat(raw[0], 128)) == BigEndian(raw[..1])
  {
    Pow2Sum(8, 120);
    Grows(Pow2(8), Pow2(120));
    assert Pow2(8) == 256;
    ValueFromNat(raw[0], 128);
    assert raw[..1][..0] == [];
  }

  lemma RoomForByte(b: Bits, raw: seq<Byte>, i: nat)
    requires |raw| == 16 && 1 <= i < 16 && |b| == 128 && Value(b) == BigEndian(raw[..i])
    ensures Value(b) < Pow2(120)
  {
    BigEndianBound(raw[..i]);
    Pow2Sum(8 * i, 120 - 8 * i);
    Grows(Pow2(8 * i), Pow2(120 - 8 * i));
    assert 8 * i + (120 - 8 * i) == 120;
  }

  lemma ShiftByte(b: Bits, x: Byte)
    requires |b| == 128 && Value(b) < Pow2(120)
    ensures Value(Or(ShiftLeft(b, 8), FromNat(x, 128))) == 256 * Value(b) + x
  {
    assert Pow2(8) == 256;
    ShiftValue(b, 8);
    OrValue(ShiftLeft(b, 8), x, 8);
  }

  lemma NextByte(b: Bits, raw: seq<Byte>, i: nat)
    requires |raw| == 16 && 1 <= i < 16 && |b| == 128 && Value(b) == BigEndian(raw[..i])
    ensures Value(Or(ShiftLeft(b, 8), FromNat(raw[i], 128))) == BigEndian(raw[..i + 1])
  {
    RoomForByte(b, raw, i);
    ShiftByte(b, raw[i]);
    assert raw[..i + 1][..i] == raw[..i];
  }

  /** The loop that assembles an IPv6 address, eight bits at a time. */
  method Assemble(raw: seq<Byte>) returns (rawbits: Bits)
    requires |raw| == 16
    ensures |rawbits| == 128 && Value(rawbits) == BigEndian(raw)
  {
    rawbits := FromNat(raw[0], 128);
    FirstByte(raw);
    var i := 1;
    while i < 16
      invariant 1 <= i <= 16 && |rawbits| == 128 && Value(rawbits) == BigEndian(raw[..i])
    {
      NextByte(rawbits, raw, i);
      rawbits := ShiftLeft(rawbits, 8);
      rawbits := Or(rawbits, FromNat(raw[i], 128));
      i := i + 1;
    }
    assert raw[..16] == raw;
  }

  // ---- Ranges ----

  datatype Range = Range(length: nat, network: Bits, mask: Bits)

  /** The range of the addresses that share the first size bits with address. */
  ghost predicate Describes(r: Range, address: Bits, size: nat) {
    && r.length == |address| && size <= |address| && |r.mask| == |address|
    && (forall i | 0 <= i < |address| :: r.mask[i] <==> i >= |address| - size)
    && r.network == And(address, r.mask)
  }

  /** The IPRange constructors; None is the exception. */
  method Construct(address: Bits, maskSize: int) returns (r: Option<Range>)
    requires |address| == 32 || |address| == 128
    ensures r.None? <==> maskSize < 0 || maskSize > |address|
    ensures r.Some? ==> Describes(r.value, address, maskSize)
  {
    if maskSize < 0 || maskSize > |address| {
      return None;
    }
    var mask: Bits := seq(|address|, _ => false);
    var i := |address| - maskSize;
    while i < |address|
      invariant |address| - maskSize <= i <= |address| && |mask| == |address|
      invariant forall j | 0 <= j < |address| :: mask[j] <==> |address| - maskSize <= j < i
    {
      mask := mask[i := true];
      i := i + 1;
    }
    r := Some(Range(|address|, And(address, mask), mask));
  }

  datatype Address = V4(raw: seq<Byte>) | V6(raw: seq<Byte>) | Other

  /** What the socket functions guarantee about an address. */
  predicate AddressOk(a: Address) {
    (a.V4? ==> |a.raw| == 4) && (a.V6? ==> |a.raw| == 16)
  }

  /** The size of the interval and where it starts: a multiple of the size. */
  function Size(length: nat, prefix: nat): nat
    requires prefix <= length
  {
    Pow2(length - prefix)
  }

  function Base(address: nat, size: nat): nat
    requires size > 0
  {
    address / size * size
  }

  /** x lies in the aligned interval of the given size around address. */
  predicate Within(address: nat, size: nat, x: nat)
    requires size > 0
  {
    Base(address, size) <= x < Base(address, size) + size
  }

  lemma WithinIsQuotient(address: nat, size: nat, x: nat)
    requires size > 0
    ensures Within(address, size, x) <==> x / size == address / size
  {
    var q, a := x / size, address / size;
    assert x == q * size + x % size;
    if q < a {
      MulLess(q, a, size);
    } else if q > a {
      MulLess(a, q, size);
    }
  }

  /** Comparing under the mask compares the bits above the host part. */
  lemma MaskCompares(r: Range, address: Bits, size: nat, b: Bits)
    requires Describes(r, address, size) && |b| == |address|
    ensures And(b, r.mask) == r.network <==> b[|b| - size..] == address[|b| - size..]
  {
    var h := |b| - size;
    if And(b, r.mask) == r.network {
      forall i | 0 <= i < size
        ensures b[h..][i] == address[h..][i]
      {
        assert And(b, r.mask)[h + i] == r.network[h + i];
      }
    }
    if b[h..] == address[h..] {
      forall i | 0 <= i < |b|
        ensures And(b, r.mask)[i] == r.network[i]
      {
        if i >= h {
          assert b[h..][i - h] == address[h..][i - h];
        }
      }
    }
  }

  predicate Matches(r: Range, b: Bits)
    requires |b| == |r.mask|
  {
    And(b, r.mask) == r.network
  }

  /** An address matches exactly when it lies in the aligned interval around the base address. */
  lemma MatchIsInterval(r: Range, address: Bits, size: nat, b: Bits)
    requires Describes(r, address, size) && |b| == |address|
    ensures Matches(r, b) <==> Within(Value(address), Size(|b|, size), Value(b))
  {
    var h := |b| - size;
    MaskCompares(r, address, size, b);
    ValueParts(b, h);
    ValueParts(address, h);
    if Value(b[h..]) == Value(address[h..]) {
      ValueInjective(b[h..], address[h..]);
    }
    WithinIsQuotient(Value(address), Pow2(h), Value(b));
  }

  /** IPRange::contains on a parsed address. */
  method Contains(r: Range, a: Address, ghost address: Bits, ghost size: nat) returns (inside: bool)
    requires Describes(r, address, size) && (|address| == 32 || |address| == 128) && AddressOk(a)
    ensures inside <==>
        !a.Other? && 8 * |a.raw| == |address| && Within(Value(address), Size(|address|, size), BigEndian(a.raw))
  {
    match a
    case V4(raw) =>
      if r.length != 32 {
        return false;
      }
      var rawbits := FromNat(BigEndian(raw), 32);
      BigEndianBound(raw);
      ValueFromNat(BigEndian(raw), 32);
      MatchIsInterval(r, address, size, rawbits);
      inside := Matches(r, rawbits);
    case V6(raw) =>
      if r.length != 128 {
        return false;
      }
      var rawbits := Assemble(raw);
      MatchIsInterval(r, address, size, rawbits);
      inside := Matches(r, rawbits);
    case Other => inside := false;
  }

  // ---- What follows for blocks ----

  /** Host bits do not matter: addresses with the same network part give the same range. */
  lemma HostBitsIgnored(r: Range, s: Range, a: Bits, b: Bits, size: nat)
    requires Describes(r, a, size) && Describes(s, b, size) && |a| == |b| && a[|a| - size..] == b[|a| - size..]
    ensures r == s
  {
  }

  lemma Regroup(w: nat, k: nat, z: nat, q: nat)
    ensures (w * k + z) * q == z * q + (k * q) * w
  {
  }

  lemma Split(x: nat, q: nat)
    requires q > 0
    ensures x == x / q * q + x % q && x % q < q
  {
  }

  lemma Positive(k: nat, q: nat)
    requires q > 0 && k > 0
    ensures k * q > 0
  {
  }

  lemma DivDiv(x: nat, q: nat, k: nat)
    requires q > 0 && k > 0
    ensures k * q > 0 && x / (k * q) == x / q / k
  {
    var u, v := x / q, x % q;
    var w, z := u / k, u % k;
    Positive(k, q);
    Split(x, q);
    Split(u, k);
    Regroup(w, k, z, q);
    MulLess(z, k, q);
    DivUnique(x, z * q + v, k * q, w);
  }

  lemma IntervalsNest(a: nat, b: nat, length: nat, m: nat, n: nat, x: nat, y: nat)
    requires m <= n <= length
    requires Within(a, Size(length, m), x) && Within(b, Size(length, n), x)
    requires Within(b, Size(length, n), y)
    ensures Within(a, Size(length, m), y)
  {
    var p, q := Size(length, m), Size(length, n);
    WithinIsQuotient(a, p, x);
    WithinIsQuotient(b, q, x);
    WithinIsQuotient(b, q, y);
    Pow2Sum(n - m, length - n);
    assert n - m + (length - n) == length - m;
    DivDiv(x, q, Pow2(n - m));
    DivDiv(y, q, Pow2(n - m));
    WithinIsQuotient(a, p, y);
  }

  /**
   * Two blocks of one family are nested or disjoint: if they share an address, the one with the
   * longer prefix lies inside.
   */
  lemma NestedOrDisjoint(r: Range, a: Bits, m: nat, s: Range, b: Bits, n: nat, x: Bits, y: Bits)
    requires Describes(r, a, m) && Describes(s, b, n) && |a| == |b| == |x| == |y| && m <= n
    requires Matches(r, x) && Matches(s, x) && Matches(s, y)
    ensures Matches(r, y)
  {
    MatchIsInterval(r, a, m, x);
    MatchIsInterval(s, b, n, x);
    MatchIsInterval(s, b, n, y);
    MatchIsInterval(r, a, m, y);
    IntervalsNest(Value(a), Value(b), |a|, m, n, Value(x), Value(y));
  }

  // ---- Whole bytes ----

  /** One more byte at the end: what Pow2 of its place times the value above it comes to. */
  lemma MoreBytes(v: nat, p: nat, low: nat, last: nat)
    ensures (v * p + low) * 256 + last == v * (256 * p) + (low * 256 + last)
  {
    assert (v * p + low) * 256 == v * p * 256 + low * 256;
    assert v * p * 256 == v * (256 * p);
  }

  lemma {:induction false} BigEndianCat(a: seq<Byte>, b: seq<Byte>)
    ensures BigEndian(a + b) == BigEndian(a) * Pow2(8 * |b|) + BigEndian(b)
  {
    if b == [] {
      assert a + b == a;
    } else {
      var init, last := b[..|b| - 1], b[|b| - 1];
      assert (a + b)[..|a + b| - 1] == a + init && (a + b)[|a + b| - 1] == last;
      BigEndianCat(a, init);
      Pow2Sum(8, 8 * |init|);
      assert Pow2(8) == 256 && 8 + 8 * |init| == 8 * |b|;
      MoreBytes(BigEndian(a), Pow2(8 * |init|), BigEndian(init), last);
    }
  }

  lemma {:induction false} BigEndianInjective(a: seq<Byte>, b: seq<Byte>)
    requires |a| == |b| && BigEndian(a) == BigEndian(b)
    ensures a == b
  {
    if a == [] {
    } else {
      BigEndianInjective(a[..|a| - 1], b[..|b| - 1]);
      assert a == a[..|a| - 1] + [a[|a| - 1]] && b == b[..|b| - 1] + [b[|b| - 1]];
    }
  }

  lemma HighPart(v: nat, high: nat, p: nat, low: nat)
    requires v == high * p + low && low < p
    ensures v / p == high
  {
    DivUnique(v, low, p, high);
  }

  lemma LeadingBytes(high: seq<Byte>, low: seq<Byte>)
    ensures BigEndian(high + low) / Pow2(8 * |low|) == BigEndian(high)
  {
    BigEndianCat(high, low);
    BigEndianBound(low);
    HighPart(BigEndian(high + low), BigEndian(high), Pow2(8 * |low|), BigEndian(low));
  }

  lemma Leading(a: seq<Byte>, k: nat)
    requires k <= |a|
    ensures BigEndian(a) / Pow2(8 * (|a| - k)) == BigEndian(a[..k])
  {
    assert a == a[..k] + a[k..];
    LeadingBytes(a[..k], a[k..]);
  }

  lemma SameBlock(v: nat, w: nat, p: nat, x: nat, y: nat)
    requires p > 0 && v / p == x && w / p == y
    ensures Within(v, p, w) <==> x == y
  {
    WithinIsQuotient(v, p, w);
  }

  /** Two addresses share the block of prefix length 8k exactly when their first k bytes are the same. */
  lemma BytePrefix(a: seq<Byte>, b: seq<Byte>, k: nat)
    requires |a| == |b| && k <= |a|
    ensures Within(BigEndian(a), Size(8 * |a|, 8 * k), BigEndian(b)) <==> a[..k] == b[..k]
  {
    assert Size(8 * |a|, 8 * k) == Pow2(8 * (|a| - k));
    Leading(a, k);
    Leading(b, k);
    SameBlock(BigEndian(a), BigEndian(b), Pow2(8 * (|a| - k)), BigEndian(a[..k]), BigEndian(b[..k]));
    if BigEndian(a[..k]) == BigEndian(b[..k]) {
      BigEndianInjective(a[..k], b[..k]);
    }
  }
}
