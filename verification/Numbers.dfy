/** Decimal numbers as the C library prints and reads them. */
module Numbers {
  import opened Forest

  const ULONG_MAX: nat := 0xFFFF_FFFF_FFFF_FFFF

  predicate IsDigit(c: char) { '0' <= c <= '9' }

  function DigitValue(c: char): (d: nat)
    requires IsDigit(c)
  {
    c as int - '0' as int
  }

  function DigitChar(d: nat): (c: char)
    requires d < 10
    ensures IsDigit(c) && DigitValue(c) == d
  {
    ('0' as int + d) as char
  }

  predicate IsSpace(c: char) {
    c == ' ' || '\t' <= c <= '\r'
  }

  function SkipSpace(s: string): string {
    if s != "" && IsSpace(s[0]) then SkipSpace(s[1..]) else s
  }

  /** The value of the digits s starts with, read after the digits that made up acc. */
  function ReadDigits(s: string, acc: nat): nat {
    if s != "" && IsDigit(s[0]) then ReadDigits(s[1..], acc * 10 + DigitValue(s[0])) else acc
  }

  /** The optional sign and the magnitude that strtol and strtoul see. */
  function ReadSigned(s: string): (r: (bool, nat)) {
    var t := SkipSpace(s);
    if t != "" && t[0] == '-' then (true, ReadDigits(t[1..], 0))
    else if t != "" && t[0] == '+' then (false, ReadDigits(t[1..], 0))
    else (false, ReadDigits(t, 0))
  }

  function Clamp(v: int): Long {
    if v < LONG_MIN then LONG_MIN else if v > LONG_MAX then LONG_MAX else v
  }

  /** atol: values outside the range of long are clamped. */
  function Atol(s: string): Long {
    var (negative, m) := ReadSigned(s);
    var v: int := m;
    Clamp(if negative then 0 - v else v)
  }

  /** strtoul in base 10: overflow is clamped, a minus sign negates modulo the word size. */
  function Strtoul(s: string): nat {
    var (negative, m) := ReadSigned(s);
    if m > ULONG_MAX then ULONG_MAX
    else if negative && m > 0 then ULONG_MAX + 1 - m
    else m
  }

  function PrintNat(n: nat): (s: string)
    ensures s != "" && forall c | c in s :: IsDigit(c)
  {
    if n < 10 then [DigitChar(n)] else PrintNat(n / 10) + [DigitChar(n % 10)]
  }

  function Ten(k: nat): (n: nat)
    ensures n >= 1
  {
    if k == 0 then 1 else 10 * Ten(k - 1)
  }

  function PrintLong(n: int): (s: string)
    ensures s != "" && forall c | c in s :: IsDigit(c) || c == '-'
  {
    if n < 0 then "-" + PrintNat(-n) else PrintNat(n)
  }

  lemma {:induction false} ReadDigitsAppend(s: string, c: char, acc: nat)
    requires forall d | d in s :: IsDigit(d)
    requires IsDigit(c)
    ensures ReadDigits(s + [c], acc) == ReadDigits(s, acc) * 10 + DigitValue(c)
  {
    if s == "" {
      assert s + [c] == [c];
      assert [c][1..] == "";
    } else {
      assert (s + [c])[1..] == s[1..] + [c];
      ReadDigitsAppend(s[1..], c, acc * 10 + DigitValue(s[0]));
    }
  }

  lemma {:induction false} ReadPrintNat(n: nat)
    ensures ReadDigits(PrintNat(n), 0) == n
  {
    if n < 10 {
      assert PrintNat(n)[1..] == "";
    } else {
      ReadPrintNat(n / 10);
      ReadDigitsAppend(PrintNat(n / 10), DigitChar(n % 10), 0);
    }
  }

  /** Digits are read up to the first character that is none. */
  lemma {:induction false} ReadDigitsStop(s: string, rest: string, acc: nat)
    requires (forall d | d in s :: IsDigit(d)) && (rest == "" || !IsDigit(rest[0]))
    ensures ReadDigits(s + rest, acc) == ReadDigits(s, acc)
  {
    if s == "" {
      assert s + rest == rest;
    } else {
      assert (s + rest)[1..] == s[1..] + rest;
      ReadDigitsStop(s[1..], rest, acc * 10 + DigitValue(s[0]));
    }
  }

  lemma {:induction false} SkipBlanks(blanks: string, s: string)
    requires (forall c | c in blanks :: IsSpace(c)) && (s == "" || !IsSpace(s[0]))
    ensures SkipSpace(blanks + s) == s
  {
    if blanks == "" {
      assert blanks + s == s;
    } else {
      assert (blanks + s)[1..] == blanks[1..] + s;
      SkipBlanks(blanks[1..], s);
    }
  }

  /** White space, a number and anything that is no digit. */
  lemma ReadSignedText(blanks: string, n: int, rest: string)
    requires (forall c | c in blanks :: IsSpace(c)) && (rest == "" || !IsDigit(rest[0]))
    ensures ReadSigned(blanks + PrintLong(n) + rest) == if n < 0 then (true, -n) else (false, n)
  {
    var s := PrintLong(n);
    var t := s + rest;
    assert s[0] in s;
    assert blanks + s + rest == blanks + t;
    SkipBlanks(blanks, t);
    if n < 0 {
      ReadPrintNat(-n);
      ReadDigitsStop(PrintNat(-n), rest, 0);
      assert t[1..] == PrintNat(-n) + rest;
    } else {
      ReadPrintNat(n);
      ReadDigitsStop(PrintNat(n), rest, 0);
      assert IsDigit(s[0]);
    }
  }

  /** atol takes the number a text starts with, whatever its size, to the nearest long. */
  lemma AtolOfText(blanks: string, n: int, rest: string)
    requires (forall c | c in blanks :: IsSpace(c)) && (rest == "" || !IsDigit(rest[0]))
    ensures var v := Atol(blanks + PrintLong(n) + rest);
            && (LONG_MIN <= n <= LONG_MAX ==> v == n)
            && (n < LONG_MIN ==> v == LONG_MIN) && (n > LONG_MAX ==> v == LONG_MAX)
  {
    ReadSignedText(blanks, n, rest);
  }

  lemma StrtoulOfNat(n: nat, rest: string)
    requires n <= ULONG_MAX && (rest == "" || !IsDigit(rest[0]))
    ensures Strtoul(PrintNat(n) + rest) == n
  {
    ReadSignedText("", n, rest);
    assert "" + PrintLong(n) + rest == PrintNat(n) + rest;
  }

  /** A plus sign changes nothing, and a text that starts with no number stands for zero. */
  lemma AtolOfOther(blanks: string, n: nat, rest: string)
    requires (forall c | c in blanks :: IsSpace(c)) && (rest == "" || !IsDigit(rest[0]))
    ensures Atol(blanks + "+" + PrintNat(n) + rest) == if n <= LONG_MAX then n else LONG_MAX
    ensures rest == "" || (!IsSpace(rest[0]) && rest[0] != '-' && rest[0] != '+') ==> Atol(blanks + rest) == 0
  {
    var t := "+" + (PrintNat(n) + rest);
    assert blanks + "+" + PrintNat(n) + rest == blanks + t && t[1..] == PrintNat(n) + rest;
    SkipBlanks(blanks, t);
    ReadPrintNat(n);
    ReadDigitsStop(PrintNat(n), rest, 0);
    if rest == "" || !IsSpace(rest[0]) {
      SkipBlanks(blanks, rest);
    }
  }

  /** strtoul never gives more than the largest word, which stands for every number beyond it. */
  lemma StrtoulOverflow(n: nat, rest: string)
    requires n > ULONG_MAX && (rest == "" || !IsDigit(rest[0]))
    ensures Strtoul(PrintNat(n) + rest) == ULONG_MAX
  {
    ReadSignedText("", n, rest);
    assert "" + PrintLong(n) + rest == PrintNat(n) + rest;
  }

  /** strtoul reads a number that fits back, and what a negative one leaves is its complement. */
  lemma StrtoulOfText(n: int, rest: string)
    requires rest == "" || !IsDigit(rest[0])
    requires 0 - ULONG_MAX <= n <= ULONG_MAX
    ensures Strtoul(PrintLong(n) + rest) % (ULONG_MAX + 1) == n % (ULONG_MAX + 1)
    ensures Strtoul(PrintLong(n) + rest) <= ULONG_MAX
  {
    ReadSignedText("", n, rest);
    assert "" + PrintLong(n) + rest == PrintLong(n) + rest;
  }

  /** Print and atol agree with decimal notation: a power of ten is a one and zeros. */
  lemma {:induction false} PowersOfTen(zeros: string)
    requires forall c | c in zeros :: c == '0'
    ensures PrintNat(Ten(|zeros|)) == "1" + zeros
  {
    if zeros == "" {
      assert "1" + zeros == "1";
    } else {
      var init := zeros[..|zeros| - 1];
      assert zeros[|init|] in zeros && zeros == init + [zeros[|init|]];
      assert forall c | c in init :: c in zeros;
      PowersOfTen(init);
      assert Ten(|zeros|) == 10 * Ten(|init|);
      assert "1" + init + "0" == "1" + zeros;
    }
  }

  lemma ReadSignedPrint(n: int)
    ensures ReadSigned(PrintLong(n)) == if n < 0 then (true, -n) else (false, n)
  {
    var s := PrintLong(n);
    assert s[0] in s && SkipSpace(s) == s;
    if n < 0 {
      ReadPrintNat(-n);
      assert s[1..] == PrintNat(-n);
    } else {
      ReadPrintNat(n);
      assert IsDigit(s[0]);
    }
  }

  /** Every long survives being printed and read back. */
  lemma AtolOfPrint(n: Long)
    ensures Atol(PrintLong(n)) == n
  {
    ReadSignedPrint(n);
  }
}
