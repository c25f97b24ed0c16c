/** Decimal rendering of naturals, as Rust's `{}` formatting prints an unsigned
    integer, with its inverse, and splitting a string at a separator. */
module Text {

  predicate IsDigit(c: char) {
    '0' <= c <= '9'
  }

  function DigitChar(d: nat): (c: char)
    requires d < 10
    ensures IsDigit(c) && (c as int) - ('0' as int) == d
  {
    ('0' as int + d) as char
  }

  function DigitValue(c: char): (d: nat)
    requires IsDigit(c)
    ensures d < 10 && DigitChar(d) == c
  {
    (c as int) - ('0' as int)
  }

  /** A canonical decimal numeral: one or more digits, and no leading zero
      unless the numeral is `0` itself. */
  predicate IsCanonicalDecimal(s: string) {
    && |s| >= 1
    && (forall i :: 0 <= i < |s| ==> IsDigit(s[i]))
    && (s[0] == '0' ==> |s| == 1)
  }

  /** The value of a string of digits, most significant first. */
  function DigitsValue(s: string): nat
    requires forall i :: 0 <= i < |s| ==> IsDigit(s[i])
  {
    if s == [] then 0
    else DigitsValue(s[..|s| - 1]) * 10 + DigitValue(s[|s| - 1])
  }

  /** Rust's `{}` rendering of an unsigned integer. */
  function Decimal(n: nat): (s: string)
    ensures IsCanonicalDecimal(s)
    ensures DigitsValue(s) == n
  {
    if n < 10 then [DigitChar(n)]
    else
      var prefix := Decimal(n / 10);
      var s := prefix + [DigitChar(n % 10)];
      assert s[..|s| - 1] == prefix;
      s
  }

  /** Dropping the last digit of a canonical numeral of two or more digits
      leaves a canonical numeral with the same leading digit. */
  lemma CanonicalPrefix(s: string)
    requires IsCanonicalDecimal(s) && |s| > 1
    ensures IsCanonicalDecimal(s[..|s| - 1]) && s[..|s| - 1][0] == s[0]
  {
  }

  /** A numeral that is not `0` has a non-zero value. */
  lemma {:induction false} LeadingDigitPositive(s: string)
    requires IsCanonicalDecimal(s) && s[0] != '0'
    ensures DigitsValue(s) >= 1
  {
    if |s| > 1 {
      CanonicalPrefix(s);
      LeadingDigitPositive(s[..|s| - 1]);
    }
  }

  /** Every canonical numeral is the rendering of its value: rendering is
      exactly the canonical decimal form. */
  lemma {:induction false} DecimalOfValue(s: string)
    requires IsCanonicalDecimal(s)
    ensures Decimal(DigitsValue(s)) == s
  {
    if |s| == 1 {
      assert DigitsValue(s) == DigitValue(s[0]);
    } else {
      var p, c := s[..|s| - 1], s[|s| - 1];
      CanonicalPrefix(s);
      LeadingDigitPositive(p);
      DecimalOfValue(p);
      DecimalAppendDigit(p, c);
      LastSplit(s);
    }
  }

  /** A non-empty string is its prefix followed by its last character. */
  lemma LastSplit(s: string)
    requires |s| > 0
    ensures s == s[..|s| - 1] + [s[|s| - 1]]
  {
  }

  /** The inductive step: appending a digit to the rendering of a positive
      value gives the rendering of the extended numeral's value. */
  lemma DecimalAppendDigit(p: string, c: char)
    requires IsDigit(c) && forall i :: 0 <= i < |p| ==> IsDigit(p[i])
    requires DigitsValue(p) >= 1 && Decimal(DigitsValue(p)) == p
    ensures Decimal(DigitsValue(p + [c])) == p + [c]
  {
    assert (p + [c])[..|p|] == p;
    DecimalSnoc(DigitsValue(p), DigitValue(c));
  }

  /** Appending a digit to the rendering of a positive number. */
  lemma DecimalSnoc(m: nat, d: nat)
    requires m >= 1 && d < 10
    ensures Decimal(m * 10 + d) == Decimal(m) + [DigitChar(d)]
  {
    var n := m * 10 + d;
    assert n / 10 == m && n % 10 == d;
  }

  /** Rendering is injective. */
  lemma DecimalInjective(m: nat, n: nat)
    ensures Decimal(m) == Decimal(n) <==> m == n
  {
  }

  /** Renderings of numbers below 256 have one to three digits. */
  lemma DecimalOctetLength(n: nat)
    requires n < 256
    ensures 1 <= |Decimal(n)| <= 3
  {
    if n >= 10 {
      assert |Decimal(n)| == |Decimal(n / 10)| + 1;
      if n >= 100 {
        assert |Decimal(n / 10)| == |Decimal(n / 100)| + 1;
      }
    }
  }

  /** The pieces of `s` between occurrences of `sep`, at least one. */
  function Split(s: string, sep: char): (parts: seq<string>)
    ensures |parts| >= 1
  {
    if s == [] then [[]]
    else
      var rest := Split(s[1..], sep);
      if s[0] == sep then [[]] + rest else [[s[0]] + rest[0]] + rest[1..]
  }

  /** A string without the separator is a single piece. */
  lemma {:induction false} SplitNone(a: string, sep: char)
    requires sep !in a
    ensures Split(a, sep) == [a]
  {
    if a != [] {
      SplitNone(a[1..], sep);
      assert [a[0]] + a[1..] == a;
    }
  }

  /** A separator after a piece free of it ends that piece. */
  lemma {:induction false} SplitCons(a: string, sep: char, b: string)
    requires sep !in a
    ensures Split(a + [sep] + b, sep) == [a] + Split(b, sep)
  {
    var s := a + [sep] + b;
    if a == [] {
      assert s[1..] == b;
    } else {
      assert s[1..] == a[1..] + [sep] + b;
      SplitCons(a[1..], sep, b);
      assert [a[0]] + a[1..] == a;
    }
  }
}
