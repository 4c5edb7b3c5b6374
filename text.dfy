/**
 * Text helpers shared by the backend and the frontend models: the string
 * order of Python's `str` comparison (code point by code point, a proper
 * prefix first), fixed-width zero-padded digits as `strftime` writes them,
 * and the decimal form in which Python prints any integer and JavaScript
 * prints one of magnitude at most 2^53.
 */
module Text {

  /** Lexicographic order by code point; a proper prefix is smaller. */
  predicate LexLess(a: string, b: string)
    decreases |a|
  {
    |b| > 0 && (|a| == 0 || a[0] < b[0] || (a[0] == b[0] && LexLess(a[1..], b[1..])))
  }

  lemma {:induction false} LexLessIrreflexive(a: string)
    ensures !LexLess(a, a)
  {
    if |a| > 0 {
      LexLessIrreflexive(a[1..]);
    }
  }

  lemma {:induction false} LexLessTransitive(a: string, b: string, c: string)
    requires LexLess(a, b) && LexLess(b, c)
    ensures LexLess(a, c)
  {
    if |a| > 0 && a[0] == b[0] && b[0] == c[0] {
      LexLessTransitive(a[1..], b[1..], c[1..]);
    }
  }

  /** Any two different strings are ordered one way or the other. */
  lemma {:induction false} LexLessTotal(a: string, b: string)
    requires a != b
    ensures LexLess(a, b) || LexLess(b, a)
  {
    if |a| > 0 && |b| > 0 && a[0] == b[0] {
      assert a == [a[0]] + a[1..] && b == [b[0]] + b[1..];
      LexLessTotal(a[1..], b[1..]);
    }
  }

  lemma LexLessAsymmetric(a: string, b: string)
    requires LexLess(a, b)
    ensures !LexLess(b, a)
  {
    if LexLess(b, a) {
      LexLessTransitive(a, b, a);
      LexLessIrreflexive(a);
    }
  }

  /** Deciding the order on equal-length prefixes decides it for any extensions. */
  lemma {:induction false} LexLessExtend(p: string, q: string, s: string, t: string)
    requires |p| == |q| && LexLess(p, q)
    ensures LexLess(p + s, q + t)
  {
    assert (p + s)[0] == p[0] && (q + t)[0] == q[0];
    if p[0] == q[0] && LexLess(p[1..], q[1..]) {
      assert (p + s)[1..] == p[1..] + s && (q + t)[1..] == q[1..] + t;
      LexLessExtend(p[1..], q[1..], s, t);
    }
  }

  /** A common prefix does not change the order. */
  lemma {:induction false} LexLessSamePrefix(p: string, s: string, t: string)
    requires LexLess(s, t)
    ensures LexLess(p + s, p + t)
  {
    if |p| > 0 {
      assert (p + s)[1..] == p[1..] + s && (p + t)[1..] == p[1..] + t;
      LexLessSamePrefix(p[1..], s, t);
      assert (p + s)[0] == p[0] == (p + t)[0];
    } else {
      assert p + s == s && p + t == t;
    }
  }

  function Pow10(n: nat): (r: nat)
    ensures r >= 1
  {
    if n == 0 then 1 else 10 * Pow10(n - 1)
  }

  predicate IsDigit(c: char) { '0' <= c <= '9' }

  function DigitChar(d: nat): (c: char)
    requires d < 10
    ensures IsDigit(c) && c as int - '0' as int == d
  {
    ('0' as int + d) as char
  }

  function DigitValue(c: char): (d: nat)
    requires IsDigit(c)
    ensures d < 10 && DigitChar(d) == c
  {
    c as int - '0' as int
  }

  /** The value of a string of decimal digits, most significant first. */
  function ParseDigits(s: string): (n: nat)
    requires forall i :: 0 <= i < |s| ==> IsDigit(s[i])
  {
    if s == [] then 0 else 10 * ParseDigits(s[..|s| - 1]) + DigitValue(s[|s| - 1])
  }

  /** The last `width` decimal digits of `n`, zero-padded on the left (`%04d`). */
  function Pad(n: nat, width: nat): (r: string)
    ensures |r| == width
    ensures forall i :: 0 <= i < |r| ==> IsDigit(r[i])
  {
    if width == 0 then [] else Pad(n / 10, width - 1) + [DigitChar(n % 10)]
  }

  /** A number that fits the width is written exactly: the padding can be read back. */
  lemma {:induction false} PadRoundTrip(n: nat, width: nat)
    requires n < Pow10(width)
    ensures ParseDigits(Pad(n, width)) == n
  {
    if width > 0 {
      var r := Pad(n, width);
      assert r[..|r| - 1] == Pad(n / 10, width - 1);
      PadRoundTrip(n / 10, width - 1);
    }
  }

  /** On numbers that fit the width, string order of the padded forms is numeric order. */
  lemma {:induction false} PadOrder(a: nat, b: nat, width: nat)
    requires a < b < Pow10(width)
    ensures LexLess(Pad(a, width), Pad(b, width))
  {
    assert width > 0;
    var w := width - 1;
    assert b / 10 < Pow10(w);
    if a / 10 < b / 10 {
      PadOrder(a / 10, b / 10, w);
      LexLessExtend(Pad(a / 10, w), Pad(b / 10, w), [DigitChar(a % 10)], [DigitChar(b % 10)]);
    } else {
      assert a % 10 < b % 10;
      assert LexLess([DigitChar(a % 10)], [DigitChar(b % 10)]);
      LexLessSamePrefix(Pad(a / 10, w), [DigitChar(a % 10)], [DigitChar(b % 10)]);
    }
  }

  /**
   * The shortest decimal form of a natural number, as `str(n)` writes it, and
   * as `String(n)` does for n up to 2^53 (beyond that JavaScript prints the
   * shortest digits that round-trip through a double, which may differ).
   */
  function Decimal(n: nat): (r: string)
    ensures |r| >= 1
    ensures forall i :: 0 <= i < |r| ==> IsDigit(r[i])
  {
    if n < 10 then [DigitChar(n)] else Decimal(n / 10) + [DigitChar(n % 10)]
  }

  /** `Decimal` has no leading zero and reads back as the number it writes. */
  lemma {:induction false} DecimalRoundTrip(n: nat)
    ensures ParseDigits(Decimal(n)) == n
    ensures Decimal(n)[0] == '0' <==> n == 0
  {
    var r := Decimal(n);
    if n >= 10 {
      assert r[..|r| - 1] == Decimal(n / 10);
      DecimalRoundTrip(n / 10);
      assert r[0] == Decimal(n / 10)[0];
    } else {
      assert r[..0] == [];
    }
  }

  /** An integer in decimal with a leading '-' when negative, as JavaScript's `String(n)` writes it for |n| <= 2^53. */
  function IntString(i: int): (r: string)
    ensures i < 0 <==> (|r| > 0 && r[0] == '-')
  {
    if i < 0 then "-" + Decimal(-i) else Decimal(i)
  }

  predicate AllDigits(s: string) {
    |s| > 0 && forall i :: 0 <= i < |s| ==> IsDigit(s[i])
  }

  /** Decimal digits without a superfluous leading zero. */
  predicate CanonicalDigits(s: string) {
    AllDigits(s) && (s[0] == '0' ==> |s| == 1)
  }

  /** An integer in canonical decimal form: canonical digits, after a '-' only when they are not zero. */
  predicate CanonicalInteger(s: string) {
    if |s| > 0 && s[0] == '-' then CanonicalDigits(s[1..]) && s[1] != '0' else CanonicalDigits(s)
  }

  /** `Decimal` writes canonical digits. */
  lemma DecimalCanonical(n: nat)
    ensures CanonicalDigits(Decimal(n))
  {
    DecimalRoundTrip(n);
  }

  /** Canonical digits are what `Decimal` writes for the number they denote. */
  lemma {:induction false} DecimalUnique(s: string)
    requires CanonicalDigits(s)
    ensures Decimal(ParseDigits(s)) == s
  {
    var n := ParseDigits(s);
    var last := s[|s| - 1];
    if |s| == 1 {
      assert s[..|s| - 1] == [];
      assert ParseDigits(s[..|s| - 1]) == 0;
    } else {
      var init := s[..|s| - 1];
      assert init[0] == s[0];
      DecimalUnique(init);
      var m := ParseDigits(init);
      DecimalRoundTrip(m);
      assert m != 0;
      assert n == 10 * m + DigitValue(last);
      assert n / 10 == m && n % 10 == DigitValue(last);
      assert s == init + [last];
    }
  }

  /** An optional '-' followed by at least one decimal digit. */
  predicate IsIntegerText(s: string) {
    if |s| > 0 && s[0] == '-' then AllDigits(s[1..]) else AllDigits(s)
  }

  /** The value of an integer written in decimal, leading zeros allowed. */
  function IntegerValue(s: string): int
    requires IsIntegerText(s)
  {
    if s[0] == '-' then 0 - ParseDigits(s[1..]) else ParseDigits(s)
  }

  /** What `IntString` writes is canonical and reads back as the same integer. */
  lemma IntStringRoundTrip(i: int)
    ensures IsIntegerText(IntString(i)) && IntegerValue(IntString(i)) == i
    ensures CanonicalInteger(IntString(i))
  {
    var r := IntString(i);
    if i < 0 {
      var digits := Decimal(-i);
      assert r == ['-'] + digits;
      assert r[1..] == digits;
      DecimalRoundTrip(-i);
      DecimalCanonical(-i);
    } else {
      DecimalRoundTrip(i);
      DecimalCanonical(i);
      assert r[0] != '-';
    }
  }

  /** A canonical integer text is the one `IntString` writes for its value. */
  lemma CanonicalRoundTrip(s: string)
    requires CanonicalInteger(s)
    ensures IntString(IntegerValue(s)) == s
  {
    if s[0] == '-' {
      var digits := s[1..];
      DecimalUnique(digits);
      DecimalRoundTrip(ParseDigits(digits));
      assert s == "-" + digits;
    } else {
      DecimalUnique(s);
    }
  }
}
