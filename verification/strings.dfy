/**
 Python `str` behaviour that the slideshow tool relies on: suffix tests,
 the lexicographic order `sorted` uses, decimal formatting of an `int`
 (as in an f-string) and POSIX `os.path.join`.
 */
module Strings {

  /** `s.endswith(suffix)`: case-sensitive, and no dot or separator is implied. */
  predicate EndsWith(s: string, suffix: string) {
    |suffix| <= |s| && s[|s| - |suffix|..] == suffix
  }

  /** A suffix test only looks at the end, so a prefix in front does not change a pass. */
  lemma EndsWithUnderPrefix(p: string, s: string, suffix: string)
    ensures EndsWith(s, suffix) ==> EndsWith(p + s, suffix)
  {
    if EndsWith(s, suffix) {
      assert (p + s)[|p + s| - |suffix|..] == s[|s| - |suffix|..];
    }
  }

  /** `a <= b` on Python strings: code point by code point, a proper prefix first. */
  predicate LessEq(a: string, b: string)
    ensures |a| <= |b| && a == b[..|a|] ==> LessEq(a, b)
    ensures |b| < |a| && b == a[..|b|] ==> !LessEq(a, b)
    decreases |a|
  {
    if |a| == 0 then true
    else if |b| == 0 then false
    else if a[0] != b[0] then a[0] < b[0]
    else LessEq(a[1..], b[1..])
  }

  lemma {:induction false} LessEqReflexive(a: string)
    ensures LessEq(a, a)
    decreases |a|
  {
    if |a| > 0 {
      LessEqReflexive(a[1..]);
    }
  }

  lemma {:induction false} LessEqTotal(a: string, b: string)
    ensures LessEq(a, b) || LessEq(b, a)
    decreases |a|
  {
    if |a| > 0 && |b| > 0 && a[0] == b[0] {
      LessEqTotal(a[1..], b[1..]);
    }
  }

  lemma {:induction false} LessEqAntisymmetric(a: string, b: string)
    requires LessEq(a, b) && LessEq(b, a)
    ensures a == b
    decreases |a|
  {
    if |a| > 0 {
      LessEqAntisymmetric(a[1..], b[1..]);
      assert a == [a[0]] + a[1..];
      assert b == [b[0]] + b[1..];
    }
  }

  lemma {:induction false} LessEqTransitive(a: string, b: string, c: string)
    requires LessEq(a, b) && LessEq(b, c)
    ensures LessEq(a, c)
    decreases |a|
  {
    if |a| > 0 && a[0] == b[0] && b[0] == c[0] {
      LessEqTransitive(a[1..], b[1..], c[1..]);
    }
  }

  /** Putting the same prefix in front of two strings does not change their order. */
  lemma {:induction false} LessEqUnderPrefix(p: string, a: string, b: string)
    ensures LessEq(p + a, p + b) == LessEq(a, b)
    decreases |p|
  {
    if |p| > 0 {
      assert (p + a)[0] == p[0] == (p + b)[0];
      assert (p + a)[1..] == p[1..] + a;
      assert (p + b)[1..] == p[1..] + b;
      LessEqUnderPrefix(p[1..], a, b);
    } else {
      assert p + a == a && p + b == b;
    }
  }

  predicate IsDigit(c: char) {
    '0' <= c <= '9'
  }

  predicate AllDigits(s: string) {
    forall i :: 0 <= i < |s| ==> IsDigit(s[i])
  }

  function DigitChar(d: nat): (c: char)
    requires d < 10
    ensures IsDigit(c) && (c as int) - ('0' as int) == d
  {
    ('0' as int + d) as char
  }

  /** `str(n)` for a non-negative `int`: no sign, no leading zeros. */
  function Decimal(n: nat): (s: string)
    ensures 1 <= |s| && AllDigits(s)
    ensures s[0] == '0' <==> n == 0
    ensures |s| == 1 <==> n < 10
  {
    if n < 10 then [DigitChar(n)] else Decimal(n / 10) + [DigitChar(n % 10)]
  }

  /** Reads a string of decimal digits back as a number. */
  function ParseDecimal(s: string): nat
    requires AllDigits(s)
  {
    if |s| == 0 then 0
    else ParseDecimal(s[..|s| - 1]) * 10 + ((s[|s| - 1] as int) - ('0' as int))
  }

  lemma {:induction false} DecimalRoundTrip(n: nat)
    ensures ParseDecimal(Decimal(n)) == n
  {
    if n >= 10 {
      var s := Decimal(n);
      assert s[..|s| - 1] == Decimal(n / 10);
      DecimalRoundTrip(n / 10);
    }
  }

  /** Distinct numbers are written differently. */
  lemma DecimalInjective(m: nat, n: nat)
    ensures Decimal(m) == Decimal(n) ==> m == n
  {
    DecimalRoundTrip(m);
    DecimalRoundTrip(n);
  }

  /** What `os.path.join(directory, name)` puts in front of a relative `name`. */
  function JoinPrefix(directory: string): (p: string)
    ensures |directory| > 0 ==> |p| > 0 && p[|p| - 1] == '/'
    ensures |directory| == 0 ==> p == ""
    ensures |directory| <= |p| && p[..|directory|] == directory
    ensures |p| <= |directory| + 1
    ensures |directory| > 0 && directory[|directory| - 1] == '/' ==> |p| == |directory|
  {
    if |directory| == 0 then ""
    else if directory[|directory| - 1] == '/' then directory
    else directory + "/"
  }

  /** POSIX `os.path.join(directory, name)` for a name that does not start with '/'. */
  function Join(directory: string, name: string): string {
    JoinPrefix(directory) + name
  }
}
