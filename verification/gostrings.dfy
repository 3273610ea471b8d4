/**
 * The three pieces of Go's `strings` and `strconv` packages the router uses:
 * `strings.Index` with a one-character separator, `strings.SplitN(s, sep, 2)`
 * and `strconv.Itoa` on non-negative numbers, together with a decimal decoder
 * that serves as Itoa's inverse.
 */
module GoStrings {

  /** The position of the first `c` in `s`, or -1 when `s` has none. */
  function Index(s: string, c: char): (i: int)
    ensures -1 <= i < |s|
    ensures i == -1 <==> c !in s
    ensures 0 <= i ==> s[i] == c && c !in s[..i]
  {
    if |s| == 0 then -1
    else if s[0] == c then 0
    else
      var j := Index(s[1..], c);
      if j < 0 then -1 else j + 1
  }

  /**
   * `strings.SplitN(s, sep, 2)`: the whole string when `sep` does not occur,
   * otherwise the text before the first `sep` and everything after it.
   */
  function SplitN2(s: string, sep: char): (parts: seq<string>)
    ensures 1 <= |parts| <= 2
    ensures |parts| == 1 <==> sep !in s
    ensures |parts| == 1 ==> parts[0] == s
    ensures |parts| == 2 ==> parts[0] + [sep] + parts[1] == s && sep !in parts[0]
  {
    var i := Index(s, sep);
    if i < 0 then [s] else [s[..i], s[i + 1..]]
  }

  /** Splitting `a + [sep] + b` where `a` has no `sep` gives back `a` and `b`. */
  lemma SplitN2Join(a: string, sep: char, b: string)
    requires sep !in a
    ensures SplitN2(a + [sep] + b, sep) == [a, b]
  {
    var s := a + [sep] + b;
    var parts := SplitN2(s, sep);
    assert s[|a|] == sep;
    assert |parts| == 2;
    SeparatorPosition(parts[0], parts[1], a, b, sep);
  }

  /** Two splits of one string at a first separator agree. */
  lemma SeparatorPosition(x: string, y: string, a: string, b: string, sep: char)
    requires x + [sep] + y == a + [sep] + b
    requires sep !in x && sep !in a
    ensures x == a && y == b
  {
    var s := a + [sep] + b;
    assert s[|x|] == sep && s[|a|] == sep;
    assert forall k :: 0 <= k < |x| ==> s[k] == x[k];
    assert forall k :: 0 <= k < |a| ==> s[k] == a[k];
    assert x == s[..|x|] && a == s[..|a|];
    assert y == s[|x| + 1..] && b == s[|a| + 1..];
  }

  predicate IsDigit(c: char)
  {
    '0' <= c <= '9'
  }

  /** The canonical decimal spelling of a natural number: digits only, no leading zero. */
  predicate IsDecimal(s: string)
  {
    && |s| > 0
    && (forall k :: 0 <= k < |s| ==> IsDigit(s[k]))
    && (s[0] == '0' ==> |s| == 1)
  }

  function DigitChar(d: nat): (c: char)
    requires d < 10
    ensures IsDigit(c) && (c as int) - ('0' as int) == d
  {
    ('0' as int + d) as char
  }

  function DigitValue(c: char): (d: nat)
    requires IsDigit(c)
    ensures d < 10 && DigitChar(d) == c
  {
    (c as int) - ('0' as int)
  }

  /** `strconv.Itoa(n)` for `n >= 0`. */
  function Itoa(n: nat): (s: string)
    ensures IsDecimal(s)
    ensures n < 10 <==> |s| == 1
  {
    if n < 10 then [DigitChar(n)] else Itoa(n / 10) + [DigitChar(n % 10)]
  }

  /** The number a string of decimal digits denotes (most significant first). */
  function Atoi(s: string): nat
    requires forall k :: 0 <= k < |s| ==> IsDigit(s[k])
    decreases |s|
  {
    if |s| == 0 then 0 else Atoi(s[..|s| - 1]) * 10 + DigitValue(s[|s| - 1])
  }

  /** Decoding what Itoa writes gives the number back. */
  lemma {:induction false} AtoiItoa(n: nat)
    ensures Atoi(Itoa(n)) == n
  {
    var s := Itoa(n);
    if n >= 10 {
      AtoiItoa(n / 10);
      assert s[..|s| - 1] == Itoa(n / 10);
    }
  }

  /** A decimal string with a non-zero leading digit denotes a positive number. */
  lemma {:induction false} AtoiPositive(s: string)
    requires IsDecimal(s) && s[0] != '0'
    ensures Atoi(s) > 0
    decreases |s|
  {
    if |s| > 1 {
      var p := s[..|s| - 1];
      assert p[0] == s[0];
      AtoiPositive(p);
    }
  }

  /** Every canonical decimal string is what Itoa writes for the number it denotes. */
  lemma {:induction false} ItoaAtoi(s: string)
    requires IsDecimal(s)
    ensures Itoa(Atoi(s)) == s
    decreases |s|
  {
    var n := Atoi(s);
    if |s| > 1 {
      var p := s[..|s| - 1];
      assert p[0] == s[0];
      AtoiPositive(p);
      ItoaAtoi(p);
      assert n / 10 == Atoi(p) && n % 10 == DigitValue(s[|s| - 1]);
      assert s == p + [s[|s| - 1]];
    }
  }

  /** Distinct numbers are written differently. */
  lemma ItoaInjective(a: nat, b: nat)
    requires Itoa(a) == Itoa(b)
    ensures a == b
  {
    AtoiItoa(a);
    AtoiItoa(b);
  }
}
