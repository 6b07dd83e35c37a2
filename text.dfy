/** Decimal rendering and reading of numbers, as Python's `str(int)`, `int(str)`
    and zero-padded `strftime` fields do it, plus splitting a string on a
    separator character. Only ASCII digits are modelled. */
module Text {

  predicate IsDigit(c: char) { '0' <= c <= '9' }

  /** A non-empty string of ASCII digits: what `int(...)` reads here. */
  predicate IsDecimal(s: string) { |s| > 0 && forall i | 0 <= i < |s| :: IsDigit(s[i]) }

  function DigitChar(d: nat): (c: char)
    requires d < 10
    ensures IsDigit(c)
  {
    (48 + d) as char
  }

  function DigitValue(c: char): (d: nat)
    requires IsDigit(c)
    ensures d < 10 && DigitChar(d) == c
  {
    c as int - 48
  }

  function Pow10(n: nat): (p: nat)
    ensures p >= 1
  {
    if n == 0 then 1 else 10 * Pow10(n - 1)
  }

  /** The value of a string of digits, most significant first. */
  function DigitsValue(s: string): (v: nat)
    requires forall i | 0 <= i < |s| :: IsDigit(s[i])
    ensures v < Pow10(|s|)
  {
    if s == [] then 0 else 10 * DigitsValue(s[..|s| - 1]) + DigitValue(s[|s| - 1])
  }

  /** Python's `str(n)` for a non-negative integer: no padding, no sign. */
  function Str(n: nat): (s: string)
    ensures IsDecimal(s)
  {
    if n < 10 then [DigitChar(n)] else Str(n / 10) + [DigitChar(n % 10)]
  }

  /** `n` written in exactly `width` digits, zero-padded on the left (the
      `%02d`-style fields of strftime). */
  function Pad(n: nat, width: nat): (s: string)
    requires n < Pow10(width)
    ensures |s| == width && forall i | 0 <= i < |s| :: IsDigit(s[i])
  {
    if width == 0 then [] else Pad(n / 10, width - 1) + [DigitChar(n % 10)]
  }

  lemma {:induction false} DigitsValueSnoc(s: string, c: char)
    requires forall i | 0 <= i < |s| :: IsDigit(s[i])
    requires IsDigit(c)
    ensures forall i | 0 <= i < |s + [c]| :: IsDigit((s + [c])[i])
    ensures DigitsValue(s + [c]) == 10 * DigitsValue(s) + DigitValue(c)
  {
    assert (s + [c])[..|s + [c]| - 1] == s;
  }

  /** `int(str(n)) == n`: reading back what `str` wrote gives the number. */
  lemma {:induction false} StrValue(n: nat)
    ensures DigitsValue(Str(n)) == n
  {
    if n >= 10 {
      StrValue(n / 10);
      DigitsValueSnoc(Str(n / 10), DigitChar(n % 10));
    }
  }

  /** Different numbers have different decimal renderings. */
  lemma StrInjective(a: nat, b: nat)
    ensures Str(a) == Str(b) <==> a == b
  {
    if Str(a) == Str(b) {
      StrValue(a);
      StrValue(b);
    }
  }

  /** Reading back a padded field gives the number. */
  lemma {:induction false} PadValue(n: nat, width: nat)
    requires n < Pow10(width)
    ensures DigitsValue(Pad(n, width)) == n
  {
    if width > 0 {
      PadValue(n / 10, width - 1);
      DigitsValueSnoc(Pad(n / 10, width - 1), DigitChar(n % 10));
    }
  }

  /** Python's `str.split(sep)`: the pieces between occurrences of `sep`. */
  function Split(s: string, sep: char): (parts: seq<string>)
    ensures |parts| >= 1
    ensures forall k | 0 <= k < |parts| :: sep !in parts[k]
  {
    if s == [] then [[]]
    else if s[0] == sep then [[]] + Split(s[1..], sep)
    else
      var rest := Split(s[1..], sep);
      [[s[0]] + rest[0]] + rest[1..]
  }

  /** A string without the separator is one piece, and joining with one
      separator in front of further text splits back at that separator. */
  lemma {:induction false} SplitJoin(a: string, sep: char, b: string)
    requires sep !in a
    ensures Split(a, sep) == [a]
    ensures Split(a + [sep] + b, sep) == [a] + Split(b, sep)
  {
    if a == [] {
      assert a + [sep] + b == [sep] + b;
      assert ([sep] + b)[1..] == b;
    } else {
      SplitJoin(a[1..], sep, b);
      assert (a + [sep] + b)[1..] == a[1..] + [sep] + b;
      assert [a[0]] + a[1..] == a;
    }
  }

  /** Python's `sep.join(parts)` for a non-empty list of parts. */
  function Join(parts: seq<string>, sep: char): string
    requires |parts| >= 1
  {
    if |parts| == 1 then parts[0] else parts[0] + [sep] + Join(parts[1..], sep)
  }

  /** Splitting a join gives the parts back when no part holds the separator. */
  lemma {:induction false} SplitOfJoin(parts: seq<string>, sep: char)
    requires |parts| >= 1
    requires forall k | 0 <= k < |parts| :: sep !in parts[k]
    ensures Split(Join(parts, sep), sep) == parts
  {
    if |parts| == 1 {
      SplitJoin(parts[0], sep, []);
    } else {
      SplitOfJoin(parts[1..], sep);
      SplitJoin(parts[0], sep, Join(parts[1..], sep));
      assert [parts[0]] + parts[1..] == parts;
    }
  }
}
