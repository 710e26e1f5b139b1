/**
 * The string operations the pipeline applies to keys, addresses and period keys:
 * Python's str.strip(), str.lower(), str.split(sep), and the decimal digits of
 * strftime/strptime and f-string formatting.
 */
module Text {

  /** The characters str.strip() removes, restricted to the ASCII range. */
  predicate IsSpace(c: char) {
    var n := c as int;
    n == 32 || 9 <= n <= 13 || 28 <= n <= 31
  }

  /** Drops leading white space. */
  function StripLeft(s: string): (r: string)
  {
    if |s| > 0 && IsSpace(s[0]) then StripLeft(s[1..]) else s
  }

  /** Drops trailing white space. */
  function StripRight(s: string): (r: string)
  {
    if |s| > 0 && IsSpace(s[|s| - 1]) then StripRight(s[..|s| - 1]) else s
  }

  /** str.strip() */
  function Strip(s: string): string {
    StripRight(StripLeft(s))
  }

  lemma {:induction false} StripLeftSpaces(pre: string, y: string)
    requires forall c | c in pre :: IsSpace(c)
    ensures StripLeft(pre + y) == StripLeft(y)
  {
    if |pre| > 0 {
      assert pre[0] in pre;
      assert (pre + y)[1..] == pre[1..] + y;
      StripLeftSpaces(pre[1..], y);
    } else {
      assert pre + y == y;
    }
  }

  lemma {:induction false} StripRightSpaces(y: string, post: string)
    requires forall c | c in post :: IsSpace(c)
    ensures StripRight(y + post) == StripRight(y)
  {
    if |post| > 0 {
      assert post[|post| - 1] in post;
      assert (y + post)[..|y + post| - 1] == y + post[..|post| - 1];
      StripRightSpaces(y, post[..|post| - 1]);
    } else {
      assert y + post == y;
    }
  }

  /** A string that begins and ends with a non-space character is left alone by Strip,
      however much white space surrounds it. */
  lemma StripSurrounded(pre: string, x: string, post: string)
    requires forall c | c in pre :: IsSpace(c)
    requires forall c | c in post :: IsSpace(c)
    requires |x| > 0 && !IsSpace(x[0]) && !IsSpace(x[|x| - 1])
    ensures Strip(pre + x + post) == x
  {
    assert pre + x + post == pre + (x + post);
    StripLeftSpaces(pre, x + post);
    assert StripLeft(x + post) == x + post;
    StripRightSpaces(x, post);
  }

  function LowerChar(c: char): char {
    if 'A' <= c <= 'Z' then (c as int + 32) as char else c
  }

  /** str.lower(), restricted to ASCII letters. */
  function Lower(s: string): (r: string)
  {
    seq(|s|, i requires 0 <= i < |s| => LowerChar(s[i]))
  }

  /** Position of the first `c` in `s`, or |s| when there is none. */
  function IndexOf(s: string, c: char): (i: nat)
    ensures i <= |s|
    ensures i < |s| ==> s[i] == c
    ensures c !in s[..i]
  {
    if |s| == 0 then 0
    else if s[0] == c then 0
    else
      var j := IndexOf(s[1..], c);
      assert s[..j + 1] == [s[0]] + s[1..][..j];
      1 + j
  }

  /** The inverse of Split: the parts glued back together with the separator. */
  function Join(parts: seq<string>, sep: char): string
    requires |parts| >= 1
  {
    if |parts| == 1 then parts[0] else parts[0] + [sep] + Join(parts[1..], sep)
  }

  /** str.split(sep) with a one-character separator: empty fields are kept. */
  function Split(s: string, sep: char): (parts: seq<string>)
    ensures |parts| >= 1
    decreases |s|
  {
    var i := IndexOf(s, sep);
    if i == |s| then [s] else [s[..i]] + Split(s[i + 1..], sep)
  }

  /** No part holds the separator. */
  lemma {:induction false} SplitParts(s: string, sep: char)
    ensures forall p | p in Split(s, sep) :: sep !in p
    decreases |s|
  {
    var i := IndexOf(s, sep);
    if i < |s| {
      SplitParts(s[i + 1..], sep);
      assert Split(s, sep) == [s[..i]] + Split(s[i + 1..], sep);
    }
  }

  /** Joining the parts back with the separator gives the text. */
  lemma {:induction false} SplitJoin(s: string, sep: char)
    ensures Join(Split(s, sep), sep) == s
    decreases |s|
  {
    var i := IndexOf(s, sep);
    if i == |s| {
      assert s[..i] == s;
    } else {
      var rest := Split(s[i + 1..], sep);
      SplitJoin(s[i + 1..], sep);
      var parts := [s[..i]] + rest;
      assert Split(s, sep) == parts && parts[1..] == rest;
      assert s == s[..i] + [sep] + s[i + 1..];
    }
  }

  /** IndexOf finds the first occurrence. */
  lemma IndexOfFirst(s: string, c: char, k: nat)
    requires k < |s| && s[k] == c && c !in s[..k]
    ensures IndexOf(s, c) == k
  {
  }

  /** Splitting text that holds the separator exactly once yields the two sides. */
  lemma SplitOnce(a: string, b: string, sep: char)
    requires sep !in a && sep !in b
    ensures Split(a + [sep] + b, sep) == [a, b]
  {
    var s := a + [sep] + b;
    assert s[..|a|] == a;
    IndexOfFirst(s, sep, |a|);
    assert s[|a| + 1..] == b;
    SplitNone(b, sep);
  }

  /** Text holding no separator splits into itself alone. */
  lemma SplitNone(s: string, sep: char)
    requires sep !in s
    ensures Split(s, sep) == [s]
  {
  }

  predicate IsDigit(c: char) {
    '0' <= c <= '9'
  }

  predicate AllDigits(s: string) {
    forall c | c in s :: IsDigit(c)
  }

  function Digit(d: nat): (c: char)
    requires d < 10
    ensures IsDigit(c)
  {
    ('0' as int + d) as char
  }

  function DigitValue(c: char): (d: nat)
    requires IsDigit(c)
    ensures d < 10 && Digit(d) == c
  {
    c as int - '0' as int
  }

  lemma DigitInverse(d: nat)
    requires d < 10
    ensures DigitValue(Digit(d)) == d
  {
  }

  /** The number a string of decimal digits denotes (int() of a digit string). */
  function DigitsValue(s: string): nat
    requires AllDigits(s)
  {
    if |s| == 0 then 0
    else DigitsValue(s[..|s| - 1]) * 10 + DigitValue(s[|s| - 1])
  }

  lemma DigitsValueSnoc(s: string, c: char)
    requires AllDigits(s) && IsDigit(c)
    ensures AllDigits(s + [c]) && DigitsValue(s + [c]) == DigitsValue(s) * 10 + DigitValue(c)
  {
    assert (s + [c])[..|s|] == s;
  }

  /** Two digits, zero-padded, as strftime writes %m and %d. */
  function Pad2(n: nat): string
    requires n < 100
  {
    [Digit(n / 10), Digit(n % 10)]
  }

  /** Four digits, zero-padded: strftime's %Y for years 1000 to 9999 (glibc
      writes years below 1000 without padding). */
  function Pad4(n: nat): string
    requires n < 10000
  {
    Pad2(n / 100) + Pad2(n % 100)
  }

  /** Appending two digits shifts the value by two decimal places. */
  lemma DigitsValueAppend2(a: string, b: string)
    requires AllDigits(a) && |b| == 2 && AllDigits(b)
    ensures AllDigits(a + b) && DigitsValue(a + b) == DigitsValue(a) * 100 + DigitsValue(b)
  {
    assert b[0] in b && b[1] in b;
    DigitsValueSnoc(a, b[0]);
    DigitsValueSnoc(a + [b[0]], b[1]);
    assert a + [b[0]] + [b[1]] == a + b;
    DigitsValue2(b);
  }

  /** The value of a two-digit string, digit by digit. */
  lemma DigitsValue2(s: string)
    requires |s| == 2 && AllDigits(s)
    ensures DigitsValue(s) == DigitValue(s[0]) * 10 + DigitValue(s[1])
  {
    assert s[0] in s && s[1] in s;
    DigitsValueSnoc([], s[0]);
    assert [] + [s[0]] == s[..1];
    DigitsValueSnoc(s[..1], s[1]);
    assert s[..1] + [s[1]] == s;
  }

  lemma Pad2RoundTrip(n: nat)
    requires n < 100
    ensures AllDigits(Pad2(n)) && DigitsValue(Pad2(n)) == n
  {
    DigitsValue2(Pad2(n));
    DigitInverse(n / 10);
    DigitInverse(n % 10);
  }

  lemma Pad4RoundTrip(n: nat)
    requires n < 10000
    ensures AllDigits(Pad4(n)) && DigitsValue(Pad4(n)) == n
  {
    Pad2RoundTrip(n / 100);
    Pad2RoundTrip(n % 100);
    DigitsValueAppend2(Pad2(n / 100), Pad2(n % 100));
  }

  /** Reading two digits and writing them back gives the same text. */
  lemma Pad2OfDigits(s: string)
    requires |s| == 2 && AllDigits(s)
    ensures DigitsValue(s) < 100 && Pad2(DigitsValue(s)) == s
  {
    assert s[0] in s && s[1] in s;
    DigitsValue2(s);
    var a, b := DigitValue(s[0]), DigitValue(s[1]);
    assert (a * 10 + b) / 10 == a && (a * 10 + b) % 10 == b;
  }

  /** Reading four digits and writing them back gives the same text. */
  lemma Pad4OfDigits(s: string)
    requires |s| == 4 && AllDigits(s)
    ensures DigitsValue(s) < 10000 && Pad4(DigitsValue(s)) == s
  {
    var hi, lo := s[..2], s[2..];
    assert s == hi + lo;
    assert AllDigits(hi) && AllDigits(lo) by {
      forall c | c in hi ensures IsDigit(c) { assert c in s; }
      forall c | c in lo ensures IsDigit(c) { assert c in s; }
    }
    Pad2OfDigits(hi);
    Pad2OfDigits(lo);
    DigitsValueAppend2(hi, lo);
    var a, b := DigitsValue(hi), DigitsValue(lo);
    assert DigitsValue(s) == a * 100 + b;
    assert (a * 100 + b) / 100 == a && (a * 100 + b) % 100 == b;
  }

  /** Four digits denote a number below 10000. */
  lemma FourDigitsBound(s: string)
    requires |s| == 4 && AllDigits(s)
    ensures DigitsValue(s) < 10000
  {
    Pad4OfDigits(s);
  }

  /** str(n) for a natural number: decimal, no padding. */
  function NatToString(n: nat): (s: string)
    ensures |s| >= 1 && AllDigits(s)
  {
    if n < 10 then [Digit(n)] else NatToString(n / 10) + [Digit(n % 10)]
  }

  /** The decimal text of n reads back as n. */
  lemma {:induction false} NatToStringValue(n: nat)
    ensures DigitsValue(NatToString(n)) == n
  {
    var s := NatToString(n);
    if n < 10 {
      assert s[..0] == [];
    } else {
      var p := NatToString(n / 10);
      NatToStringValue(n / 10);
      DigitsValueSnoc(p, Digit(n % 10));
    }
  }
}
