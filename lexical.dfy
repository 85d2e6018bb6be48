/** Character classes and number texts as java.util.regex and java.lang
    treat them for ASCII input: `\d`, `\s`, hex digits, decimal values,
    Integer.valueOf, and splitting a text at a separator. */
module Lexical {
  import opened Conversion

  /** `\d` without UNICODE_CHARACTER_CLASS: the ASCII digits. */
  predicate IsDigit(c: char) {
    '0' <= c <= '9'
  }

  /** `[0-9a-f]` under CASE_INSENSITIVE. */
  predicate IsHexDigit(c: char) {
    IsDigit(c) || 'a' <= c <= 'f' || 'A' <= c <= 'F'
  }

  /** The digits Integer.toHexString writes. */
  predicate IsLowerHexDigit(c: char) {
    IsDigit(c) || 'a' <= c <= 'f'
  }

  /** `\s` without UNICODE_CHARACTER_CLASS: [ \t\n\x0B\f\r]. */
  predicate IsSpace(c: char) {
    c == ' ' || c == '\t' || c == '\n' || c == '\r' || c as int == 0x0B || c as int == 0x0C
  }

  predicate AllDigits(s: string) {
    forall i | 0 <= i < |s| :: IsDigit(s[i])
  }

  predicate AllHexDigits(s: string) {
    forall i | 0 <= i < |s| :: IsHexDigit(s[i])
  }

  predicate AllSpaces(s: string) {
    forall i | 0 <= i < |s| :: IsSpace(s[i])
  }

  /** ASCII-only lower-casing, the folding CASE_INSENSITIVE applies. */
  function LowerAscii(c: char): (d: char)
    ensures 'A' <= c <= 'Z' ==> d as int == c as int + 32
    ensures !('A' <= c <= 'Z') ==> d == c
  {
    if 'A' <= c <= 'Z' then (c as int + 32) as char else c
  }

  function LowerAsciiText(s: string): (t: string)
    ensures |t| == |s|
    ensures forall i | 0 <= i < |s| :: t[i] == LowerAscii(s[i])
  {
    seq(|s|, i requires 0 <= i < |s| => LowerAscii(s[i]))
  }

  function DigitValue(c: char): (d: nat)
    requires IsDigit(c)
    ensures d < 10
  {
    c as int - '0' as int
  }

  function HexDigitValue(c: char): (d: nat)
    requires IsHexDigit(c)
    ensures d < 16
    ensures IsDigit(c) ==> d == DigitValue(c)
  {
    if IsDigit(c) then c as int - '0' as int
    else if 'a' <= c <= 'f' then c as int - 'a' as int + 10
    else c as int - 'A' as int + 10
  }

  /** The digit Integer.toString writes for d. */
  function DigitChar(d: nat): (c: char)
    requires d < 10
    ensures IsDigit(c) && DigitValue(c) == d
  {
    (d + '0' as int) as char
  }

  /** The digit Integer.toHexString writes for d. */
  function LowerHexChar(d: nat): (c: char)
    requires d < 16
    ensures IsLowerHexDigit(c) && IsHexDigit(c) && HexDigitValue(c) == d
  {
    if d < 10 then (d + '0' as int) as char else (d - 10 + 'a' as int) as char
  }

  /** The number a string of decimal digits denotes, most significant first. */
  function DecimalValue(s: string): nat
    requires AllDigits(s)
  {
    if s == [] then 0 else DecimalValue(s[..|s| - 1]) * 10 + DigitValue(s[|s| - 1])
  }

  /** The number a string of hex digits denotes, most significant first. */
  function HexValue(s: string): nat
    requires AllHexDigits(s)
  {
    if s == [] then 0 else HexValue(s[..|s| - 1]) * 16 + HexDigitValue(s[|s| - 1])
  }

  function Pow10(k: nat): (p: nat)
    ensures p >= 1
  {
    if k == 0 then 1 else 10 * Pow10(k - 1)
  }

  function Pow16(k: nat): (p: nat)
    ensures p >= 1
  {
    if k == 0 then 1 else 16 * Pow16(k - 1)
  }

  /** Appending a digit to `x * p + y` is appending it to `y` and shifting
      `x` by one more place. */
  lemma ShiftDigit(v: int, x: int, p: int, y: int, d: int, base: int, w: int, q: int)
    requires v == (x * p + y) * base + d
    requires w == y * base + d && q == base * p
    ensures v == x * q + w
  {
  }

  /** Appending digits shifts the value of the prefix by the base power. */
  lemma {:induction false} DecimalValueConcat(a: string, b: string)
    requires AllDigits(a) && AllDigits(b)
    ensures AllDigits(a + b)
    ensures DecimalValue(a + b) == DecimalValue(a) * Pow10(|b|) + DecimalValue(b)
  {
    var ab := a + b;
    assert AllDigits(ab);
    if b != [] {
      var b' := b[..|b| - 1];
      assert ab[..|ab| - 1] == a + b';
      DecimalValueConcat(a, b');
      assert ab[|ab| - 1] == b[|b| - 1];
      ShiftDigit(DecimalValue(ab), DecimalValue(a), Pow10(|b'|), DecimalValue(b'), DigitValue(b[|b| - 1]), 10,
                 DecimalValue(b), Pow10(|b|));
    } else {
      assert ab == a;
    }
  }

  /** Appending hex digits shifts the value of the prefix by a power of 16. */
  lemma {:induction false} HexValueConcat(a: string, b: string)
    requires AllHexDigits(a) && AllHexDigits(b)
    ensures AllHexDigits(a + b)
    ensures HexValue(a + b) == HexValue(a) * Pow16(|b|) + HexValue(b)
  {
    var ab := a + b;
    assert AllHexDigits(ab);
    if b != [] {
      var b' := b[..|b| - 1];
      assert ab[..|ab| - 1] == a + b';
      HexValueConcat(a, b');
      assert ab[|ab| - 1] == b[|b| - 1];
      ShiftDigit(HexValue(ab), HexValue(a), Pow16(|b'|), HexValue(b'), HexDigitValue(b[|b| - 1]), 16,
                 HexValue(b), Pow16(|b|));
    } else {
      assert ab == a;
    }
  }

  /** Lower-casing a hex text keeps it a hex text of the same value. */
  lemma {:induction false} HexValueLower(s: string)
    requires AllHexDigits(s)
    ensures AllHexDigits(LowerAsciiText(s))
    ensures HexValue(LowerAsciiText(s)) == HexValue(s)
  {
    var t := LowerAsciiText(s);
    assert AllHexDigits(t);
    if s != [] {
      var s' := s[..|s| - 1];
      assert t[..|t| - 1] == LowerAsciiText(s');
      HexValueLower(s');
    }
  }

  /** A string of k digits denotes less than 10^k. */
  lemma {:induction false} DecimalValueBound(s: string)
    requires AllDigits(s)
    ensures DecimalValue(s) < Pow10(|s|)
  {
    if s != [] {
      var prefix := s[..|s| - 1];
      DecimalValueBound(prefix);
      assert Pow10(|s|) == 10 * Pow10(|prefix|);
    }
  }

  /** Java's `%d` (and Integer.toString) of a non-negative int: ASCII digits,
      no sign, no padding. */
  function DecimalText(n: nat): (s: string)
    ensures |s| >= 1 && AllDigits(s)
    ensures DecimalValue(s) == n
    ensures s[0] == '0' <==> n == 0
    ensures n < 10 ==> |s| == 1
    ensures n < 100 ==> |s| <= 2
    ensures n < 1000 ==> |s| <= 3
  {
    if n < 10 then [DigitChar(n)]
    else
      var prefix := DecimalText(n / 10);
      var s := prefix + [DigitChar(n % 10)];
      assert s[..|s| - 1] == prefix;
      s
  }

  /** The decimals of the sample channels. */
  lemma SampleDecimals()
    ensures DecimalText(0) == "0" && DecimalText(15) == "15"
    ensures DecimalText(224) == "224" && DecimalText(255) == "255"
  {
  }

  const JavaIntMin: int := -0x8000_0000
  const JavaIntMax: int := 0x7FFF_FFFF

  /** Integer.valueOf(String) on ASCII text: an optional '+' or '-', then at
      least one digit, and a value that fits a Java int; None stands for
      NumberFormatException. */
  function ParseJavaInt(s: string): (r: Option<int>)
    ensures r.Some? ==> JavaIntMin <= r.value <= JavaIntMax
    ensures s == [] ==> r.None?
    ensures s != [] && AllDigits(s) ==>
              r == if DecimalValue(s) <= JavaIntMax then Some(DecimalValue(s)) else None
  {
    if s == [] then None
    else
      var digits := if s[0] == '-' || s[0] == '+' then s[1..] else s;
      if digits == [] || !AllDigits(digits) then None
      else
        var v: int := if s[0] == '-' then -(DecimalValue(digits) as int) else DecimalValue(digits);
        if JavaIntMin <= v <= JavaIntMax then Some(v) else None
  }

  /** Joins texts with a separator between neighbours. */
  function Join(parts: seq<string>, sep: char): string
  {
    if |parts| == 0 then []
    else if |parts| == 1 then parts[0]
    else parts[0] + [sep] + Join(parts[1..], sep)
  }

  /** Splits a text at every separator; joining the parts gives the text
      back, and no part holds the separator. */
  function Split(s: string, sep: char): (parts: seq<string>)
    ensures |parts| >= 1
    ensures forall i | 0 <= i < |parts| :: sep !in parts[i]
    ensures Join(parts, sep) == s
  {
    if s == [] then [[]]
    else if s[0] == sep then
      var rest := Split(s[1..], sep);
      assert s == [] + [sep] + Join(rest, sep);
      [[]] + rest
    else
      var rest := Split(s[1..], sep);
      var parts := [[s[0]] + rest[0]] + rest[1..];
      assert parts[1..] == rest[1..];
      assert s == [s[0]] + s[1..];
      parts
  }

  lemma {:induction false} SplitWithoutSeparator(p: string, sep: char)
    requires sep !in p
    ensures Split(p, sep) == [p]
  {
    if p != [] {
      assert sep !in p[1..];
      SplitWithoutSeparator(p[1..], sep);
      assert [p[0]] + p[1..] == p;
    }
  }

  lemma {:induction false} SplitAfterPart(p: string, sep: char, rest: string)
    requires sep !in p
    ensures Split(p + [sep] + rest, sep) == [p] + Split(rest, sep)
  {
    var s := p + [sep] + rest;
    if p == [] {
      assert s == [sep] + rest;
      assert s[1..] == rest;
    } else {
      assert s[0] == p[0];
      assert s[1..] == p[1..] + [sep] + rest;
      assert sep !in p[1..];
      SplitAfterPart(p[1..], sep, rest);
      assert [p[0]] + p[1..] == p;
    }
  }

  /** Splitting a joined list of separator-free parts gives the parts back. */
  lemma {:induction false} SplitJoin(parts: seq<string>, sep: char)
    requires |parts| >= 1
    requires forall i | 0 <= i < |parts| :: sep !in parts[i]
    ensures Split(Join(parts, sep), sep) == parts
  {
    if |parts| == 1 {
      SplitWithoutSeparator(parts[0], sep);
    } else {
      SplitJoin(parts[1..], sep);
      SplitAfterPart(parts[0], sep, Join(parts[1..], sep));
      assert [parts[0]] + parts[1..] == parts;
    }
  }

  /** The number of spaces a text starts with. */
  function LeadingSpaces(s: string): (n: nat)
    ensures n <= |s| && AllSpaces(s[..n])
    ensures n < |s| ==> !IsSpace(s[n])
  {
    if s != [] && IsSpace(s[0]) then
      var n := 1 + LeadingSpaces(s[1..]);
      assert s[..n] == [s[0]] + s[1..][..n - 1];
      n
    else 0
  }

  /** The number of spaces a text ends with. */
  function TrailingSpaces(s: string): (n: nat)
    ensures n <= |s| && AllSpaces(s[|s| - n..])
    ensures n < |s| ==> !IsSpace(s[|s| - n - 1])
  {
    if s != [] && IsSpace(s[|s| - 1]) then
      var m := TrailingSpaces(s[..|s| - 1]);
      TrailingStep(s, m);
      1 + m
    else 0
  }

  /** One more trailing space: the spaces that end `s` without its last
      character, and that last character. */
  lemma TrailingStep(s: string, m: nat)
    requires s != [] && IsSpace(s[|s| - 1])
    requires m <= |s| - 1 && AllSpaces(s[..|s| - 1][|s| - 1 - m..])
    requires m < |s| - 1 ==> !IsSpace(s[..|s| - 1][|s| - 1 - m - 1])
    ensures AllSpaces(s[|s| - (m + 1)..])
    ensures m + 1 < |s| ==> !IsSpace(s[|s| - (m + 1) - 1])
  {
    var t := s[|s| - (m + 1)..];
    forall i | 0 <= i < |t|
      ensures IsSpace(t[i])
    {
      if i < m {
        assert t[i] == s[..|s| - 1][|s| - 1 - m..][i];
      }
    }
  }

  lemma {:induction false} LeadingSpacesOf(w: string, r: string)
    requires AllSpaces(w)
    requires r == [] || !IsSpace(r[0])
    ensures LeadingSpaces(w + r) == |w|
  {
    if w != [] {
      assert (w + r)[1..] == w[1..] + r;
      LeadingSpacesOf(w[1..], r);
    } else {
      assert w + r == r;
    }
  }

  lemma {:induction false} TrailingSpacesOf(r: string, w: string)
    requires AllSpaces(w)
    requires r == [] || !IsSpace(r[|r| - 1])
    ensures TrailingSpaces(r + w) == |w|
  {
    if w != [] {
      var w' := w[..|w| - 1];
      assert (r + w)[..|r + w| - 1] == r + w';
      TrailingSpacesOf(r, w');
    } else {
      assert r + w == r;
    }
  }
}
