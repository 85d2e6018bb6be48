/** AbstractHexColorConverter: CSS hex colours `#rgb` / `#rrggbb`, with the
    '#' optional and the digits in either case. */
module AbstractHexColorConverter {
  import opened Conversion
  import opened Lexical
  import opened VaadinColor

  /** The digits HEX_PATTERN's second group can capture. */
  predicate IsHexBody(b: string) {
    (|b| == 3 || |b| == 6) && AllHexDigits(b)
  }

  /** The recogniser for HEX_PATTERN `^(#)?([0-9a-f]{3}|[0-9a-f]{6})$`
      (case-insensitive); on a match it gives group 2, the digits. */
  function MatchHexPattern(s: string): (digits: Option<string>)
    ensures digits.Some? ==> IsHexBody(digits.value) && (s == digits.value || s == "#" + digits.value)
    ensures IsHexBody(s) || (|s| > 0 && s[0] == '#' && IsHexBody(s[1..])) ==> digits.Some?
  {
    var body := if |s| > 0 && s[0] == '#' then s[1..] else s;
    assert |s| > 0 && s[0] == '#' ==> s == "#" + body;
    if IsHexBody(body) then Some(body) else None
  }

  /** Each character written twice: the text the StringBuilder loop builds. */
  function DoubleEach(s: string): (r: string)
    ensures |r| == 2 * |s|
    ensures forall i | 0 <= i < |r| :: r[i] == s[i / 2]
  {
    if s == [] then []
    else
      var r := [s[0], s[0]] + DoubleEach(s[1..]);
      assert forall i | 2 <= i < |r| :: r[i] == DoubleEach(s[1..])[i - 2] && (i - 2) / 2 == i / 2 - 1;
      r
  }

  /** The group-2 digits spelled out to six digits. */
  function SixDigits(hex: string): (six: string)
    requires IsHexBody(hex)
    ensures |six| == 6 && AllHexDigits(six)
  {
    if |hex| == 3 then DoubleEach(hex) else hex
  }

  /** What `unserializeColor` returns: the colour of the six hex digits read
      as 0xRRGGBB, or the ConversionException for a text HEX_PATTERN rejects. */
  function Decode(s: string): (r: Result<Color>)
    ensures r.Ok? <==> MatchHexPattern(s).Some?
    ensures r.Err? ==> r.error == NoMatch(s, HexNotation)
    ensures r.Ok? ==> r.value.alpha == 255
  {
    match MatchHexPattern(s)
    case None => Err(NoMatch(s, HexNotation))
    case Some(hex) => Ok(FromRgb(HexValue(SixDigits(hex))))
  }

  /** The StringBuilder loop of `unserializeColor`: appends every character
      twice. */
  method ExpandShorthand(hex: string) returns (expanded: string)
    ensures |expanded| == 2 * |hex|
    ensures forall i | 0 <= i < |expanded| :: expanded[i] == hex[i / 2]
    ensures expanded == DoubleEach(hex)
  {
    expanded := [];
    for k := 0 to |hex|
      invariant |expanded| == 2 * k
      invariant forall i | 0 <= i < |expanded| :: expanded[i] == hex[i / 2]
    {
      expanded := expanded + [hex[k], hex[k]];
    }
  }

  /** `unserializeColor`: match, expand a three-digit group, parse base 16,
      and build the colour with `new Color(int)`. */
  method UnserializeColor(s: string) returns (r: Result<Color>)
    ensures r == Decode(s)
  {
    var m := MatchHexPattern(s);
    if m.None? {
      return Err(NoMatch(s, HexNotation));
    }
    var hex := m.value;
    if |hex| == 3 {
      hex := ExpandShorthand(hex);
    }
    r := Ok(FromRgb(HexValue(hex)));
  }

  /** `serializeColor`: the colour's `getCSS()`, '#' and six lower-case hex
      digits, alpha dropped. */
  function SerializeColor(c: Color): (s: string)
    ensures |s| == 7 && s[0] == '#'
    ensures forall i | 1 <= i < 7 :: IsLowerHexDigit(s[i])
    ensures s == GetCss(WithoutAlpha(c))
  {
    GetCss(c)
  }

  /** Six hex digits read as 0xRRGGBB give the three digit pairs as channels. */
  lemma {:induction false} SixDigitChannels(six: string)
    requires |six| == 6 && AllHexDigits(six)
    ensures AllHexDigits(six[..2]) && AllHexDigits(six[2..4]) && AllHexDigits(six[4..])
    ensures FromRgb(HexValue(six)) == Color(PairValue(six[..2]), PairValue(six[2..4]), PairValue(six[4..]), 255)
  {
    var a, b, d := six[..2], six[2..4], six[4..];
    assert AllHexDigits(a) && AllHexDigits(b) && AllHexDigits(d);
    HexValueConcat(b, d);
    HexValueConcat(a, b + d);
    assert six == a + (b + d);
    assert Pow16(2) == 256 && Pow16(4) == 65536;
    var x, y, z := HexValue(a), HexValue(b), HexValue(d);
    assert x == PairValue(a) && y == PairValue(b) && z == PairValue(d);
    assert HexValue(six) == x * 65536 + (y * 256 + z);
    PackedChannels(x, y, z);
  }

  /** The channel two hex digits denote. */
  function PairValue(p: string): (n: Channel)
    requires |p| == 2 && AllHexDigits(p)
    ensures n == HexValue(p) == 16 * HexDigitValue(p[0]) + HexDigitValue(p[1])
  {
    assert p[..1][..0] == [];
    assert HexValue(p[..1]) == HexDigitValue(p[0]);
    HexValue(p)
  }

  lemma PackedChannels(x: int, y: int, z: int)
    requires 0 <= x < 256 && 0 <= y < 256 && 0 <= z < 256
    ensures FromRgb(x * 65536 + (y * 256 + z)) == Color(x, y, z, 255)
  {
    var n := x * 65536 + (y * 256 + z);
    assert n / 65536 == x;
    assert n / 256 == x * 256 + y;
    assert (x * 256 + y) % 256 == y;
    assert n % 256 == z;
  }

  /** The decoded colour has red, green and blue equal to the first, second
      and third pairs of the (expanded) digits, and alpha 255. */
  lemma DecodedChannels(s: string)
    requires Decode(s).Ok?
    ensures var six := SixDigits(MatchHexPattern(s).value);
            AllHexDigits(six[..2]) && AllHexDigits(six[2..4]) && AllHexDigits(six[4..]) &&
            Decode(s).value == Color(PairValue(six[..2]), PairValue(six[2..4]), PairValue(six[4..]), 255)
  {
    SixDigitChannels(SixDigits(MatchHexPattern(s).value));
  }

  /** A doubled digit denotes 17 times the digit. */
  lemma DoubledDigit(c: char)
    requires IsHexDigit(c)
    ensures PairValue([c, c]) == 17 * HexDigitValue(c)
  {
  }

  /** A three-digit colour is the six-digit colour with every digit doubled:
      `#abc` reads as `#aabbcc`, so each channel is 17 times its digit. */
  lemma ShorthandIsDoubled(b: string)
    requires |b| == 3 && AllHexDigits(b)
    ensures Decode(b) == Decode(DoubleEach(b))
    ensures Decode("#" + b) == Decode("#" + DoubleEach(b))
    ensures Decode(b).Ok?
    ensures Decode(b).value == Color(17 * HexDigitValue(b[0]), 17 * HexDigitValue(b[1]), 17 * HexDigitValue(b[2]), 255)
  {
    var six := DoubleEach(b);
    assert ("#" + b)[1..] == b && ("#" + six)[1..] == six;
    assert AllHexDigits(six);
    assert MatchHexPattern(b) == Some(b);
    SixDigitChannels(six);
    assert six[..2] == [b[0], b[0]] && six[2..4] == [b[1], b[1]] && six[4..] == [b[2], b[2]];
    DoubledDigit(b[0]);
    DoubledDigit(b[1]);
    DoubledDigit(b[2]);
  }

  /** The leading '#' is optional. */
  lemma HashIsOptional(s: string)
    requires s == [] || s[0] != '#'
    ensures Decode("#" + s).Ok? == Decode(s).Ok?
    ensures Decode(s).Ok? ==> Decode("#" + s).value == Decode(s).value
  {
    assert ("#" + s)[1..] == s;
  }

  /** Lower-casing neither makes nor unmakes a group of hex digits. */
  lemma LowerHexBody(b: string)
    ensures IsHexBody(LowerAsciiText(b)) == IsHexBody(b)
  {
    var t := LowerAsciiText(b);
    assert forall i | 0 <= i < |b| :: IsHexDigit(t[i]) == IsHexDigit(b[i]);
  }

  /** HEX_PATTERN matches the lower-cased text exactly when it matches the
      text, and then captures the lower-cased digits. */
  lemma LowerMatch(s: string)
    ensures MatchHexPattern(LowerAsciiText(s)).Some? == MatchHexPattern(s).Some?
    ensures MatchHexPattern(s).Some? ==>
              MatchHexPattern(LowerAsciiText(s)).value == LowerAsciiText(MatchHexPattern(s).value)
  {
    var t := LowerAsciiText(s);
    var body := if |s| > 0 && s[0] == '#' then s[1..] else s;
    var tBody := if |t| > 0 && t[0] == '#' then t[1..] else t;
    assert |s| > 0 ==> (t[0] == '#' <==> s[0] == '#');
    assert tBody == LowerAsciiText(body);
    LowerHexBody(body);
  }

  lemma SixDigitsLower(b: string)
    requires IsHexBody(b)
    ensures IsHexBody(LowerAsciiText(b))
    ensures SixDigits(LowerAsciiText(b)) == LowerAsciiText(SixDigits(b))
  {
    LowerHexBody(b);
  }

  /** Case does not matter: lower-casing the text decodes to the same result. */
  lemma CaseIsIgnored(s: string)
    ensures Decode(LowerAsciiText(s)).Ok? == Decode(s).Ok?
    ensures Decode(s).Ok? ==> Decode(LowerAsciiText(s)) == Decode(s)
  {
    LowerMatch(s);
    if MatchHexPattern(s).Some? {
      var body := MatchHexPattern(s).value;
      SixDigitsLower(body);
      HexValueLower(SixDigits(body));
    }
  }

  /** `unserializeColor(serializeColor(c))` is `c` with alpha 255; in
      particular HEX_PATTERN accepts every `serializeColor` output. */
  lemma {:induction false} UnserializeSerialize(c: Color)
    ensures MatchHexPattern(SerializeColor(c)).Some?
    ensures Decode(SerializeColor(c)) == Ok(WithoutAlpha(c))
  {
    var s := SerializeColor(c);
    var six := s[1..];
    assert six == CssHexPair(c.red) + CssHexPair(c.green) + CssHexPair(c.blue);
    assert AllHexDigits(six);
    assert s == "#" + six;
    assert six[..2] == CssHexPair(c.red) && six[2..4] == CssHexPair(c.green) && six[4..] == CssHexPair(c.blue);
    DecodedChannels(s);
  }
}
