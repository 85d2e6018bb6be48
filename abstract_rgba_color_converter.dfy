/** AbstractRgbaColorConverter: the CSS functional notation
    `rgba(r,g,b,a)`, integer channels and an alpha between 0 and 1.
    Doubles are modelled as exact rationals (`real`). */
module AbstractRgbaColorConverter {
  import opened Conversion
  import opened Lexical
  import opened VaadinColor
  import opened CssFunctionSyntax
  import AbstractRgbColorConverter

  /** The exact number an unsigned decimal literal `whole.frac` denotes. */
  function DecimalLiteralValue(whole: string, frac: string): (v: real)
    requires AllDigits(whole) && AllDigits(frac)
    ensures v >= 0.0
  {
    if frac == [] then DecimalValue(whole) as real
    else DecimalValue(whole) as real + DecimalValue(frac) as real / Pow10(|frac|) as real
  }

  /** Double.valueOf on an unsigned decimal literal (digits, optionally a '.'
      and more digits, at least one digit in all), read exactly; None stands
      for NumberFormatException. */
  function ParseDouble(s: string): (r: Option<real>)
    ensures r.Some? ==> r.value >= 0.0
  {
    var parts := Split(s, '.');
    if |parts| > 2 then None
    else
      var whole := parts[0];
      var frac := if |parts| == 2 then parts[1] else [];
      if AllDigits(whole) && AllDigits(frac) && |whole| + |frac| >= 1 then
        Some(DecimalLiteralValue(whole, frac))
      else
        None
  }

  /** The value of an alpha token `[01](\.\d+)?`: its leading digit plus
      the fraction its remaining digits spell. */
  function TokenValue(t: string): real
    requires IsAlphaToken(t)
  {
    DigitValue(t[0]) as real +
      (if |t| == 1 then 0.0 else DecimalValue(t[2..]) as real / Pow10(|t| - 2) as real)
  }

  /** `doubleToInt`: Math.round(alpha * 255), rounding half up. */
  function DoubleToInt(alpha: real): (a: int)
    ensures a as real <= alpha * 255.0 + 0.5 < a as real + 1.0
    ensures 0.0 <= alpha <= 1.0 ==> 0 <= a <= 255
  {
    (alpha * 255.0 + 0.5).Floor
  }

  /** `intToDouble`: the channel as a fraction of 255. */
  function IntToDouble(alpha: Channel): (v: real)
    ensures 0.0 <= v <= 1.0
    ensures v * 255.0 == alpha as real
  {
    alpha as real / 255.0
  }

  /** `parseAlpha`: Double.valueOf, then the 0..1 range check, then
      `doubleToInt`. On success the channel is the one nearest to the
      parsed value times 255. */
  function ParseAlpha(colorString: string): (r: Result<Channel>)
    ensures r.Ok? ==> ParseDouble(colorString).Some? && ParseDouble(colorString).value <= 1.0
    ensures r.Ok? ==> -0.5 < r.value as real - 255.0 * ParseDouble(colorString).value <= 0.5
    ensures r.Err? ==> r.error.NotADouble? || r.error.IllegalAlpha?
  {
    match ParseDouble(colorString)
    case None => Err(NotADouble(colorString))
    case Some(alpha) =>
      if alpha < 0.0 || alpha > 1.0 then Err(IllegalAlpha(alpha)) else Ok(DoubleToInt(alpha))
  }

  /** `intToDouble` then `doubleToInt` is the identity on channels. */
  lemma DoubleToIntOfIntToDouble(alpha: Channel)
    ensures DoubleToInt(IntToDouble(alpha)) == alpha
  {
    assert IntToDouble(alpha) * 255.0 + 0.5 == alpha as real + 0.5;
  }

  /** A value closer than half a step to a channel's fraction rounds to that
      channel. */
  lemma NearValueRoundsTo(v: real, alpha: Channel)
    requires -1.0 / 510.0 < v - IntToDouble(alpha) < 1.0 / 510.0
    ensures DoubleToInt(v) == alpha
  {
    var a := DoubleToInt(v);
    assert -0.5 < v * 255.0 - alpha as real < 0.5;
  }

  lemma DigitsHaveNoDot(t: string)
    requires AllDigits(t)
    ensures '.' !in t
  {
    assert forall i | 0 <= i < |t| :: t[i] != '.';
  }

  /** Double.valueOf reads a digit string exactly. */
  lemma WholeLiteral(t: string)
    requires AllDigits(t) && |t| >= 1
    ensures ParseDouble(t) == Some(DecimalValue(t) as real)
  {
    DigitsHaveNoDot(t);
    SplitWithoutSeparator(t, '.');
  }

  /** Double.valueOf reads `whole.frac` exactly. */
  lemma FractionLiteral(t: string, k: nat)
    requires k < |t| && AllDigits(t[..k]) && t[k] == '.' && AllDigits(t[k + 1..]) && k >= 1
    ensures ParseDouble(t) == Some(DecimalLiteralValue(t[..k], t[k + 1..]))
  {
    var whole, frac := t[..k], t[k + 1..];
    DigitsHaveNoDot(whole);
    DigitsHaveNoDot(frac);
    assert t == whole + ['.'] + frac;
    SplitAfterPart(whole, '.', frac);
    SplitWithoutSeparator(frac, '.');
    assert Split(t, '.') == [whole, frac];
  }

  /** Double.valueOf reads an alpha token as the token's value. */
  lemma ParseDoubleOfToken(t: string)
    requires IsAlphaToken(t)
    ensures ParseDouble(t) == Some(TokenValue(t))
  {
    assert t[..0] == [];
    if |t| == 1 {
      WholeLiteral(t);
    } else {
      assert t[..1][..0] == [];
      assert DecimalValue(t[..1]) == DigitValue(t[0]);
      FractionLiteral(t, 1);
    }
  }

  /** A fraction whose numerator is below its denominator is below 1, and
      is 0 exactly when the numerator is. */
  lemma ProperFraction(d: nat, p: nat)
    requires d < p
    ensures 0.0 <= d as real / p as real < 1.0
    ensures d as real / p as real == 0.0 <==> d == 0
  {
    var f := d as real / p as real;
    assert f * p as real == d as real;
  }

  /** A token starting with 0 is below 1; one starting with 1 is at most 1
      exactly when its fraction digits are all zero. */
  lemma TokenAtMostOne(t: string)
    requires IsAlphaToken(t)
    ensures TokenValue(t) <= 1.0 <==> t[0] == '0' || |t| == 1 || DecimalValue(t[2..]) == 0
  {
    if |t| > 1 {
      DecimalValueBound(t[2..]);
      ProperFraction(DecimalValue(t[2..]), Pow10(|t| - 2));
    }
  }

  /** `parseAlpha` on an alpha token: the rounded channel if the token is at
      most 1, and "Illegal value" otherwise; Double.valueOf never fails on
      a token. */
  lemma ParseAlphaOfToken(t: string)
    requires IsAlphaToken(t)
    ensures ParseAlpha(t) ==
              if TokenValue(t) <= 1.0 then Ok(DoubleToInt(TokenValue(t))) else Err(IllegalAlpha(TokenValue(t)))
  {
    ParseDoubleOfToken(t);
  }

  /** How `serializeColor` writes the alpha: `%d` when alpha / 255 is a whole
      number, otherwise `%s` of the double, which is Double.toString and is
      given here as `fraction`.
      Alpha 0 is written `0`, alpha 255 is written `1`, and every other
      alpha is written as its fraction. */
  function AlphaText(alpha: Channel, fraction: Channel -> string): (t: string)
    ensures alpha == 0 ==> t == "0"
    ensures alpha == 255 ==> t == "1"
    ensures 0 < alpha < 255 ==> t == fraction(alpha)
  {
    var v := IntToDouble(alpha);
    assert alpha == 0 ==> v == 0.0 && DecimalText(0) == "0";
    assert alpha == 255 ==> v == 1.0 && DecimalText(1) == "1";
    assert 0 < alpha < 255 ==> 0.0 < v < 1.0 && v.Floor == 0;
    if v == v.Floor as real then DecimalText(v.Floor) else fraction(alpha)
  }

  /** `serializeColor`: `rgba(%d,%d,%d,%s)` with the alpha text. */
  function SerializeColor(color: Color, fraction: Channel -> string): (s: string)
    ensures s == Render(SerializedCall(color, fraction))
  {
    BareRgbaText(color.red, color.green, color.blue, AlphaText(color.alpha, fraction));
    "rgba(" + DecimalText(color.red) + "," + DecimalText(color.green) + "," + DecimalText(color.blue) + "," +
      AlphaText(color.alpha, fraction) + ")"
  }

  /** `unserializeColor`: match RGBA_PATTERN, parse the three channel groups
      with `parseColor` and the alpha group with `parseAlpha`, in order. */
  function UnserializeColor(s: string): (r: Result<Color>)
    ensures r.Ok? ==> MatchRgba(s).Some?
    ensures MatchRgba(s).None? <==> r == Err(NoMatch(s, RgbaNotation))
  {
    match MatchRgba(s)
    case None => Err(NoMatch(s, RgbaNotation))
    case Some(m) => ParseGroups(m.fields[0].text, m.fields[1].text, m.fields[2].text, m.fields[3].text)
  }

  /** The groups of a matched call parsed in order: the first failure is the
      one thrown, and it is never a pattern mismatch. */
  function ParseGroups(r: string, g: string, b: string, a: string): (c: Result<Color>)
    ensures c.Err? ==> !c.error.NoMatch?
  {
    var red :- AbstractRgbColorConverter.ParseColor(r);
    var green :- AbstractRgbColorConverter.ParseColor(g);
    var blue :- AbstractRgbColorConverter.ParseColor(b);
    var alpha :- ParseAlpha(a);
    Ok(Color(red, green, blue, alpha))
  }

  /** Every well-formed rgba call decodes to the parsed groups, or to the
      error of the first group that fails. */
  lemma UnserializeComplete(call: Call)
    requires IsRgbaCall(call)
    ensures UnserializeColor(Render(call)) ==
              (var red :- AbstractRgbColorConverter.ParseColor(call.fields[0].text);
               var green :- AbstractRgbColorConverter.ParseColor(call.fields[1].text);
               var blue :- AbstractRgbColorConverter.ParseColor(call.fields[2].text);
               var alpha :- ParseAlpha(call.fields[3].text);
               Ok(Color(red, green, blue, alpha)))
  {
    MatchRgbaComplete(call);
    var m := MatchRgba(Render(call)).value;
    assert m.fields[0].text == Captures(m)[0] == Captures(call)[0] == call.fields[0].text;
    assert m.fields[1].text == Captures(m)[1] == Captures(call)[1] == call.fields[1].text;
    assert m.fields[2].text == Captures(m)[2] == Captures(call)[2] == call.fields[2].text;
    assert m.fields[3].text == Captures(m)[3] == Captures(call)[3] == call.fields[3].text;
  }

  /** Every successful decode comes from a well-formed rgba call: channels
      are the decimals of their groups, and alpha is the nearest channel to
      the alpha token's value times 255, which is at most 1. */
  lemma UnserializeSound(s: string)
    requires UnserializeColor(s).Ok?
    ensures var call := MatchRgba(s).value;
            var c := UnserializeColor(s).value;
            IsRgbaCall(call) && Render(call) == s &&
            AbstractRgbColorConverter.ChannelGroup(call.fields[0].text) && c.red == DecimalValue(call.fields[0].text) &&
            AbstractRgbColorConverter.ChannelGroup(call.fields[1].text) && c.green == DecimalValue(call.fields[1].text) &&
            AbstractRgbColorConverter.ChannelGroup(call.fields[2].text) && c.blue == DecimalValue(call.fields[2].text) &&
            TokenValue(call.fields[3].text) <= 1.0 && c.alpha == DoubleToInt(TokenValue(call.fields[3].text))
  {
    var call := MatchRgba(s).value;
    var t0, t1, t2, t3 := call.fields[0].text, call.fields[1].text, call.fields[2].text, call.fields[3].text;
    assert AbstractRgbColorConverter.ParseColor(t0).Ok?;
    assert AbstractRgbColorConverter.ParseColor(t1).Ok?;
    assert AbstractRgbColorConverter.ParseColor(t2).Ok?;
    assert ParseAlpha(t3).Ok?;
    AbstractRgbColorConverter.ParseChannelGroup(t0);
    AbstractRgbColorConverter.ParseChannelGroup(t1);
    AbstractRgbColorConverter.ParseChannelGroup(t2);
    ParseAlphaOfToken(t3);
  }

  /** `fraction` writes alpha `a` as an alpha token within half a step of
      a / 255, which is what Double.toString gives for a / 255d. */
  predicate WritesAlpha(fraction: Channel -> string, alpha: Channel) {
    IsAlphaToken(fraction(alpha)) &&
    -1.0 / 510.0 < TokenValue(fraction(alpha)) - IntToDouble(alpha) < 1.0 / 510.0
  }

  /** The alpha text `serializeColor` writes is read back as the same alpha. */
  lemma AlphaTextReadsBack(alpha: Channel, fraction: Channel -> string)
    requires alpha == 0 || alpha == 255 || WritesAlpha(fraction, alpha)
    ensures IsAlphaToken(AlphaText(alpha, fraction))
    ensures ParseAlpha(AlphaText(alpha, fraction)) == Ok(alpha)
  {
    var t := AlphaText(alpha, fraction);
    if alpha == 0 || alpha == 255 {
      assert t[..1][..0] == [];
      ParseAlphaOfToken(t);
    } else {
      ParseAlphaOfToken(t);
      NearValueRoundsTo(TokenValue(t), alpha);
      assert TokenValue(t) < 1.0;
    }
  }

  /** The call `rgba(r,g,b,alpha)` with the channels as unpadded decimals
      and no whitespace. */
  function BareRgbaCall(red: Channel, green: Channel, blue: Channel, alpha: string): Call
  {
    Call("rgba", [Bare(DecimalText(red)), Bare(DecimalText(green)), Bare(DecimalText(blue)), Bare(alpha)])
  }

  /** With an alpha token, the bare call is a well-formed rgba call. */
  lemma BareRgbaCallIsRgbaCall(red: Channel, green: Channel, blue: Channel, alpha: string)
    requires IsAlphaToken(alpha)
    ensures IsRgbaCall(BareRgbaCall(red, green, blue, alpha))
  {
    DecimalChannelField(red);
    DecimalChannelField(green);
    DecimalChannelField(blue);
    KeywordsMatch();
    RgbaCallOf("rgba", Bare(DecimalText(red)), Bare(DecimalText(green)), Bare(DecimalText(blue)), Bare(alpha));
  }

  /** The call `serializeColor` writes. */
  function SerializedCall(color: Color, fraction: Channel -> string): Call
  {
    BareRgbaCall(color.red, color.green, color.blue, AlphaText(color.alpha, fraction))
  }

  /** The text of the bare call. */
  lemma BareRgbaText(red: Channel, green: Channel, blue: Channel, alpha: string)
    ensures Render(BareRgbaCall(red, green, blue, alpha)) ==
              "rgba(" + DecimalText(red) + "," + DecimalText(green) + "," + DecimalText(blue) + "," + alpha + ")"
  {
    BareFourText(DecimalText(red), DecimalText(green), DecimalText(blue), alpha);
  }

  lemma BareFourText(r: string, g: string, b: string, a: string)
    ensures Render(Call("rgba", [Bare(r), Bare(g), Bare(b), Bare(a)])) == "rgba(" + r + "," + g + "," + b + "," + a + ")"
  {
    RenderFour("rgba", Bare(r), Bare(g), Bare(b), Bare(a));
    assert "rgba" + "(" == "rgba(";
  }

  /** A bare call with an alpha token decodes to its three channels and the
      parsed alpha, or to the alpha's error. */
  lemma BareCallDecodes(red: Channel, green: Channel, blue: Channel, alpha: string)
    requires IsAlphaToken(alpha)
    ensures var r := UnserializeColor(Render(BareRgbaCall(red, green, blue, alpha)));
            (ParseAlpha(alpha).Ok? ==> r == Ok(Color(red, green, blue, ParseAlpha(alpha).value))) &&
            (ParseAlpha(alpha).Err? ==> r == Err(ParseAlpha(alpha).error))
  {
    var r, g, b := DecimalText(red), DecimalText(green), DecimalText(blue);
    BareRgbaCallIsRgbaCall(red, green, blue, alpha);
    assert AbstractRgbColorConverter.ParseColor(r) == Ok(red) by {
      AbstractRgbColorConverter.ParseChannelGroup(r);
    }
    assert AbstractRgbColorConverter.ParseColor(g) == Ok(green) by {
      AbstractRgbColorConverter.ParseChannelGroup(g);
    }
    assert AbstractRgbColorConverter.ParseColor(b) == Ok(blue) by {
      AbstractRgbColorConverter.ParseChannelGroup(b);
    }
    UnserializeComplete(BareRgbaCall(red, green, blue, alpha));
  }

  /** Round trip: `unserializeColor(serializeColor(c))` is `c` when alpha is
      0 or 255, and whenever the fractional alpha text reads back to it. */
  lemma UnserializeSerialize(color: Color, fraction: Channel -> string)
    requires color.alpha == 0 || color.alpha == 255 || WritesAlpha(fraction, color.alpha)
    ensures UnserializeColor(SerializeColor(color, fraction)) == Ok(color)
  {
    AlphaTextReadsBack(color.alpha, fraction);
    BareCallDecodes(color.red, color.green, color.blue, AlphaText(color.alpha, fraction));
  }

  /** Alpha 255 is written `1` and alpha 0 is written `0`. */
  lemma SerializeWholeAlpha(fraction: Channel -> string)
    ensures SerializeColor(Color(15, 224, 0, 255), fraction) == "rgba(15,224,0,1)"
    ensures SerializeColor(Color(0, 0, 0, 0), fraction) == "rgba(0,0,0,0)"
  {
    SampleDecimals();
    assert "rgba(" + "15" + "," + "224" + "," + "0" + "," + "1" + ")" == "rgba(15,224,0,1)";
    assert "rgba(" + "0" + "," + "0" + "," + "0" + "," + "0" + ")" == "rgba(0,0,0,0)";
  }

  /** A bare rgba call is read back with its alpha text as the fourth
      group, for any alpha text without commas or surrounding spaces. */
  lemma BareAlphaReadBack(red: Channel, green: Channel, blue: Channel, alpha: string)
    requires ',' !in alpha && Trimmed(alpha)
    ensures ReadCall(Render(BareRgbaCall(red, green, blue, alpha)), 4).Some?
    ensures |ReadCall(Render(BareRgbaCall(red, green, blue, alpha)), 4).value.fields| == 4
    ensures ReadCall(Render(BareRgbaCall(red, green, blue, alpha)), 4).value.fields[3].text == alpha
  {
    ChannelReadable(red);
    ChannelReadable(green);
    ChannelReadable(blue);
    assert Readable(Bare(alpha));
    var call := BareRgbaCall(red, green, blue, alpha);
    ReadBackFour("rgba", call.fields[0], call.fields[1], call.fields[2], call.fields[3]);
    assert call.fields[3].text == alpha;
  }

  /** A channel written by `%d` reads back as itself. */
  lemma ChannelReadable(n: Channel)
    ensures Readable(Bare(DecimalText(n)))
  {
    DigitsHaveNoComma(DecimalText(n));
  }

  /** A bare rgba call whose alpha text is not `[01](\.\d+)?` fails the
      pattern. */
  lemma NonTokenAlphaRejected(red: Channel, green: Channel, blue: Channel, alpha: string)
    requires ',' !in alpha && Trimmed(alpha) && !IsAlphaToken(alpha)
    ensures var s := Render(BareRgbaCall(red, green, blue, alpha));
            UnserializeColor(s) == Err(NoMatch(s, RgbaNotation))
  {
    var s := Render(BareRgbaCall(red, green, blue, alpha));
    BareAlphaReadBack(red, green, blue, alpha);
    assert !IsRgbaCall(ReadCall(s, 4).value);
    assert MatchRgba(s).None?;
  }

  /** An alpha group outside `[01](\.\d+)?` fails the pattern: `2` and `1.`. */
  lemma BadAlphaTokenRejected(red: Channel, green: Channel, blue: Channel, alpha: string)
    requires alpha == "2" || alpha == "1."
    ensures var s := "rgba(" + DecimalText(red) + "," + DecimalText(green) + "," + DecimalText(blue) + "," + alpha + ")";
            UnserializeColor(s) == Err(NoMatch(s, RgbaNotation))
  {
    BadTokens();
    BareRgbaText(red, green, blue, alpha);
    NonTokenAlphaRejected(red, green, blue, alpha);
  }

  /** `2` and `1.` are comma-free, trimmed, and not alpha tokens. */
  lemma BadTokens()
    ensures ',' !in "2" && Trimmed("2") && !IsAlphaToken("2")
    ensures ',' !in "1." && Trimmed("1.") && !IsAlphaToken("1.")
  {
  }

  /** The whole alphas: 0 gives 0 and 1 gives 255. */
  lemma WholeAlphaExamples()
    ensures ParseAlpha("0") == Ok(0)
    ensures ParseAlpha("1") == Ok(255)
  {
    ParseAlphaOfToken("0");
    ParseAlphaOfToken("1");
    assert TokenValue("1") == 1.0;
    assert DoubleToInt(1.0) == 255;
  }

  /** A half alpha rounds half up, to 128. */
  lemma HalfAlphaExample()
    ensures IsAlphaToken("0.5") && ParseAlpha("0.5") == Ok(128)
  {
    assert "0.5"[2..] == "5" && "5"[..0] == [];
    ParseAlphaOfToken("0.5");
    assert TokenValue("0.5") == 0.5;
  }

  /** A token above 1 is out of range. */
  lemma AlphaAboveOneExample()
    ensures IsAlphaToken("1.5") && ParseAlpha("1.5") == Err(IllegalAlpha(1.5))
  {
    assert "1.5"[2..] == "5" && "5"[..0] == [];
    ParseAlphaOfToken("1.5");
    assert TokenValue("1.5") == 1.5;
  }

  /** An alpha above 1 that matches the pattern is rejected after the
      channels are read: `rgba(r,g,b,1.5)`. */
  lemma AlphaAboveOneRejected(red: Channel, green: Channel, blue: Channel)
    ensures UnserializeColor("rgba(" + DecimalText(red) + "," + DecimalText(green) + "," + DecimalText(blue) + "," + "1.5" + ")")
              == Err(IllegalAlpha(1.5))
  {
    BareRgbaText(red, green, blue, "1.5");
    AlphaAboveOneExample();
    BareCallDecodes(red, green, blue, "1.5");
  }

  /** A half alpha rounds up: `rgba(r,g,b,0.5)` has alpha 128. */
  lemma HalfAlphaRoundsUp(red: Channel, green: Channel, blue: Channel)
    ensures UnserializeColor("rgba(" + DecimalText(red) + "," + DecimalText(green) + "," + DecimalText(blue) + "," + "0.5" + ")")
              == Ok(Color(red, green, blue, 128))
  {
    BareRgbaText(red, green, blue, "0.5");
    HalfAlphaExample();
    BareCallDecodes(red, green, blue, "0.5");
  }
}
