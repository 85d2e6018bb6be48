/** RgbToColorConverter: the String <-> Color converter for `rgb(r,g,b)`.
    The class carries its own copy of RGB_PATTERN (the same regular
    expression, so the same recogniser) and its own `serialize`,
    `unserialize` and `parseColor`. */
module RgbToColorConverter {
  import opened Conversion
  import opened Lexical
  import opened VaadinColor
  import opened CssFunctionSyntax
  import AbstractRgbColorConverter
  import AbstractStringToColorConverter

  /** `parseColor`: Integer.valueOf, then the 0..255 range check. */
  function ParseColor(colorString: string): (r: Result<Channel>)
    ensures r.Ok? <==> ParseJavaInt(colorString).Some? && 0 <= ParseJavaInt(colorString).value <= 255
    ensures r.Ok? ==> ParseJavaInt(colorString) == Some(r.value as int)
    ensures r.Err? ==> r.error.NotAnInteger? || r.error.IllegalColor?
  {
    var color := ParseJavaInt(colorString);
    if color.None? then Err(NotAnInteger(colorString))
    else if color.value < 0 || color.value > 255 then Err(IllegalColor(color.value))
    else Ok(color.value)
  }

  /** `serialize`: `rgb(%d,%d,%d)`. */
  function Serialize(color: Color): (s: string)
    ensures s == Render(AbstractRgbColorConverter.SerializedCall(color))
    ensures MatchRgb(s).Some? && Captures(MatchRgb(s).value) == Captures(AbstractRgbColorConverter.SerializedCall(color))
  {
    AbstractRgbColorConverter.BareRgbText(DecimalText(color.red), DecimalText(color.green), DecimalText(color.blue));
    MatchRgbComplete(AbstractRgbColorConverter.SerializedCall(color));
    "rgb(" + DecimalText(color.red) + "," + DecimalText(color.green) + "," + DecimalText(color.blue) + ")"
  }

  /** `unserialize`: match, parse the groups in order, build an opaque colour. */
  function Unserialize(s: string): (r: Result<Color>)
    ensures r.Ok? ==> MatchRgb(s).Some? && r.value.alpha == 255
    ensures MatchRgb(s).None? <==> r == Err(NoMatch(s, RgbNotation))
  {
    match MatchRgb(s)
    case None => Err(NoMatch(s, RgbNotation))
    case Some(m) =>
      var red :- ParseColor(m.fields[0].text);
      var green :- ParseColor(m.fields[1].text);
      var blue :- ParseColor(m.fields[2].text);
      Ok(Opaque(red, green, blue))
  }

  /** The hooks this class gives AbstractStringToColorConverter. */
  function Hooks(): AbstractStringToColorConverter.Hooks
  {
    AbstractStringToColorConverter.Hooks(c => Ok(Serialize(c)), Unserialize)
  }

  function ConvertToModel(value: Option<string>): (r: Result<Option<Color>>)
    ensures value.None? ==> r == Ok(None)
    ensures value.Some? ==> r == (match Unserialize(value.value) case Ok(c) => Ok(Some(c)) case Err(e) => Err(e))
  {
    AbstractStringToColorConverter.ConvertToModel(Hooks(), value)
  }

  function ConvertToPresentation(value: Option<Color>): (r: Result<Option<string>>)
    ensures value.None? ==> r == Ok(None)
    ensures value.Some? ==> r == Ok(Some(Serialize(value.value)))
  {
    AbstractStringToColorConverter.ConvertToPresentation(Hooks(), value)
  }

  /** The duplicate `parseColor` agrees with AbstractRgbColorConverter's. */
  lemma ParseColorAgrees(colorString: string)
    ensures ParseColor(colorString) == AbstractRgbColorConverter.ParseColor(colorString)
  {
  }

  /** The duplicate `serialize` agrees with `serializeColor`. */
  lemma SerializeAgrees(color: Color)
    ensures Serialize(color) == AbstractRgbColorConverter.SerializeColor(color)
  {
  }

  /** The duplicate `unserialize` agrees with `unserializeColor`, failures
      included. */
  lemma UnserializeAgrees(s: string)
    ensures Unserialize(s) == AbstractRgbColorConverter.UnserializeColor(s)
  {
    if MatchRgb(s).Some? {
      var call := MatchRgb(s).value;
      ParseColorAgrees(call.fields[0].text);
      ParseColorAgrees(call.fields[1].text);
      ParseColorAgrees(call.fields[2].text);
    }
  }

  /** The hooks honour the documented contract. */
  lemma HooksHonourContract()
    ensures AbstractStringToColorConverter.HonoursContract(Hooks())
  {
    forall c: Color
      ensures Unserialize(Serialize(c)) == Ok(WithoutAlpha(c))
    {
      SerializeAgrees(c);
      UnserializeAgrees(Serialize(c));
      AbstractRgbColorConverter.UnserializeSerialize(c);
    }
  }

  /** Presenting a colour and reading the text back gives the colour with
      alpha 255; null stays null. */
  lemma RoundTrip(value: Option<Color>)
    ensures ConvertToPresentation(value).Ok?
    ensures ConvertToModel(ConvertToPresentation(value).value) ==
              Ok(if value.None? then None else Some(WithoutAlpha(value.value)))
  {
    if value.Some? {
      SerializeAgrees(value.value);
      UnserializeAgrees(Serialize(value.value));
      AbstractRgbColorConverter.UnserializeSerialize(value.value);
    }
  }

  /** A test pair of the converter: presenting `color` gives `text`, and
      reading `text` gives `color`. */
  predicate Converges(color: Color, text: string) {
    ConvertToPresentation(Some(color)) == Ok(Some(text)) &&
    ConvertToModel(Some(text)) == Ok(Some(color))
  }

  /** The rgb texts of the sample colours. */
  lemma SampleTexts()
    ensures Serialize(Opaque(255, 255, 255)) == "rgb(255,255,255)"
    ensures Serialize(Opaque(15, 224, 0)) == "rgb(15,224,0)"
    ensures Serialize(Opaque(0, 0, 0)) == "rgb(0,0,0)"
  {
    SampleDecimals();
    assert "rgb(" + "255" + "," + "255" + "," + "255" + ")" == "rgb(255,255,255)";
    assert "rgb(" + "15" + "," + "224" + "," + "0" + ")" == "rgb(15,224,0)";
    assert "rgb(" + "0" + "," + "0" + "," + "0" + ")" == "rgb(0,0,0)";
  }

  lemma WhiteConverges()
    ensures Converges(Opaque(255, 255, 255), "rgb(255,255,255)")
  {
    SampleTexts();
    RoundTrip(Some(Opaque(255, 255, 255)));
  }

  lemma GreenConverges()
    ensures Converges(Opaque(15, 224, 0), "rgb(15,224,0)")
  {
    SampleTexts();
    RoundTrip(Some(Opaque(15, 224, 0)));
  }

  lemma BlackConverges()
    ensures Converges(Opaque(0, 0, 0), "rgb(0,0,0)")
  {
    SampleTexts();
    RoundTrip(Some(Opaque(0, 0, 0)));
  }
}
