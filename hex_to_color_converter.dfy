/** HexToColorConverter: presentation String, model Color, in CSS hex
    notation. */
module HexToColorConverter {
  import opened Conversion
  import opened Lexical
  import opened VaadinColor
  import opened AbstractHexColorConverter

  /** `convertToModel`: null stays null, a text is read by `unserializeColor`. */
  function ConvertToModel(value: Option<string>): (r: Result<Option<Color>>)
    ensures value.None? ==> r == Ok(None)
    ensures value.Some? ==> (r.Ok? <==> MatchHexPattern(value.value).Some?)
    ensures value.Some? && r.Ok? ==> r.value == Some(Decode(value.value).value)
    ensures r.Err? ==> value.Some? && r.error == NoMatch(value.value, HexNotation)
  {
    NullSafe(Decode, value)
  }

  /** `convertToPresentation`: null stays null, a colour is written by
      `serializeColor`. */
  function ConvertToPresentation(value: Option<Color>): (r: Result<Option<string>>)
    ensures value.None? ==> r == Ok(None)
    ensures value.Some? ==> r == Ok(Some(SerializeColor(value.value)))
  {
    NullSafe(c => Ok(SerializeColor(c)), value)
  }

  /** Presenting a colour and reading the text back gives the colour with
      alpha 255; null stays null. */
  lemma RoundTrip(value: Option<Color>)
    ensures ConvertToPresentation(value).Ok?
    ensures ConvertToModel(ConvertToPresentation(value).value) ==
              Ok(if value.None? then None else Some(WithoutAlpha(value.value)))
  {
    if value.Some? {
      UnserializeSerialize(value.value);
    }
  }

  /** A test pair of the converter: presenting `color` gives `text` up to
      case, and reading `text` gives `color`. */
  predicate Converges(color: Color, text: string) {
    ConvertToPresentation(Some(color)).Ok? &&
    ConvertToPresentation(Some(color)).value.Some? &&
    LowerAsciiText(ConvertToPresentation(Some(color)).value.value) == LowerAsciiText(text) &&
    ConvertToModel(Some(text)) == Ok(Some(color))
  }

  /** A text that lower-cases to what `color` presents as converges with it. */
  lemma ConvergesUpToCase(color: Color, text: string)
    requires color.alpha == 255
    requires LowerAsciiText(text) == SerializeColor(color)
    ensures Converges(color, text)
  {
    var s := SerializeColor(color);
    assert LowerAsciiText(s) == s by {
      forall i | 0 <= i < |s|
        ensures LowerAscii(s[i]) == s[i]
      {
        if i >= 1 {
          assert IsLowerHexDigit(s[i]);
        }
      }
    }
    CaseIsIgnored(text);
    UnserializeSerialize(color);
  }

  /** The hex texts of the sample colours. */
  lemma SampleTexts()
    ensures SerializeColor(Opaque(255, 255, 255)) == "#ffffff"
    ensures SerializeColor(Opaque(15, 224, 0)) == "#0fe000"
    ensures SerializeColor(Opaque(0, 0, 0)) == "#000000"
  {
    assert CssHexPair(255) == "ff" && CssHexPair(15) == "0f" && CssHexPair(224) == "e0" && CssHexPair(0) == "00";
    assert "#" + "ff" + "ff" + "ff" == "#ffffff";
    assert "#" + "0f" + "e0" + "00" == "#0fe000";
    assert "#" + "00" + "00" + "00" == "#000000";
  }

  lemma MixedCaseWhite()
    ensures Converges(Opaque(255, 255, 255), "#ffFFff")
  {
    SampleTexts();
    assert LowerAsciiText("#ffFFff") == "#ffffff";
    ConvergesUpToCase(Opaque(255, 255, 255), "#ffFFff");
  }

  lemma UpperCaseGreen()
    ensures Converges(Opaque(15, 224, 0), "#0FE000")
  {
    SampleTexts();
    assert LowerAsciiText("#0FE000") == "#0fe000";
    ConvergesUpToCase(Opaque(15, 224, 0), "#0FE000");
  }

  lemma Black()
    ensures Converges(Opaque(0, 0, 0), "#000000")
  {
    SampleTexts();
    assert LowerAsciiText("#000000") == "#000000";
    ConvergesUpToCase(Opaque(0, 0, 0), "#000000");
  }

  /** White is presented as `#ffffff`. */
  lemma WhitePresentation()
    ensures ConvertToPresentation(Some(White)) == Ok(Some("#ffffff"))
  {
    SampleTexts();
  }
}
