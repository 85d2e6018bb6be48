/** ColorToRgbaConverter: the reversed direction, presentation Color and
    model String, in CSS rgba notation. The fractional alpha text
    (Double.toString) is the parameter `fraction`. */
module ColorToRgbaConverter {
  import opened Conversion
  import opened Lexical
  import opened VaadinColor
  import opened CssFunctionSyntax
  import opened AbstractRgbaColorConverter

  /** `convertToModel`: null stays null, a colour is written by
      `serializeColor`. */
  function ConvertToModel(fraction: Channel -> string, value: Option<Color>): (r: Result<Option<string>>)
    ensures value.None? ==> r == Ok(None)
    ensures value.Some? ==> r == Ok(Some(SerializeColor(value.value, fraction)))
  {
    NullSafe(c => Ok(SerializeColor(c, fraction)), value)
  }

  /** `convertToPresentation`: null stays null, a text is read by
      `unserializeColor`, whose exception propagates. */
  function ConvertToPresentation(value: Option<string>): (r: Result<Option<Color>>)
    ensures value.None? ==> r == Ok(None)
    ensures value.Some? ==> (r.Ok? <==> UnserializeColor(value.value).Ok?)
    ensures value.Some? && r.Ok? ==> r.value == Some(UnserializeColor(value.value).value)
    ensures r.Err? ==> value.Some? && r.error == UnserializeColor(value.value).error
  {
    NullSafe(UnserializeColor, value)
  }

  /** A text RGBA_PATTERN rejects raises the "Could not convert" exception. */
  lemma MalformedRejected(s: string)
    requires MatchRgba(s).None?
    ensures ConvertToPresentation(Some(s)) == Err(NoMatch(s, RgbaNotation))
  {
  }

  /** `rgba(r,g,b,2)` is malformed: 2 is not an alpha token. */
  lemma AlphaTwoRejected(red: Channel, green: Channel, blue: Channel)
    ensures var s := "rgba(" + DecimalText(red) + "," + DecimalText(green) + "," + DecimalText(blue) + "," + "2" + ")";
            ConvertToPresentation(Some(s)) == Err(NoMatch(s, RgbaNotation))
  {
    BadAlphaTokenRejected(red, green, blue, "2");
  }

  /** Writing a colour and reading it back gives the colour when its alpha
      is 0 or 255, or when `fraction` writes its alpha faithfully; null
      stays null. */
  lemma RoundTrip(fraction: Channel -> string, value: Option<Color>)
    requires value.Some? ==> value.value.alpha == 0 || value.value.alpha == 255 || WritesAlpha(fraction, value.value.alpha)
    ensures ConvertToModel(fraction, value).Ok?
    ensures ConvertToPresentation(ConvertToModel(fraction, value).value) == Ok(value)
  {
    if value.Some? {
      UnserializeSerialize(value.value, fraction);
    }
  }
}
