/** AbstractRgbColorConverter: the CSS functional notation `rgb(r,g,b)` with
    integer channels. */
module AbstractRgbColorConverter {
  import opened Conversion
  import opened Lexical
  import opened VaadinColor
  import opened CssFunctionSyntax

  /** `parseColor`: Integer.valueOf, then the 0..255 range check. */
  function ParseColor(text: string): (r: Result<Channel>)
    ensures r.Ok? <==> ParseJavaInt(text).Some? && 0 <= ParseJavaInt(text).value <= 255
    ensures r.Ok? ==> r.value == ParseJavaInt(text).value
    ensures r.Err? ==> r.error.NotAnInteger? || r.error.IllegalColor?
  {
    match ParseJavaInt(text)
    case None => Err(NotAnInteger(text))
    case Some(color) =>
      if color < 0 || color > 255 then Err(IllegalColor(color)) else Ok(color)
  }

  /** A group parseColor accepts: one to three digits denoting at most 255. */
  predicate ChannelGroup(text: string) {
    AllDigits(text) && 1 <= |text| <= 3 && DecimalValue(text) <= 255
  }

  /** On a group RGB_PATTERN captures (at most three ASCII digits) parseColor
      fails on the empty group, fails on a value above 255, and otherwise
      gives the decimal value of the digits, leading zeros allowed. */
  lemma ParseChannelGroup(text: string)
    requires AllDigits(text) && |text| <= 3
    ensures ParseColor(text).Ok? <==> ChannelGroup(text)
    ensures ParseColor(text).Ok? ==> ParseColor(text).value == DecimalValue(text)
    ensures text == [] ==> ParseColor(text) == Err(NotAnInteger(text))
    ensures text != [] && DecimalValue(text) > 255 ==> ParseColor(text) == Err(IllegalColor(DecimalValue(text)))
  {
    DecimalValueBound(text);
    assert Pow10(|text|) <= 1000;
  }

  /** `serializeColor`: `rgb(%d,%d,%d)` of red, green and blue. */
  function SerializeColor(c: Color): (s: string)
    ensures s == Render(SerializedCall(c))
    ensures MatchRgb(s).Some? && Captures(MatchRgb(s).value) == Captures(SerializedCall(c))
  {
    BareRgbText(DecimalText(c.red), DecimalText(c.green), DecimalText(c.blue));
    MatchRgbComplete(SerializedCall(c));
    "rgb(" + DecimalText(c.red) + "," + DecimalText(c.green) + "," + DecimalText(c.blue) + ")"
  }

  /** `unserializeColor`: match RGB_PATTERN, parse the three groups in order
      (the first failure is the one thrown), and build an opaque colour. */
  function UnserializeColor(s: string): (r: Result<Color>)
    ensures r.Ok? ==> MatchRgb(s).Some? && r.value.alpha == 255
    ensures MatchRgb(s).None? <==> r == Err(NoMatch(s, RgbNotation))
  {
    match MatchRgb(s)
    case None => Err(NoMatch(s, RgbNotation))
    case Some(call) =>
      var red :- ParseColor(call.fields[0].text);
      var green :- ParseColor(call.fields[1].text);
      var blue :- ParseColor(call.fields[2].text);
      Ok(Opaque(red, green, blue))
  }

  /** The call `serializeColor` writes: name `rgb`, the three unpadded
      decimals, no whitespace. */
  function SerializedCall(c: Color): (call: Call)
    ensures IsRgbCall(call)
    ensures Captures(call) == [DecimalText(c.red), DecimalText(c.green), DecimalText(c.blue)]
  {
    var call := Call("rgb", [Bare(DecimalText(c.red)), Bare(DecimalText(c.green)), Bare(DecimalText(c.blue))]);
    DecimalChannelField(c.red);
    DecimalChannelField(c.green);
    DecimalChannelField(c.blue);
    KeywordsMatch();
    RgbCallOf("rgb", call.fields[0], call.fields[1], call.fields[2]);
    CapturesThree("rgb", call.fields[0], call.fields[1], call.fields[2]);
    call
  }

  /** The text `rgb(a,b,c)` of three unpadded groups is the rendering of
      their bare call. */
  lemma BareRgbText(a: string, b: string, c: string)
    ensures Render(Call("rgb", [Bare(a), Bare(b), Bare(c)])) == "rgb(" + a + "," + b + "," + c + ")"
  {
    RenderThree("rgb", Bare(a), Bare(b), Bare(c));
    assert "rgb" + "(" == "rgb(";
  }

  /** `serializeColor` writes `rgb(r,g,b)`: a well-formed rgb call with the
      channels as unpadded decimals, no spaces and no alpha. */
  lemma SerializeIsRgbCall(c: Color)
    ensures SerializeColor(c) == SerializeColor(WithoutAlpha(c))
  {
  }

  /** Every successful decode comes from a well-formed rgb call whose three
      groups are non-empty decimals of at most 255, read as the channels. */
  lemma UnserializeSound(s: string)
    requires UnserializeColor(s).Ok?
    ensures var call := MatchRgb(s).value;
            IsRgbCall(call) && Render(call) == s &&
            ChannelGroup(call.fields[0].text) && ChannelGroup(call.fields[1].text) && ChannelGroup(call.fields[2].text) &&
            UnserializeColor(s).value ==
              Opaque(DecimalValue(call.fields[0].text), DecimalValue(call.fields[1].text), DecimalValue(call.fields[2].text))
  {
    var call := MatchRgb(s).value;
    var t0, t1, t2 := call.fields[0].text, call.fields[1].text, call.fields[2].text;
    assert ParseColor(t0).Ok? && ParseColor(t1).Ok? && ParseColor(t2).Ok?;
    ParseChannelGroup(t0);
    ParseChannelGroup(t1);
    ParseChannelGroup(t2);
    assert UnserializeColor(s).value == Opaque(ParseColor(t0).value, ParseColor(t1).value, ParseColor(t2).value);
  }

  /** Every well-formed rgb call decodes: to the channels its groups denote
      when all three are non-empty and at most 255, and otherwise to the
      error of the first bad group. */
  lemma UnserializeComplete(call: Call)
    requires IsRgbCall(call)
    ensures var r := UnserializeColor(Render(call));
            r == (var red :- ParseColor(call.fields[0].text);
                  var green :- ParseColor(call.fields[1].text);
                  var blue :- ParseColor(call.fields[2].text);
                  Ok(Opaque(red, green, blue)))
  {
    MatchRgbComplete(call);
    var m := MatchRgb(Render(call)).value;
    assert m.fields[0].text == Captures(m)[0] == Captures(call)[0] == call.fields[0].text;
    assert m.fields[1].text == Captures(m)[1] == Captures(call)[1] == call.fields[1].text;
    assert m.fields[2].text == Captures(m)[2] == Captures(call)[2] == call.fields[2].text;
  }

  /** A well-formed rgb call whose groups parseColor accepts decodes to the
      opaque colour of their values. */
  lemma CallDecodes(call: Call)
    requires IsRgbCall(call)
    requires ChannelGroup(call.fields[0].text) && ChannelGroup(call.fields[1].text) && ChannelGroup(call.fields[2].text)
    ensures UnserializeColor(Render(call)) ==
              Ok(Opaque(DecimalValue(call.fields[0].text), DecimalValue(call.fields[1].text), DecimalValue(call.fields[2].text)))
  {
    ParseChannelGroup(call.fields[0].text);
    ParseChannelGroup(call.fields[1].text);
    ParseChannelGroup(call.fields[2].text);
    UnserializeComplete(call);
  }

  /** `unserializeColor(serializeColor(c))` is `c` with alpha 255. */
  lemma UnserializeSerialize(c: Color)
    ensures UnserializeColor(SerializeColor(c)) == Ok(WithoutAlpha(c))
  {
    var call := SerializedCall(c);
    SerializeIsRgbCall(c);
    DecimalChannelGroup(c.red);
    DecimalChannelGroup(c.green);
    DecimalChannelGroup(c.blue);
    assert call.fields[0].text == DecimalText(c.red);
    assert call.fields[1].text == DecimalText(c.green);
    assert call.fields[2].text == DecimalText(c.blue);
    CallDecodes(call);
  }

  /** A channel written by `%d` is a group parseColor reads back. */
  lemma DecimalChannelGroup(n: Channel)
    ensures ChannelGroup(DecimalText(n)) && DecimalValue(DecimalText(n)) == n
  {
  }

  /** An empty group passes RGB_PATTERN but not parseColor. */
  lemma EmptyChannelRejected(green: Channel, blue: Channel)
    ensures MatchRgb("rgb(" + "" + "," + DecimalText(green) + "," + DecimalText(blue) + ")").Some?
    ensures UnserializeColor("rgb(" + "" + "," + DecimalText(green) + "," + DecimalText(blue) + ")") == Err(NotAnInteger(""))
  {
    var call := Call("rgb", [Bare(""), Bare(DecimalText(green)), Bare(DecimalText(blue))]);
    BareRgbText("", DecimalText(green), DecimalText(blue));
    assert IsChannelField(Bare(""));
    DecimalChannelField(green);
    DecimalChannelField(blue);
    KeywordsMatch();
    RgbCallOf("rgb", call.fields[0], call.fields[1], call.fields[2]);
    MatchRgbComplete(call);
    UnserializeComplete(call);
  }

  /** A first group above 255 is rejected with its value. */
  lemma ChannelAbove255Rejected(red: nat, green: Channel, blue: Channel)
    requires 255 < red < 1000
    ensures UnserializeColor("rgb(" + DecimalText(red) + "," + DecimalText(green) + "," + DecimalText(blue) + ")")
              == Err(IllegalColor(red))
  {
    var call := Call("rgb", [Bare(DecimalText(red)), Bare(DecimalText(green)), Bare(DecimalText(blue))]);
    BareRgbText(DecimalText(red), DecimalText(green), DecimalText(blue));
    DecimalChannelField(red);
    DecimalChannelField(green);
    DecimalChannelField(blue);
    KeywordsMatch();
    RgbCallOf("rgb", call.fields[0], call.fields[1], call.fields[2]);
    ParseChannelGroup(DecimalText(red));
    UnserializeComplete(call);
  }

  /** The groups `007`, `0` and `255` are read as 7, 0 and 255. */
  lemma SampleGroups()
    ensures ChannelGroup("007") && DecimalValue("007") == 7
    ensures ChannelGroup("0") && DecimalValue("0") == 0
    ensures ChannelGroup("255") && DecimalValue("255") == 255
  {
    assert "007"[..2] == "00" && "00"[..1] == "0" && "0"[..0] == [];
    assert "255"[..2] == "25" && "25"[..1] == "2" && "2"[..0] == [];
  }

  /** Leading zeros, whitespace around groups and an upper-case name are
      accepted. */
  lemma LeadingZerosAccepted()
    ensures UnserializeColor("RGB( 007 ,0, 255)") == Ok(Opaque(7, 0, 255))
  {
    var a, b, c := Field(" ", "007", " "), Bare("0"), Field(" ", "255", "");
    var call := Call("RGB", [a, b, c]);
    assert Render(call) == "RGB( 007 ,0, 255)" by {
      RenderThree("RGB", a, b, c);
    }
    assert NameMatches("RGB", "rgb") by {
      assert LowerAscii('R') == 'r' && LowerAscii('G') == 'g' && LowerAscii('B') == 'b';
    }
    SampleGroups();
    RgbCallOf("RGB", a, b, c);
    CallDecodes(call);
  }
}
