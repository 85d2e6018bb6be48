/** The CSS functional notations the rgb and rgba converters accept,
    `RGB_PATTERN` and `RGBA_PATTERN`:
      rgb\(\s*(\d{0,3})\s*,\s*(\d{0,3})\s*,\s*(\d{0,3})\s*\)
      rgba\(\s*(\d{0,3})\s*,\s*(\d{0,3})\s*,\s*(\d{0,3})\s*,\s*([01](\.\d+)?)\s*\)
    matched against the whole input, case-insensitively (ASCII only).
    A text is read as a Call: a name, '(', comma-separated fields, ')'. */
module CssFunctionSyntax {
  import opened Conversion
  import opened Lexical

  /** One argument: optional whitespace, the captured group, optional
      whitespace. */
  datatype Field = Field(lead: string, text: string, trail: string)

  /** A functional notation `name(field,field,...)`. */
  datatype Call = Call(name: string, fields: seq<Field>)

  function FieldString(f: Field): string
  {
    f.lead + f.text + f.trail
  }

  function FieldStrings(fields: seq<Field>): (parts: seq<string>)
    ensures |parts| == |fields|
    ensures forall i | 0 <= i < |fields| :: parts[i] == FieldString(fields[i])
  {
    seq(|fields|, i requires 0 <= i < |fields| => FieldString(fields[i]))
  }

  /** The text a Call stands for. */
  function Render(c: Call): string
  {
    c.name + "(" + Join(FieldStrings(c.fields), ',') + ")"
  }

  /** The captured groups of a Call, in order. */
  function Captures(c: Call): (groups: seq<string>)
    ensures |groups| == |c.fields|
    ensures forall i | 0 <= i < |c.fields| :: groups[i] == c.fields[i].text
  {
    seq(|c.fields|, i requires 0 <= i < |c.fields| => c.fields[i].text)
  }

  /** A group with no whitespace around it. */
  function Bare(text: string): (f: Field)
    ensures FieldString(f) == text && Padded(f)
  {
    assert [] + text + [] == text;
    Field([], text, [])
  }

  predicate Padded(f: Field) {
    AllSpaces(f.lead) && AllSpaces(f.trail)
  }

  /** `\s*(\d{0,3})\s*` */
  predicate IsChannelField(f: Field) {
    Padded(f) && AllDigits(f.text) && |f.text| <= 3
  }

  /** `[01](\.\d+)?` */
  predicate IsAlphaToken(t: string) {
    |t| >= 1 && (t[0] == '0' || t[0] == '1') &&
    (|t| == 1 || (|t| >= 3 && t[1] == '.' && AllDigits(t[2..])))
  }

  /** `\s*([01](\.\d+)?)\s*` */
  predicate IsAlphaField(f: Field) {
    Padded(f) && IsAlphaToken(f.text)
  }

  /** `name` spelled in any mix of ASCII case; `keyword` is lower case. */
  predicate NameMatches(name: string, keyword: string) {
    |name| == |keyword| && forall i | 0 <= i < |name| :: LowerAscii(name[i]) == keyword[i]
  }

  /** The lower-case keywords match themselves. */
  lemma KeywordsMatch()
    ensures NameMatches("rgb", "rgb") && NameMatches("rgba", "rgba")
  {
    assert LowerAscii('r') == 'r' && LowerAscii('g') == 'g' && LowerAscii('b') == 'b' && LowerAscii('a') == 'a';
  }

  /** The calls RGB_PATTERN describes. */
  predicate IsRgbCall(c: Call) {
    NameMatches(c.name, "rgb") && |c.fields| == 3 &&
    forall i | 0 <= i < 3 :: IsChannelField(c.fields[i])
  }

  /** The calls RGBA_PATTERN describes. */
  predicate IsRgbaCall(c: Call) {
    NameMatches(c.name, "rgba") && |c.fields| == 4 &&
    (forall i | 0 <= i < 3 :: IsChannelField(c.fields[i])) && IsAlphaField(c.fields[3])
  }

  /** A group text whose ends are not whitespace (or that is empty): the
      greedy `\s*` on either side cannot take any of it. */
  predicate Trimmed(t: string) {
    t == [] || (!IsSpace(t[0]) && !IsSpace(t[|t| - 1]))
  }

  /** Reads one argument as leading whitespace, group and trailing whitespace. */
  function SplitField(p: string): (f: Field)
    ensures FieldString(f) == p && Padded(f) && Trimmed(f.text)
  {
    var k := LeadingSpaces(p);
    if k == |p| then
      assert p[..k] == p;
      Field(p, [], [])
    else
      var e := |p| - TrailingSpaces(p);
      SplitPoints(p, k, e);
      Field(p[..k], p[k..e], p[e..])
  }

  /** Cutting a text where its leading spaces end and its trailing spaces
      begin leaves a trimmed, non-empty middle. */
  lemma SplitPoints(p: string, k: nat, e: nat)
    requires k < |p| && !IsSpace(p[k])
    requires e <= |p| && AllSpaces(p[e..])
    requires e > 0 ==> !IsSpace(p[e - 1])
    ensures k < e
    ensures p[..k] + p[k..e] + p[e..] == p
    ensures Trimmed(p[k..e])
  {
    if e <= k {
      assert false;
    }
    assert p[..k] + p[k..e] == p[..e];
  }

  /** Reads a text as `name(args)` with a name of the given length, splitting
      the arguments at commas; None if the delimiters are not there. */
  function ReadCall(s: string, nameLength: nat): (r: Option<Call>)
    ensures r.Some? ==> |r.value.name| == nameLength
    ensures r.Some? ==> forall i | 0 <= i < |r.value.fields| :: Padded(r.value.fields[i])
  {
    if |s| >= nameLength + 2 && s[nameLength] == '(' && s[|s| - 1] == ')' then
      var args := Split(s[nameLength + 1..|s| - 1], ',');
      Some(Call(s[..nameLength], seq(|args|, i requires 0 <= i < |args| => SplitField(args[i]))))
    else
      None
  }

  /** The recogniser for RGB_PATTERN; on a match it gives the groups. */
  function MatchRgb(s: string): (m: Option<Call>)
    ensures m.Some? ==> IsRgbCall(m.value) && Render(m.value) == s
  {
    var c := ReadCall(s, 3);
    if c.Some? && IsRgbCall(c.value) then
      ReadCallSound(s, 3);
      c
    else None
  }

  /** The recogniser for RGBA_PATTERN; on a match it gives the groups. */
  function MatchRgba(s: string): (m: Option<Call>)
    ensures m.Some? ==> IsRgbaCall(m.value) && Render(m.value) == s
  {
    var c := ReadCall(s, 4);
    if c.Some? && IsRgbaCall(c.value) then
      ReadCallSound(s, 4);
      c
    else None
  }

  /** A three-argument call is an rgb call when its name and fields are. */
  lemma RgbCallOf(name: string, a: Field, b: Field, c: Field)
    requires NameMatches(name, "rgb")
    requires IsChannelField(a) && IsChannelField(b) && IsChannelField(c)
    ensures IsRgbCall(Call(name, [a, b, c]))
  {
    var fields := [a, b, c];
    assert forall i | 0 <= i < 3 :: fields[i] in {a, b, c};
  }

  /** The groups of a three-argument call. */
  lemma CapturesThree(name: string, a: Field, b: Field, c: Field)
    ensures Captures(Call(name, [a, b, c])) == [a.text, b.text, c.text]
  {
  }

  /** A decimal of at most three digits, unpadded, is a channel field. */
  lemma DecimalChannelField(n: nat)
    requires n < 1000
    ensures IsChannelField(Bare(DecimalText(n)))
  {
  }

  /** A four-argument call is an rgba call when its name and fields are. */
  lemma RgbaCallOf(name: string, a: Field, b: Field, c: Field, d: Field)
    requires NameMatches(name, "rgba")
    requires IsChannelField(a) && IsChannelField(b) && IsChannelField(c) && IsAlphaField(d)
    ensures IsRgbaCall(Call(name, [a, b, c, d]))
  {
    var fields := [a, b, c, d];
    assert forall i | 0 <= i < 3 :: fields[i] in {a, b, c};
  }

  /** The text of a three-argument call, spelled out. */
  lemma RenderThree(name: string, a: Field, b: Field, c: Field)
    ensures Render(Call(name, [a, b, c])) ==
              name + "(" + FieldString(a) + "," + FieldString(b) + "," + FieldString(c) + ")"
  {
    var parts := FieldStrings([a, b, c]);
    assert parts == [FieldString(a), FieldString(b), FieldString(c)];
    assert parts[1..][1..] == [parts[2]];
    assert Join(parts[1..], ',') == parts[1] + [','] + parts[2];
    assert Join(parts, ',') == parts[0] + [','] + (parts[1] + [','] + parts[2]);
  }

  /** The text of a four-argument call, spelled out. */
  lemma RenderFour(name: string, a: Field, b: Field, c: Field, d: Field)
    ensures Render(Call(name, [a, b, c, d])) ==
              name + "(" + FieldString(a) + "," + FieldString(b) + "," + FieldString(c) + "," + FieldString(d) + ")"
  {
    var parts := FieldStrings([a, b, c, d]);
    assert parts == [FieldString(a), FieldString(b), FieldString(c), FieldString(d)];
    assert parts[1..][1..][1..] == [parts[3]];
    assert Join(parts[1..][1..], ',') == parts[2] + [','] + parts[3];
    assert Join(parts[1..], ',') == parts[1] + [','] + (parts[2] + [','] + parts[3]);
    assert Join(parts, ',') == parts[0] + [','] + (parts[1] + [','] + (parts[2] + [','] + parts[3]));
  }

  /** A text with '(' after its first n characters and ')' at its end. */
  lemma Bracketed(s: string, n: nat)
    requires |s| >= n + 2 && s[n] == '(' && s[|s| - 1] == ')'
    ensures s == s[..n] + "(" + s[n + 1..|s| - 1] + ")"
  {
    assert s[n + 1..] == s[n + 1..|s| - 1] + [s[|s| - 1]];
    assert s[n..] == [s[n]] + s[n + 1..];
    assert s == s[..n] + s[n..];
  }

  /** Whatever ReadCall reads renders back to the text it was read from. */
  lemma ReadCallSound(s: string, nameLength: nat)
    requires ReadCall(s, nameLength).Some?
    ensures Render(ReadCall(s, nameLength).value) == s
  {
    var inner := s[nameLength + 1..|s| - 1];
    var args := Split(inner, ',');
    var c := ReadCall(s, nameLength).value;
    assert FieldStrings(c.fields) == args;
    assert Join(FieldStrings(c.fields), ',') == inner;
    Bracketed(s, nameLength);
  }

  /** A padded field around a trimmed group is read back with that group. */
  lemma SplitFieldOfFieldString(f: Field)
    requires Padded(f) && Trimmed(f.text)
    ensures SplitField(FieldString(f)).text == f.text
  {
    var p := FieldString(f);
    if f.text == [] {
      assert p == f.lead + f.trail;
      assert AllSpaces(p);
      LeadingSpacesOf(p, []);
      assert p + [] == p;
    } else {
      assert p == f.lead + (f.text + f.trail);
      LeadingSpacesOf(f.lead, f.text + f.trail);
      assert p == (f.lead + f.text) + f.trail;
      TrailingSpacesOf(f.lead + f.text, f.trail);
      assert p[|f.lead|..|p| - |f.trail|] == f.text;
    }
  }

  /** Rendering a call whose fields hold no comma and whose groups are
      trimmed, then reading it back, gives the same name and groups. */
  lemma ReadCallComplete(c: Call)
    requires |c.fields| >= 1
    requires forall i | 0 <= i < |c.fields| :: Padded(c.fields[i]) && Trimmed(c.fields[i].text)
    requires forall i | 0 <= i < |c.fields| :: ',' !in FieldString(c.fields[i])
    ensures ReadCall(Render(c), |c.name|).Some?
    ensures ReadCall(Render(c), |c.name|).value.name == c.name
    ensures Captures(ReadCall(Render(c), |c.name|).value) == Captures(c)
  {
    var s := Render(c);
    var n := |c.name|;
    var parts := FieldStrings(c.fields);
    assert s[n] == '(';
    assert s[n + 1..|s| - 1] == Join(parts, ',');
    assert s[..n] == c.name;
    SplitJoin(parts, ',');
    var r := ReadCall(s, n).value;
    forall i | 0 <= i < |c.fields|
      ensures r.fields[i].text == c.fields[i].text
    {
      SplitFieldOfFieldString(c.fields[i]);
    }
  }

  lemma DigitsHaveNoComma(t: string)
    requires AllDigits(t)
    ensures ',' !in t && Trimmed(t)
  {
    assert forall i | 0 <= i < |t| :: t[i] != ',';
  }

  lemma SpacesHaveNoComma(t: string)
    requires AllSpaces(t)
    ensures ',' !in t
  {
    assert forall i | 0 <= i < |t| :: t[i] != ',';
  }

  lemma AlphaTokenHasNoComma(t: string)
    requires IsAlphaToken(t)
    ensures ',' !in t && Trimmed(t)
  {
    forall i | 0 <= i < |t|
      ensures t[i] != ','
    {
      if i >= 2 {
        assert t[2..][i - 2] == t[i];
      }
    }
    if |t| > 1 {
      assert t[2..][|t| - 3] == t[|t| - 1];
    }
  }

  lemma PaddedFieldHasNoComma(f: Field)
    requires Padded(f) && ',' !in f.text
    ensures ',' !in FieldString(f)
  {
    SpacesHaveNoComma(f.lead);
    SpacesHaveNoComma(f.trail);
  }

  /** A call read back from a rendering: same name, and padded fields with
      the same groups. */
  predicate SameGroups(r: Call, c: Call) {
    r.name == c.name && |r.fields| == |c.fields| &&
    forall i | 0 <= i < |c.fields| :: Padded(r.fields[i]) && r.fields[i].text == c.fields[i].text
  }

  /** A field that reads back as itself: padded, trimmed and comma-free. */
  predicate Readable(f: Field) {
    Padded(f) && Trimmed(f.text) && ',' !in FieldString(f)
  }

  /** Reading back a call of readable fields gives the same groups. */
  lemma ReadBack(c: Call)
    requires |c.fields| >= 1
    requires forall i | 0 <= i < |c.fields| :: Readable(c.fields[i])
    ensures ReadCall(Render(c), |c.name|).Some?
    ensures SameGroups(ReadCall(Render(c), |c.name|).value, c)
  {
    ReadCallComplete(c);
    var r := ReadCall(Render(c), |c.name|).value;
    assert |r.fields| == |Captures(r)| == |Captures(c)| == |c.fields|;
    forall i | 0 <= i < |c.fields|
      ensures r.fields[i].text == c.fields[i].text
    {
      assert r.fields[i].text == Captures(r)[i];
    }
  }

  /** Reading back a four-argument call of readable fields gives their
      groups. */
  lemma ReadBackFour(name: string, a: Field, b: Field, c: Field, d: Field)
    requires Readable(a) && Readable(b) && Readable(c) && Readable(d)
    ensures ReadCall(Render(Call(name, [a, b, c, d])), |name|).Some?
    ensures SameGroups(ReadCall(Render(Call(name, [a, b, c, d])), |name|).value, Call(name, [a, b, c, d]))
  {
    var fields := [a, b, c, d];
    assert forall i | 0 <= i < 4 :: fields[i] in {a, b, c, d};
    ReadBack(Call(name, fields));
  }

  lemma ChannelFieldReadable(f: Field)
    requires IsChannelField(f)
    ensures Readable(f)
  {
    DigitsHaveNoComma(f.text);
    PaddedFieldHasNoComma(f);
  }

  lemma AlphaFieldReadable(f: Field)
    requires IsAlphaField(f)
    ensures Readable(f)
  {
    AlphaTokenHasNoComma(f.text);
    PaddedFieldHasNoComma(f);
  }

  /** A call read back with the groups of an rgb call is an rgb call with
      those groups. */
  lemma RgbShapeKept(r: Call, c: Call)
    requires IsRgbCall(c) && SameGroups(r, c)
    ensures IsRgbCall(r) && Captures(r) == Captures(c)
  {
    assert forall i | 0 <= i < 3 :: r.fields[i].text == c.fields[i].text && Padded(r.fields[i]);
  }

  /** A call read back with the groups of an rgba call is an rgba call with
      those groups. */
  lemma RgbaShapeKept(r: Call, c: Call)
    requires IsRgbaCall(c) && SameGroups(r, c)
    ensures IsRgbaCall(r) && Captures(r) == Captures(c)
  {
    assert forall i | 0 <= i < 4 :: r.fields[i].text == c.fields[i].text && Padded(r.fields[i]);
  }

  /** RGB_PATTERN matches every text of its form, and captures its groups. */
  lemma MatchRgbComplete(c: Call)
    requires IsRgbCall(c)
    ensures MatchRgb(Render(c)).Some?
    ensures Captures(MatchRgb(Render(c)).value) == Captures(c)
  {
    ChannelFieldReadable(c.fields[0]);
    ChannelFieldReadable(c.fields[1]);
    ChannelFieldReadable(c.fields[2]);
    ReadBack(c);
    RgbShapeKept(ReadCall(Render(c), 3).value, c);
  }

  /** RGBA_PATTERN matches every text of its form, and captures its groups. */
  lemma MatchRgbaComplete(c: Call)
    requires IsRgbaCall(c)
    ensures MatchRgba(Render(c)).Some?
    ensures Captures(MatchRgba(Render(c)).value) == Captures(c)
  {
    ChannelFieldReadable(c.fields[0]);
    ChannelFieldReadable(c.fields[1]);
    ChannelFieldReadable(c.fields[2]);
    AlphaFieldReadable(c.fields[3]);
    ReadBack(c);
    RgbaShapeKept(ReadCall(Render(c), 4).value, c);
  }
}
