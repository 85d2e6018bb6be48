# Vaadin ColorPickerField: colour converters and field state, in Dafny

This project models the logic of the Vaadin ColorPickerField add-on that can
be separated from the framework. The core is the **CSS colour codec** of the
`converter` package. It writes a colour (red, green, blue and alpha, each
0..255) as text, and reads the text back, in three notations:

- hex: `#rgb` or `#rrggbb`, with the `#` optional;
- `rgb(r,g,b)`;
- `rgba(r,g,b,a)`.

The second, smaller part is the state that `AbstractColorPickerField` keeps
for itself: its value, the colour that stands for null, the default colour,
the popup caption and the popup position.

Modules, one per source class plus shared ones:

- `VaadinColor`: the framework's `Color` value. `new Color(int rgb)`,
  `new Color(r, g, b)` and `getCSS()` are taken as given and written out.
- `Conversion`: nullable values (`Option`), the `ConversionException` causes
  and `Result`, and the null pass-through that every converter shares.
- `Lexical`: the character classes `\d`, `\s` and hex digits, decimal and hex
  values, `Integer.valueOf`, `%d` formatting, and split/join at a separator.
- `CssFunctionSyntax`: hand-written recognisers for `RGB_PATTERN` and
  `RGBA_PATTERN`. They are proved sound: a match renders back to the input
  and has the pattern's shape. They are proved complete: every text of the
  pattern's shape matches, with the same captured groups.
- `AbstractHexColorConverter`, `AbstractRgbColorConverter`,
  `RgbToColorConverter`, `AbstractRgbaColorConverter`,
  `AbstractStringToColorConverter`, `HexToColorConverter` and
  `ColorToRgbaConverter`: one module per converter class.
- `ColorPickerField`: the class `AbstractColorPickerField`, with the fields
  the source updates in place.

A `ConversionException` is an `Err` result that carries the kind of message
the source builds. A Java `null` is `None`. A `double` is an exact `real`.
The text `Double.toString` gives for a fractional alpha is a function
parameter, `fraction`.

The rgb codec exists twice in the source: in `AbstractRgbColorConverter` and
in `RgbToColorConverter`. Both are modelled as written, and they are proved
to agree on every input, failures included.

Three behaviours of the code are worth stating plainly:

- the `#` of a hex colour is optional;
- an rgba alpha token is `[01](\.\d+)?`, so `1.` and `.5` fail the pattern;
- an empty channel group passes `RGB_PATTERN` and fails in `parseColor`.

## Model

| member | source | states |
|---|---|---|
| `VaadinColor.FromRgb` | vaadin-colorpickerfield/src/main/java/eu/maxschuster/vaadin/colorpickerfield/converter/AbstractHexColorConverter.java:64 | `new Color(int)`: alpha is 255; for a 24-bit value, red, green and blue are its three bytes, high byte first |
| `VaadinColor.GetCss` | vaadin-colorpickerfield/src/main/java/eu/maxschuster/vaadin/colorpickerfield/converter/AbstractHexColorConverter.java:44-46 | `getCSS()` is seven characters: `#` and six lower-case hex digits |
| `Conversion.NullSafe` | vaadin-colorpickerfield/src/main/java/eu/maxschuster/vaadin/colorpickerfield/converter/AbstractStringToColorConverter.java:39-55 | null gives null; any other value gives the converted value, and a failure propagates with its cause unchanged |
| `Lexical.ParseJavaInt` | vaadin-colorpickerfield/src/main/java/eu/maxschuster/vaadin/colorpickerfield/converter/AbstractRgbColorConverter.java:67-73 | `Integer.valueOf`: an empty text fails; a digit text gives its decimal value when that fits an int; any result is an int |
| `Lexical.DecimalText` | vaadin-colorpickerfield/src/main/java/eu/maxschuster/vaadin/colorpickerfield/converter/AbstractRgbColorConverter.java:46-47 | `%d` of a non-negative number: digits only, reading back as the number, with no leading zero, and at most three digits below 1000 |
| `CssFunctionSyntax.MatchRgb` | vaadin-colorpickerfield/src/main/java/eu/maxschuster/vaadin/colorpickerfield/converter/AbstractRgbColorConverter.java:36-38 | the `RGB_PATTERN` recogniser: a match has the shape `rgb(` plus three padded groups of 0..3 digits plus `)`, with the name in any case, and renders back to the input |
| `CssFunctionSyntax.MatchRgbComplete` | vaadin-colorpickerfield/src/main/java/eu/maxschuster/vaadin/colorpickerfield/converter/AbstractRgbColorConverter.java:36-38 | every text of the `RGB_PATTERN` shape is matched, and its groups are captured |
| `CssFunctionSyntax.MatchRgba` | vaadin-colorpickerfield/src/main/java/eu/maxschuster/vaadin/colorpickerfield/converter/AbstractRgbaColorConverter.java:36-38 | the `RGBA_PATTERN` recogniser: a match has the shape `rgba(` plus three channel groups plus an alpha token `[01](\.\d+)?` plus `)`, and renders back to the input |
| `CssFunctionSyntax.MatchRgbaComplete` | vaadin-colorpickerfield/src/main/java/eu/maxschuster/vaadin/colorpickerfield/converter/AbstractRgbaColorConverter.java:36-38 | every text of the `RGBA_PATTERN` shape is matched, and its four groups are captured |
| `AbstractHexColorConverter.MatchHexPattern` | vaadin-colorpickerfield/src/main/java/eu/maxschuster/vaadin/colorpickerfield/converter/AbstractHexColorConverter.java:40-41 | `HEX_PATTERN` matches exactly an optional `#` followed by 3 or 6 hex digits of either case, and captures the digits |
| `AbstractHexColorConverter.Decode` | vaadin-colorpickerfield/src/main/java/eu/maxschuster/vaadin/colorpickerfield/converter/AbstractHexColorConverter.java:49-65 | decoding succeeds exactly when the pattern matches, fails with the "could not convert" cause otherwise, and always gives alpha 255 |
| `AbstractHexColorConverter.ExpandShorthand` | vaadin-colorpickerfield/src/main/java/eu/maxschuster/vaadin/colorpickerfield/converter/AbstractHexColorConverter.java:56-63 | the StringBuilder loop gives a text twice as long, in which position `i` holds input character `i / 2` |
| `AbstractHexColorConverter.UnserializeColor` | vaadin-colorpickerfield/src/main/java/eu/maxschuster/vaadin/colorpickerfield/converter/AbstractHexColorConverter.java:49-65 | the step-by-step `unserializeColor` (match, expand by the loop, parse base 16) gives exactly the result of `Decode` |
| `AbstractHexColorConverter.SerializeColor` | vaadin-colorpickerfield/src/main/java/eu/maxschuster/vaadin/colorpickerfield/converter/AbstractHexColorConverter.java:43-46 | `#` plus six lower-case hex digits, the same text for a colour whatever its alpha |
| `AbstractHexColorConverter.DecodedChannels` | vaadin-colorpickerfield/src/main/java/eu/maxschuster/vaadin/colorpickerfield/converter/AbstractHexColorConverter.java:64 | a decoded colour's red, green and blue are the first, second and third pairs of the six digits; alpha is 255 |
| `AbstractHexColorConverter.ShorthandIsDoubled` | vaadin-colorpickerfield/src/main/java/eu/maxschuster/vaadin/colorpickerfield/converter/AbstractHexColorConverter.java:56-63 | three digits decode as the six digits with each one doubled (`#abc` as `#aabbcc`), with or without `#`; each channel is 17 times its digit |
| `AbstractHexColorConverter.HashIsOptional` | vaadin-colorpickerfield/src/main/java/eu/maxschuster/vaadin/colorpickerfield/converter/AbstractHexColorConverter.java:40-41 | a text and the same text with `#` in front decode alike |
| `AbstractHexColorConverter.CaseIsIgnored` | vaadin-colorpickerfield/src/main/java/eu/maxschuster/vaadin/colorpickerfield/converter/AbstractHexColorConverter.java:40-41 | lower-casing a text changes neither whether it decodes nor the colour it gives |
| `AbstractHexColorConverter.UnserializeSerialize` | vaadin-colorpickerfield/src/main/java/eu/maxschuster/vaadin/colorpickerfield/converter/AbstractHexColorConverter.java:43-65 | the pattern accepts every serialized text, and decoding it gives the colour back with alpha 255 |
| `AbstractRgbColorConverter.ParseColor` | vaadin-colorpickerfield/src/main/java/eu/maxschuster/vaadin/colorpickerfield/converter/AbstractRgbColorConverter.java:63-78 | `parseColor` succeeds exactly when `Integer.valueOf` reads a value in 0..255, and then returns that value; it fails as "not an integer" or "illegal value" |
| `AbstractRgbColorConverter.ParseChannelGroup` | vaadin-colorpickerfield/src/main/java/eu/maxschuster/vaadin/colorpickerfield/converter/AbstractRgbColorConverter.java:63-78 | on a captured group, `parseColor` accepts exactly 1..3 digits of value at most 255, and gives their decimal value with leading zeros allowed; an empty group is "not an integer", and a value above 255 is "illegal value" |
| `AbstractRgbColorConverter.SerializeColor` | vaadin-colorpickerfield/src/main/java/eu/maxschuster/vaadin/colorpickerfield/converter/AbstractRgbColorConverter.java:44-48 | `serializeColor` writes the `rgb` call of the three unpadded decimals, with no spaces, and `RGB_PATTERN` matches that text with the three decimals as its groups |
| `AbstractRgbColorConverter.SerializeIsRgbCall` | vaadin-colorpickerfield/src/main/java/eu/maxschuster/vaadin/colorpickerfield/converter/AbstractRgbColorConverter.java:44-48 | `serializeColor` writes the same text for a colour whatever its alpha |
| `AbstractRgbColorConverter.UnserializeColor` | vaadin-colorpickerfield/src/main/java/eu/maxschuster/vaadin/colorpickerfield/converter/AbstractRgbColorConverter.java:50-61 | the "could not convert" cause is given exactly when `RGB_PATTERN` does not match; a success has alpha 255 |
| `AbstractRgbColorConverter.UnserializeSound` | vaadin-colorpickerfield/src/main/java/eu/maxschuster/vaadin/colorpickerfield/converter/AbstractRgbColorConverter.java:50-61 | every decoded text is an rgb call whose three groups are valid channels, and the colour is their values with alpha 255 |
| `AbstractRgbColorConverter.UnserializeComplete` | vaadin-colorpickerfield/src/main/java/eu/maxschuster/vaadin/colorpickerfield/converter/AbstractRgbColorConverter.java:50-61 | every rgb call decodes to its three parsed groups, or fails with the cause of the first group that fails |
| `AbstractRgbColorConverter.UnserializeSerialize` | vaadin-colorpickerfield/src/main/java/eu/maxschuster/vaadin/colorpickerfield/converter/AbstractRgbColorConverter.java:44-61 | decoding a serialized colour gives the colour with alpha 255 |
| `AbstractRgbColorConverter.EmptyChannelRejected` | vaadin-colorpickerfield/src/main/java/eu/maxschuster/vaadin/colorpickerfield/converter/AbstractRgbColorConverter.java:63-73 | `rgb(,g,b)` passes the pattern but fails as "not an integer" |
| `AbstractRgbColorConverter.ChannelAbove255Rejected` | vaadin-colorpickerfield/src/main/java/eu/maxschuster/vaadin/colorpickerfield/converter/AbstractRgbColorConverter.java:74-76 | a first channel of 256..999 is rejected as an illegal value, with that value |
| `AbstractRgbColorConverter.LeadingZerosAccepted` | vaadin-colorpickerfield/src/main/java/eu/maxschuster/vaadin/colorpickerfield/converter/AbstractRgbColorConverter.java:50-61 | `RGB( 007 ,0, 255)` decodes to (7, 0, 255, 255): an upper-case name, spaces and leading zeros are all accepted |
| `RgbToColorConverter.ParseColor` | vaadin-colorpickerfield/src/main/java/eu/maxschuster/vaadin/colorpickerfield/converter/RgbToColorConverter.java:60-75 | the duplicate `parseColor` returns a channel that `Integer.valueOf` reads, and fails only as "not an integer" or "illegal value" |
| `RgbToColorConverter.Unserialize` | vaadin-colorpickerfield/src/main/java/eu/maxschuster/vaadin/colorpickerfield/converter/RgbToColorConverter.java:47-58 | the "could not convert" cause is given exactly when its `RGB_PATTERN` does not match; a success has alpha 255 |
| `RgbToColorConverter.ConvertToModel` | vaadin-colorpickerfield/src/main/java/eu/maxschuster/vaadin/colorpickerfield/converter/AbstractStringToColorConverter.java:39-46 | null gives null; a text gives `unserialize` of it, failures included |
| `RgbToColorConverter.ConvertToPresentation` | vaadin-colorpickerfield/src/main/java/eu/maxschuster/vaadin/colorpickerfield/converter/AbstractStringToColorConverter.java:48-55 | null gives null; a colour gives `serialize` of it |
| `RgbToColorConverter.ParseColorAgrees` | vaadin-colorpickerfield/src/main/java/eu/maxschuster/vaadin/colorpickerfield/converter/RgbToColorConverter.java:60-75 | the duplicate `parseColor` equals the abstract converter's on every text |
| `RgbToColorConverter.Serialize` | vaadin-colorpickerfield/src/main/java/eu/maxschuster/vaadin/colorpickerfield/converter/RgbToColorConverter.java:41-45 | `serialize` writes the `rgb` call of the three unpadded decimals, with no spaces, and its `RGB_PATTERN` matches that text with the three decimals as its groups |
| `RgbToColorConverter.SerializeAgrees` | vaadin-colorpickerfield/src/main/java/eu/maxschuster/vaadin/colorpickerfield/converter/RgbToColorConverter.java:41-45 | `serialize` equals the abstract converter's `serializeColor` on every colour |
| `RgbToColorConverter.UnserializeAgrees` | vaadin-colorpickerfield/src/main/java/eu/maxschuster/vaadin/colorpickerfield/converter/RgbToColorConverter.java:33-58 | `unserialize` equals the abstract converter's `unserializeColor` on every text, failures included |
| `RgbToColorConverter.HooksHonourContract` | vaadin-colorpickerfield/src/main/java/eu/maxschuster/vaadin/colorpickerfield/converter/AbstractStringToColorConverter.java:57-65 | this converter meets the documented obligation: `unserialize` accepts whatever `serialize` writes |
| `RgbToColorConverter.RoundTrip` | vaadin-colorpickerfield/src/main/java/eu/maxschuster/vaadin/colorpickerfield/converter/RgbToColorConverter.java:41-58 | presenting a colour and reading it back gives the colour with alpha 255; null stays null |
| `RgbToColorConverter.SampleTexts` | vaadin-colorpickerfield/src/test/java/eu/maxschuster/vaadin/colorpickerfield/converter/RgbToColorConverterTest.java:36-40 | the three sample colours are written `rgb(255,255,255)`, `rgb(15,224,0)` and `rgb(0,0,0)` |
| `RgbToColorConverter.WhiteConverges` | vaadin-colorpickerfield/src/test/java/eu/maxschuster/vaadin/colorpickerfield/converter/RgbToColorConverterTest.java:30-40 | (255,255,255) and `rgb(255,255,255)` convert into each other |
| `RgbToColorConverter.GreenConverges` | vaadin-colorpickerfield/src/test/java/eu/maxschuster/vaadin/colorpickerfield/converter/RgbToColorConverterTest.java:30-40 | (15,224,0) and `rgb(15,224,0)` convert into each other |
| `RgbToColorConverter.BlackConverges` | vaadin-colorpickerfield/src/test/java/eu/maxschuster/vaadin/colorpickerfield/converter/RgbToColorConverterTest.java:30-40 | (0,0,0) and `rgb(0,0,0)` convert into each other |
| `AbstractRgbaColorConverter.ParseDouble` | vaadin-colorpickerfield/src/main/java/eu/maxschuster/vaadin/colorpickerfield/converter/AbstractRgbaColorConverter.java:75-81 | `Double.valueOf` on an unsigned decimal literal never gives a negative value |
| `AbstractRgbaColorConverter.DoubleToInt` | vaadin-colorpickerfield/src/main/java/eu/maxschuster/vaadin/colorpickerfield/converter/AbstractRgbaColorConverter.java:92-94 | `Math.round(a * 255)` rounds half up to the nearest integer, which lies in 0..255 for `a` in [0, 1] |
| `AbstractRgbaColorConverter.IntToDouble` | vaadin-colorpickerfield/src/main/java/eu/maxschuster/vaadin/colorpickerfield/converter/AbstractRgbaColorConverter.java:88-90 | a channel divided by 255 lies in [0, 1], and multiplying it by 255 gives the channel back |
| `AbstractRgbaColorConverter.DoubleToIntOfIntToDouble` | vaadin-colorpickerfield/src/main/java/eu/maxschuster/vaadin/colorpickerfield/converter/AbstractRgbaColorConverter.java:88-94 | `doubleToInt(intToDouble(a))` is `a` for every channel |
| `AbstractRgbaColorConverter.ParseAlpha` | vaadin-colorpickerfield/src/main/java/eu/maxschuster/vaadin/colorpickerfield/converter/AbstractRgbaColorConverter.java:71-86 | a success reads a value of at most 1, and the channel lies within half a step of 255 times it; failures are "not a double" or "illegal value" |
| `AbstractRgbaColorConverter.ParseAlphaOfToken` | vaadin-colorpickerfield/src/main/java/eu/maxschuster/vaadin/colorpickerfield/converter/AbstractRgbaColorConverter.java:71-86 | on a token `[01](\.\d+)?`, `parseAlpha` gives the rounded channel when the token's value is at most 1, and "illegal value" otherwise |
| `AbstractRgbaColorConverter.TokenAtMostOne` | vaadin-colorpickerfield/src/main/java/eu/maxschuster/vaadin/colorpickerfield/converter/AbstractRgbaColorConverter.java:82-84 | a token is at most 1 exactly when it starts with 0, or it is `1`, or its fraction digits are all zero |
| `AbstractRgbaColorConverter.AlphaText` | vaadin-colorpickerfield/src/main/java/eu/maxschuster/vaadin/colorpickerfield/converter/AbstractRgbaColorConverter.java:46-52 | alpha 0 is written `0`, alpha 255 is written `1`, and every other alpha is written by the fractional formatter |
| `AbstractRgbaColorConverter.ParseGroups` | vaadin-colorpickerfield/src/main/java/eu/maxschuster/vaadin/colorpickerfield/converter/AbstractRgbaColorConverter.java:64-68 | parsing the captured groups never fails with a pattern mismatch |
| `AbstractRgbaColorConverter.UnserializeColor` | vaadin-colorpickerfield/src/main/java/eu/maxschuster/vaadin/colorpickerfield/converter/AbstractRgbaColorConverter.java:57-69 | the "could not convert" cause is given exactly when `RGBA_PATTERN` does not match |
| `AbstractRgbaColorConverter.UnserializeComplete` | vaadin-colorpickerfield/src/main/java/eu/maxschuster/vaadin/colorpickerfield/converter/AbstractRgbaColorConverter.java:57-69 | every rgba call decodes to its parsed channels and alpha, or to the cause of the first group that fails |
| `AbstractRgbaColorConverter.UnserializeSound` | vaadin-colorpickerfield/src/main/java/eu/maxschuster/vaadin/colorpickerfield/converter/AbstractRgbaColorConverter.java:57-69 | every decoded text is an rgba call: the channels are valid groups read as decimals, and alpha is the rounded value of a token of at most 1 |
| `AbstractRgbaColorConverter.AlphaTextReadsBack` | vaadin-colorpickerfield/src/main/java/eu/maxschuster/vaadin/colorpickerfield/converter/AbstractRgbaColorConverter.java:46-52 | the alpha text written for 0 or 255, or by a faithful fractional formatter, is an alpha token that `parseAlpha` reads back as the same alpha |
| `AbstractRgbaColorConverter.SerializeColor` | vaadin-colorpickerfield/src/main/java/eu/maxschuster/vaadin/colorpickerfield/converter/AbstractRgbaColorConverter.java:44-55 | `serializeColor` writes the `rgba` call of three unpadded decimals and the alpha text, with no spaces |
| `AbstractRgbaColorConverter.UnserializeSerialize` | vaadin-colorpickerfield/src/main/java/eu/maxschuster/vaadin/colorpickerfield/converter/AbstractRgbaColorConverter.java:44-69 | decoding a serialized colour gives the colour back when its alpha is 0 or 255, or when the fractional alpha text reads back to the same alpha |
| `AbstractRgbaColorConverter.SerializeWholeAlpha` | vaadin-colorpickerfield/src/main/java/eu/maxschuster/vaadin/colorpickerfield/converter/AbstractRgbaColorConverter.java:44-55 | (15,224,0,255) is written `rgba(15,224,0,1)` and (0,0,0,0) is written `rgba(0,0,0,0)` |
| `AbstractRgbaColorConverter.NonTokenAlphaRejected` | vaadin-colorpickerfield/src/main/java/eu/maxschuster/vaadin/colorpickerfield/converter/AbstractRgbaColorConverter.java:59-63 | an rgba text whose alpha is not a token `[01](\.\d+)?` fails the pattern |
| `AbstractRgbaColorConverter.BadAlphaTokenRejected` | vaadin-colorpickerfield/src/main/java/eu/maxschuster/vaadin/colorpickerfield/converter/AbstractRgbaColorConverter.java:36-38 | `rgba(r,g,b,2)` and `rgba(r,g,b,1.)` fail the pattern |
| `AbstractRgbaColorConverter.WholeAlphaExamples` | vaadin-colorpickerfield/src/main/java/eu/maxschuster/vaadin/colorpickerfield/converter/AbstractRgbaColorConverter.java:92-94 | alpha `0` gives 0 and `1` gives 255 |
| `AbstractRgbaColorConverter.HalfAlphaExample` | vaadin-colorpickerfield/src/main/java/eu/maxschuster/vaadin/colorpickerfield/converter/AbstractRgbaColorConverter.java:92-94 | alpha `0.5` rounds half up, to 128 |
| `AbstractRgbaColorConverter.AlphaAboveOneExample` | vaadin-colorpickerfield/src/main/java/eu/maxschuster/vaadin/colorpickerfield/converter/AbstractRgbaColorConverter.java:82-84 | alpha `1.5` is a token but is rejected as an illegal value |
| `AbstractRgbaColorConverter.AlphaAboveOneRejected` | vaadin-colorpickerfield/src/main/java/eu/maxschuster/vaadin/colorpickerfield/converter/AbstractRgbaColorConverter.java:82-84 | `rgba(r,g,b,1.5)` matches the pattern but is rejected as an illegal value |
| `AbstractRgbaColorConverter.HalfAlphaRoundsUp` | vaadin-colorpickerfield/src/main/java/eu/maxschuster/vaadin/colorpickerfield/converter/AbstractRgbaColorConverter.java:64-68 | `rgba(r,g,b,0.5)` decodes to (r, g, b, 128) |
| `AbstractStringToColorConverter.ConvertToModel` | vaadin-colorpickerfield/src/main/java/eu/maxschuster/vaadin/colorpickerfield/converter/AbstractStringToColorConverter.java:39-46 | null gives null; a text succeeds exactly when `unserialize` does, with its colour, and otherwise fails with its cause |
| `AbstractStringToColorConverter.ConvertToPresentation` | vaadin-colorpickerfield/src/main/java/eu/maxschuster/vaadin/colorpickerfield/converter/AbstractStringToColorConverter.java:48-55 | null gives null; a colour succeeds exactly when `serialize` does, with its text, and otherwise fails with its cause |
| `AbstractStringToColorConverter.PresentationIsAccepted` | vaadin-colorpickerfield/src/main/java/eu/maxschuster/vaadin/colorpickerfield/converter/AbstractStringToColorConverter.java:57-65 | with hooks that keep the documented obligation, `convertToModel` accepts whatever `convertToPresentation` gives, and null maps back to null |
| `HexToColorConverter.ConvertToModel` | vaadin-colorpickerfield/src/main/java/eu/maxschuster/vaadin/colorpickerfield/converter/HexToColorConverter.java:36-42 | null gives null; a text succeeds exactly when `HEX_PATTERN` matches, with the decoded colour, and otherwise gives the "could not convert" cause |
| `HexToColorConverter.ConvertToPresentation` | vaadin-colorpickerfield/src/main/java/eu/maxschuster/vaadin/colorpickerfield/converter/HexToColorConverter.java:44-50 | null gives null; a colour gives `serializeColor` of it |
| `HexToColorConverter.RoundTrip` | vaadin-colorpickerfield/src/main/java/eu/maxschuster/vaadin/colorpickerfield/converter/HexToColorConverter.java:36-50 | `convertToModel(convertToPresentation(c))` is `c` with alpha 255; null stays null |
| `HexToColorConverter.ConvergesUpToCase` | vaadin-colorpickerfield/src/test/java/eu/maxschuster/vaadin/colorpickerfield/converter/AbstractStringToColorConverterTest.java:75-91 | an opaque colour converges with any text that lower-cases to its presentation: presenting gives that text ignoring case, and reading it gives the colour |
| `HexToColorConverter.SampleTexts` | vaadin-colorpickerfield/src/main/java/eu/maxschuster/vaadin/colorpickerfield/converter/AbstractHexColorConverter.java:44-46 | white, (15,224,0) and black are presented as `#ffffff`, `#0fe000` and `#000000` |
| `HexToColorConverter.MixedCaseWhite` | vaadin-colorpickerfield/src/test/java/eu/maxschuster/vaadin/colorpickerfield/converter/HexToColorConverterTest.java:31-37 | `#ffFFff` and (255,255,255) convert into each other, ignoring case |
| `HexToColorConverter.UpperCaseGreen` | vaadin-colorpickerfield/src/test/java/eu/maxschuster/vaadin/colorpickerfield/converter/HexToColorConverterTest.java:32-38 | `#0FE000` and (15,224,0) convert into each other, ignoring case |
| `HexToColorConverter.Black` | vaadin-colorpickerfield/src/test/java/eu/maxschuster/vaadin/colorpickerfield/converter/HexToColorConverterTest.java:34-40 | `#000000` and (0,0,0) convert into each other |
| `HexToColorConverter.WhitePresentation` | vaadin-colorpickerfield/src/main/java/eu/maxschuster/vaadin/colorpickerfield/converter/HexToColorConverter.java:44-50 | white is presented as `#ffffff` |
| `ColorToRgbaConverter.ConvertToModel` | vaadin-colorpickerfield/src/main/java/eu/maxschuster/vaadin/colorpickerfield/converter/ColorToRgbaConverter.java:36-42 | the reversed direction: null gives null, and a colour gives `serializeColor` of it |
| `ColorToRgbaConverter.ConvertToPresentation` | vaadin-colorpickerfield/src/main/java/eu/maxschuster/vaadin/colorpickerfield/converter/ColorToRgbaConverter.java:44-50 | null gives null; a text succeeds exactly when `unserializeColor` does, and otherwise fails with its cause |
| `ColorToRgbaConverter.MalformedRejected` | vaadin-colorpickerfield/src/main/java/eu/maxschuster/vaadin/colorpickerfield/converter/ColorToRgbaConverter.java:44-50 | a text that `RGBA_PATTERN` rejects makes `convertToPresentation` fail with the "could not convert" cause |
| `ColorToRgbaConverter.AlphaTwoRejected` | vaadin-colorpickerfield/src/main/java/eu/maxschuster/vaadin/colorpickerfield/converter/ColorToRgbaConverter.java:44-50 | `rgba(r,g,b,2)` is malformed and rejected |
| `ColorToRgbaConverter.RoundTrip` | vaadin-colorpickerfield/src/main/java/eu/maxschuster/vaadin/colorpickerfield/converter/ColorToRgbaConverter.java:36-50 | `convertToPresentation(convertToModel(c))` is `c` when alpha is 0 or 255, or when the fractional alpha text reads back; null stays null |
| `ColorPickerField.AbstractColorPickerField.constructor` | vaadin-colorpickerfield/src/main/java/eu/maxschuster/vaadin/colorpickerfield/AbstractColorPickerField.java:114-121 | the new field holds the picker type, the popup caption and the initial value, with white as default colour, no null representation and position (0, 0) |
| `ColorPickerField.AbstractColorPickerField.GetClientColor` | vaadin-colorpickerfield/src/main/java/eu/maxschuster/vaadin/colorpickerfield/AbstractColorPickerField.java:297-305 | a colour shows as itself; null shows as the null representation if one is set and as the default colour otherwise; the result is never null |
| `ColorPickerField.AbstractColorPickerField.ColorChanged` | vaadin-colorpickerfield/src/main/java/eu/maxschuster/vaadin/colorpickerfield/AbstractColorPickerField.java:172-185 | an event from another component is refused and leaves the value unchanged. Otherwise the value becomes null for a null colour or one equal to the null representation, and the colour in every other case; the picker goes on showing the reported colour, and the stored value never equals the null representation |
| `ColorPickerField.AbstractColorPickerField.SetDefaultColor` | vaadin-colorpickerfield/src/main/java/eu/maxschuster/vaadin/colorpickerfield/AbstractColorPickerField.java:311-316 | null is refused and the default colour is kept; any other colour becomes the default. Only the default colour can change |
| `ColorPickerField.AbstractColorPickerField.SetNullRepresentation` | vaadin-colorpickerfield/src/main/java/eu/maxschuster/vaadin/colorpickerfield/AbstractColorPickerField.java:318-320 | the null representation becomes the given colour or null, and nothing else changes |
| `ColorPickerField.AbstractColorPickerField.SetPopupCaption` | vaadin-colorpickerfield/src/main/java/eu/maxschuster/vaadin/colorpickerfield/AbstractColorPickerField.java:449-456 | the popup caption becomes the given text, and nothing else changes |
| `ColorPickerField.AbstractColorPickerField.SetPositionX` | vaadin-colorpickerfield/src/main/java/eu/maxschuster/vaadin/colorpickerfield/AbstractColorPickerField.java:341-346 | only `positionX` changes, and it becomes the given value |
| `ColorPickerField.AbstractColorPickerField.SetPositionY` | vaadin-colorpickerfield/src/main/java/eu/maxschuster/vaadin/colorpickerfield/AbstractColorPickerField.java:352-357 | only `positionY` changes, and it becomes the given value |
| `ColorPickerField.AbstractColorPickerField.SetPosition` | vaadin-colorpickerfield/src/main/java/eu/maxschuster/vaadin/colorpickerfield/AbstractColorPickerField.java:359-365 | both coordinates are set, and nothing else changes |
| `ColorPickerField.Create` | vaadin-colorpickerfield/src/main/java/eu/maxschuster/vaadin/colorpickerfield/AbstractColorPickerField.java:114-121 | a null picker type throws and no field is made; otherwise a fresh field in its initial state |
| `ColorPickerField.CreateWithCaption` | vaadin-colorpickerfield/src/main/java/eu/maxschuster/vaadin/colorpickerfield/AbstractColorPickerField.java:103-105 | the two-argument constructor uses the given popup caption and the initial value white, and throws on a null picker type; otherwise a fresh field in the initial state (picker type, white default, no null representation, position (0, 0)) |
| `ColorPickerField.CreateDefault` | vaadin-colorpickerfield/src/main/java/eu/maxschuster/vaadin/colorpickerfield/AbstractColorPickerField.java:93-95 | the one-argument constructor uses the popup caption `Colors` and the initial value white, and throws on a null picker type; otherwise a fresh field holding the picker type, with white as default colour, no null representation and position (0, 0) |

## Left out

- Java's `double`: `Double.valueOf`, `alpha / 255d` and `alpha * 255d` are exact rationals here. A long alpha token that rounds to exactly 1.0 as a double is accepted by the source but rejected by the model as above 1. A token just below a rounding boundary can also round differently.
- `AbstractRgbaColorConverter.SerializeColor`: a fractional alpha is written with `String.format("%s", double)`, Java's `Double.toString`. That text is the parameter `fraction`, so the round trip for alphas other than 0 and 255 is proved only for a `fraction` that writes an alpha token within half a step of `alpha / 255`.
- `AbstractRgbaColorConverter.ParseDouble`: models `Double.valueOf` only on unsigned decimal literals. Signs, exponents, hexadecimal floats, `NaN`, `Infinity`, type suffixes and surrounding whitespace are not accepted. No group that `RGBA_PATTERN` captures takes any of these forms.
- `Lexical.ParseJavaInt`: models `Integer.valueOf` on ASCII text only. The non-ASCII decimal digits Java also accepts never occur in a group captured by `\d`.
- `Lexical.DecimalText`: `%d` is formatted with ASCII digits and no grouping. A default locale with other digits is not modelled.
- `parseColor` / `parseAlpha` null checks: a group of a successful match is never null, so the "mustn't be null" branch is unreachable and not modelled.
- The `Locale` and target-type parameters of the converters: no code shown uses them.
- `Color` internals: only `new Color(int)`, `new Color(r, g, b[, a])`, `getCSS()` and value equality are modelled, and they are taken as given. `AbstractColorConverter` and `AbstractToColorConverter` only return stored `Class` objects and are not part of this model.
- `RgbaToColorConverter` and `ColorToRgbConverter` are not part of this model.
- `AbstractColorPickerField`: the reflective `initContent`, `readDesign`/`writeDesign`, `attach`, `readOnlyStatusChange` and every "forward to the picker once the content exists" branch are framework plumbing. The wrapped picker appears only as the identity that `colorChanged` compares against.
- `AbstractColorPickerField`: the caption, visibility flags and popup style are plain getter/setter pairs over the same framework, and are not modelled. The warning `setPopupCaption` logs is not modelled.
- `ColorPickerField.AbstractColorPickerField.ColorChanged`: the exception the source throws is the result `false`. `setValue` is taken to store the value; its read-only checks and value-change events belong to the framework's `CustomField`.
- `ColorPickerField.AbstractColorPickerField.SetDefaultColor`: the `NullPointerException` for a null colour is the result `false`.
- `ColorPickerField.Create`: the `NullPointerException` for a null picker type is the result `None`.
- The demo application, `ColorPickerAreaField` and `ColorPickerAreaFieldFix` are layout and widget wiring, outside the colour logic.
