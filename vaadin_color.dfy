/** The framework's colour value as the converters use it: four channels of
    0..255, the constructors `Color(int rgb)` and `Color(r, g, b[, a])`, and
    `getCSS()`. Their behaviour is taken as given. */
module VaadinColor {
  import opened Lexical

  type Channel = x: int | 0 <= x < 256

  /** An immutable colour; equality is channel by channel. */
  datatype Color = Color(red: Channel, green: Channel, blue: Channel, alpha: Channel)

  /** Color.WHITE. */
  const White: Color := Color(255, 255, 255, 255)

  /** `new Color(r, g, b)`: the colour with full opacity. */
  function Opaque(red: Channel, green: Channel, blue: Channel): Color
  {
    Color(red, green, blue, 255)
  }

  /** The colour `c` with its alpha channel forced to 255, which is what a
      notation without alpha gives back. */
  function WithoutAlpha(c: Color): Color
  {
    Opaque(c.red, c.green, c.blue)
  }

  /** `new Color(int rgb)`: red, green and blue are bits 16-23, 8-15 and 0-7
      of `rgb` (Java's `(rgb >> k) & 0xFF`, which Euclidean division and
      remainder give for every int), alpha is 255. */
  function FromRgb(rgb: int): (c: Color)
    ensures c.alpha == 255
    ensures 0 <= rgb < 0x100_0000 ==> rgb == c.red * 0x1_0000 + c.green * 0x100 + c.blue
  {
    Color((rgb / 0x1_0000) % 0x100, (rgb / 0x100) % 0x100, rgb % 0x100, 255)
  }

  /** Two lower-case hex digits for one channel, zero-padded. */
  function CssHexPair(n: Channel): (s: string)
    ensures |s| == 2 && AllHexDigits(s)
    ensures forall i | 0 <= i < 2 :: IsLowerHexDigit(s[i])
    ensures HexValue(s) == n
  {
    var s := [LowerHexChar(n / 16), LowerHexChar(n % 16)];
    assert s[..1] == [s[0]] && s[..1][..0] == [];
    assert HexValue(s[..1]) == n / 16;
    s
  }

  /** `getCSS()`: '#' followed by the zero-padded lower-case hex digits of
      red, green and blue; alpha is not written. */
  function GetCss(c: Color): (s: string)
    ensures |s| == 7 && s[0] == '#'
    ensures forall i | 1 <= i < 7 :: IsLowerHexDigit(s[i])
  {
    "#" + CssHexPair(c.red) + CssHexPair(c.green) + CssHexPair(c.blue)
  }
}
