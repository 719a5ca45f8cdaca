/** The colour helpers of the C++ graphics facade (namespace
    `Graphics::Colors`): a colour is a 32-bit ARGB word, alpha in bits 31-24,
    red in 23-16, green in 15-8 and blue in 7-0. */
module Colors {

  const White: bv32 := 0xFFFF_FFFF
  const Black: bv32 := 0xFF00_0000

  /** `Theme::BACKGROUND`, the same word as the compositor's background colour. */
  const ThemeBackground: bv32 := 0xFF1E_1E2E

  /** `Utils::getAlpha`: bits 31-24. */
  function GetAlpha(color: bv32): bv8
  {
    ((color >> 24) & 0xFF) as bv8
  }

  /** `Utils::getRed`: bits 23-16. */
  function GetRed(color: bv32): bv8
  {
    ((color >> 16) & 0xFF) as bv8
  }

  /** `Utils::getGreen`: bits 15-8. */
  function GetGreen(color: bv32): bv8
  {
    ((color >> 8) & 0xFF) as bv8
  }

  /** `Utils::getBlue`: bits 7-0. */
  function GetBlue(color: bv32): bv8
  {
    (color & 0xFF) as bv8
  }

  /** `Utils::makeColor`: each getter reads back the component it was given. */
  function MakeColor(alpha: bv8, red: bv8, green: bv8, blue: bv8): (c: bv32)
    ensures GetAlpha(c) == alpha && GetRed(c) == red
    ensures GetGreen(c) == green && GetBlue(c) == blue
  {
    (alpha as bv32 << 24) | (red as bv32 << 16) | (green as bv32 << 8) | blue as bv32
  }

  /** `Utils::makeRGB`: a fully opaque colour. */
  function MakeRgb(red: bv8, green: bv8, blue: bv8): (c: bv32)
    ensures GetAlpha(c) == 0xFF
    ensures GetRed(c) == red && GetGreen(c) == green && GetBlue(c) == blue
  {
    MakeColor(0xFF, red, green, blue)
  }

  /** `Utils::withAlpha`: replaces alpha and keeps the colour channels. */
  function WithAlpha(color: bv32, alpha: bv8): (c: bv32)
    ensures GetAlpha(c) == alpha
    ensures GetRed(c) == GetRed(color) && GetGreen(c) == GetGreen(color)
    ensures GetBlue(c) == GetBlue(color)
  {
    (color & 0x00FF_FFFF) | (alpha as bv32 << 24)
  }

  /** The four components determine the colour: splitting a colour and
      packing the parts again gives the colour back. */
  lemma SplitThenPack(color: bv32)
    ensures MakeColor(GetAlpha(color), GetRed(color), GetGreen(color), GetBlue(color)) == color
  {
  }

  /** Two colours with the same four components are the same colour. */
  lemma {:induction false} ComponentsDetermineColor(c1: bv32, c2: bv32)
    requires GetAlpha(c1) == GetAlpha(c2) && GetRed(c1) == GetRed(c2)
    requires GetGreen(c1) == GetGreen(c2) && GetBlue(c1) == GetBlue(c2)
    ensures c1 == c2
  {
    SplitThenPack(c1);
    SplitThenPack(c2);
  }

  /** Setting alpha twice is the same as setting it once, to the second value. */
  lemma {:induction false} WithAlphaTwice(color: bv32, a1: bv8, a2: bv8)
    ensures WithAlpha(WithAlpha(color, a1), a2) == WithAlpha(color, a2)
  {
    ComponentsDetermineColor(WithAlpha(WithAlpha(color, a1), a2), WithAlpha(color, a2));
  }

  /** `withAlpha` is `makeColor` with the colour's own channels. */
  lemma {:induction false} WithAlphaIsMakeColor(color: bv32, alpha: bv8)
    ensures WithAlpha(color, alpha) == MakeColor(alpha, GetRed(color), GetGreen(color), GetBlue(color))
  {
    ComponentsDetermineColor(WithAlpha(color, alpha),
                             MakeColor(alpha, GetRed(color), GetGreen(color), GetBlue(color)));
  }
}
