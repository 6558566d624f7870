/**
  What the colours asked for look like.  The 256-colour palette and the eight basic colours are
  written down here from the terminal's side, independently of the conversions in
  include/NeForce/core/utility/color.hpp.
 */
module Palettes {
  import opened Bytes
  import opened Terminal
  import opened Cells

  // ---- 256 colours ---------------------------------------------------------

  /** The six levels of the colour cube. */
  const LEVELS: seq<byte> := [0, 95, 135, 175, 215, 255]

  function Opaque(r: byte, g: byte, b: byte): Color { Color(r, g, b, 255) }

  /** Colour 16 + 36r + 6g + b of the cube, or one of the 24 greys above it. */
  function PaletteOf(k: nat): Color
    requires 16 <= k < 256
  {
    if k < 232 then Opaque(LEVELS[(k - 16) / 36], LEVELS[(k - 16) / 6 % 6], LEVELS[(k - 16) % 6])
    else Opaque(8 + 10 * (k - 232), 8 + 10 * (k - 232), 8 + 10 * (k - 232))
  }

  function Gap(a: int, b: int): nat { if a < b then b - a else a - b }

  /** No level is nearer to v, and no lower one as near. */
  predicate IsNearest(level: byte, v: byte) {
    && level in LEVELS
    && (forall k | 0 <= k < 6 :: Gap(v, level) <= Gap(v, LEVELS[k]))
    && (forall k | 0 <= k < 6 && LEVELS[k] < level :: Gap(v, level) < Gap(v, LEVELS[k]))
  }

  lemma LevelIsNearest(v: byte)
    ensures IsNearest(LEVELS[Level6(v)], v)
  {
  }

  /** find_closest: the first level at the least squared distance. */
  method FindClosest(value: byte) returns (closest: nat)
    ensures closest == Level6(value)
  {
    closest := 0;
    var least := 255 * 255;
    var i := 0;
    while i < 6
      invariant 0 <= i <= 6 && 0 <= closest < 6
      invariant i > 0 ==> closest < i && least == Gap(value, LEVELS[closest]) * Gap(value, LEVELS[closest])
      invariant i == 0 ==> closest == 0 && least == 255 * 255
      invariant forall k | 0 <= k < i :: Gap(value, LEVELS[closest]) <= Gap(value, LEVELS[k])
      invariant forall k | 0 <= k < closest :: Gap(value, LEVELS[closest]) < Gap(value, LEVELS[k])
    {
      var diff := value - LEVELS[i];
      var dist := diff * diff;
      Squares(Gap(value, LEVELS[i]), Gap(value, LEVELS[closest]));
      Squares(Gap(value, LEVELS[i]), 255);
      if dist < least {
        least := dist;
        closest := i;
      }
      i := i + 1;
    }
    LevelIsUnique(value, closest);
  }

  lemma Squares(a: nat, b: nat)
    ensures a * a < b * b <==> a < b
  {
  }

  lemma LevelIsUnique(v: byte, k: nat)
    requires k < 6 && (forall j | 0 <= j < 6 :: Gap(v, LEVELS[k]) <= Gap(v, LEVELS[j]))
    requires forall j | 0 <= j < k :: Gap(v, LEVELS[k]) < Gap(v, LEVELS[j])
    ensures k == Level6(v)
  {
    LevelIsNearest(v);
  }

  // ---- The index that is written --------------------------------------------

  /** The digits of an index of the cube. */
  lemma CubeDigits(r: nat, g: nat, b: nat)
    requires r < 6 && g < 6 && b < 6
    ensures
      var k := 36 * r + 6 * g + b;
      k < 216 && k / 36 == r && k / 6 % 6 == g && k % 6 == b
  {
    var k := 36 * r + 6 * g + b;
    assert k / 6 == 6 * r + g;
  }

  predicate IsGrey(c: Color) { c.r == c.g == c.b }

  /** The grey ramp: 8, 18, ..., 238 below, with black and white at its ends. */
  predicate IsRamp(grey: byte, v: byte) {
    if v < 8 then grey == 0
    else if v > 248 then grey == 255
    else 8 <= grey <= 238 && grey % 10 == 8 && grey <= v && (v < grey + 10 || grey == 238)
  }

  /**
    A terminal shows for the index that is written, channel by channel, the nearest level of the
    cube; a grey is shown as the grey of the ramp at or below it.
   */
  lemma IndexShows(c: Color)
    ensures
      var p := PaletteOf(Ansi256Index(c));
      if IsGrey(c) then IsGrey(p) && IsRamp(p.r, c.r)
      else IsNearest(p.r, c.r) && IsNearest(p.g, c.g) && IsNearest(p.b, c.b)
  {
    hide IsNearest, Level6;
    if !IsGrey(c) {
      CubeDigits(Level6(c.r), Level6(c.g), Level6(c.b));
      LevelIsNearest(c.r);
      LevelIsNearest(c.g);
      LevelIsNearest(c.b);
    }
  }

  lemma LevelOfLevel(i: nat)
    requires i < 6
    ensures Level6(LEVELS[i]) == i
  {
  }

  lemma CubeColor(r: nat, g: nat, b: nat)
    requires r < 6 && g < 6 && b < 6
    ensures
      var k := 16 + 36 * r + 6 * g + b;
      16 <= k < 232 && PaletteOf(k) == Opaque(LEVELS[r], LEVELS[g], LEVELS[b])
  {
    CubeDigits(r, g, b);
  }

  /** The colours of the palette are written as themselves, but for four greys of the cube that the ramp has as well. */
  lemma PaletteRoundTrip(k: nat)
    requires 16 <= k < 256
    ensures Ansi256Index(PaletteOf(k)) == k <==> k !in {59, 102, 145, 188}
  {
    if k < 232 {
      var r, g, b := (k - 16) / 36, (k - 16) / 6 % 6, (k - 16) % 6;
      assert k == 16 + 36 * r + 6 * g + b by { SplitIndex(k - 16); }
      CubeRoundTrip(r, g, b);
    }
  }

  lemma SplitIndex(m: nat)
    ensures m == 36 * (m / 36) + 6 * (m / 6 % 6) + m % 6
  {
    assert m / 36 == m / 6 / 6;
  }

  lemma CubeRoundTrip(r: nat, g: nat, b: nat)
    requires r < 6 && g < 6 && b < 6
    ensures
      var k := 16 + 36 * r + 6 * g + b;
      16 <= k < 232 && (Ansi256Index(PaletteOf(k)) == k <==> k !in {59, 102, 145, 188})
  {
    CubeColor(r, g, b);
    hide PaletteOf;
    LevelOfLevel(r);
    LevelOfLevel(g);
    LevelOfLevel(b);
    SameLevel(r, g);
    SameLevel(g, b);
  }

  lemma SameLevel(i: nat, j: nat)
    requires i < 6 && j < 6
    ensures LEVELS[i] == LEVELS[j] <==> i == j
  {
  }

  // ---- Eight colours ---------------------------------------------------------

  /** A basic colour has red, green and blue as the bits of its number. */
  predicate HasRed(k: nat) { k % 2 == 1 }
  predicate HasGreen(k: nat) { k / 2 % 2 == 1 }
  predicate HasBlue(k: nat) { k / 4 % 2 == 1 }

  function Strongest(c: Color): byte {
    if c.r >= c.g && c.r >= c.b then c.r else if c.g >= c.b then c.g else c.b
  }

  /** One channel is strongest, and the other two are strong as well. */
  predicate IsPale(c: Color) {
    || (c.r > c.g > 128 && c.r > c.b > 128)
    || (c.g > c.r > 128 && c.g > c.b > 128)
    || (c.b > c.r > 128 && c.b > c.g > 128)
  }

  /** Dark greys are black, other greys and pale colours white; else the strongest channels are the colour. */
  lemma BasicShows(c: Color)
    ensures
      var k := AnsiBasic(c);
      if IsGrey(c) then k == if c.r < 64 then 0 else 7
      else if IsPale(c) then k == 7
      else
        && k < 8 && (HasRed(k) <==> c.r == Strongest(c))
        && (HasGreen(k) <==> c.g == Strongest(c)) && (HasBlue(k) <==> c.b == Strongest(c))
  {
  }

  // ---- What is asked for -----------------------------------------------------

  /** What a terminal shows for a colour of its rendition, given its own idea of the default. */
  function Displayed(colour: Colour, default: Color): Color
    requires colour.Indexed? ==> 16 <= colour.i < 256
    requires colour.Rgb? ==> 0 <= colour.r < 256 && 0 <= colour.g < 256 && 0 <= colour.b < 256
    requires !colour.Basic?
  {
    match colour
    case Default => default
    case Indexed(i) => PaletteOf(i)
    case Rgb(r, g, b) => Opaque(r, g, b)
  }

  /** Transparent colours are the default; opaque ones as near as the depth allows. */
  lemma WantShows(c: Color, depth: Depth, default: Color)
    ensures c.a == 0 ==> Displayed(Want(c, depth), default) == default
    ensures c.a != 0 && depth.TrueColor? ==> Displayed(Want(c, depth), default) == Opaque(c.r, c.g, c.b)
    ensures c.a != 0 && depth.Ansi256? && !IsGrey(c) ==>
      var p := Displayed(Want(c, depth), default);
      IsNearest(p.r, c.r) && IsNearest(p.g, c.g) && IsNearest(p.b, c.b)
    ensures c.a != 0 && depth.Ansi256? && IsGrey(c) ==>
      var p := Displayed(Want(c, depth), default);
      IsGrey(p) && IsRamp(p.r, c.r)
    ensures c.a != 0 && depth.Ansi16? ==> Want(c, depth) == Basic(AnsiBasic(c))
  {
    hide PaletteOf, Ansi256Index, AnsiBasic, IsNearest, IsRamp;
    IndexShows(c);
  }
}
