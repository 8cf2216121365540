/** Colours as the view handles them: a 32-bit ARGB word (0xAARRGGBB).
    The view stores colours in Kotlin `Int`s; the model keeps their unsigned
    bit pattern, so `ushr` and `and` become division and remainder by powers
    of two, and `or 0xFF000000` becomes an addition to the low 24 bits. */
module Pixels {

  /** The bit pattern of a 32-bit ARGB colour. */
  type Color = c: int | 0 <= c < 0x1_0000_0000

  /** A fully transparent pixel, the content of a freshly created bitmap. */
  const TRANSPARENT: Color := 0

  /** Opaque black: the value `0xFF shl 24` written into the mask. */
  const OPAQUE_BLACK: Color := 0xFF00_0000

  /** Minimum alpha of a region-id pixel that counts as part of a region. */
  const MIN_ALPHA: nat := 200

  /** Per-channel RGB tolerance used when matching region-id colours. */
  const TOL: nat := 6

  /** Minimum alpha of an outline pixel that can be ink. */
  const LINE_ALPHA_MIN: nat := 8

  /** Maximum approximate luma of an outline pixel that is ink. */
  const LINE_LUMA_MAX: nat := 24

  /** Quotient and remainder are determined by any decomposition
      `n == q * d + r` with `0 <= r < d`. */
  lemma DivModOf(n: int, d: int, q: int, r: int)
    requires d > 0 && 0 <= r < d && n == q * d + r
    ensures n / d == q && n % d == r
  {
    var q', r' := n / d, n % d;
    assert n == q' * d + r';
    if q > q' {
      MulAtLeast(q - q', d);
    } else if q < q' {
      MulAtLeast(q' - q, d);
    }
  }

  lemma {:induction false} MulAtLeast(k: int, d: int)
    requires k >= 1 && d > 0
    ensures k * d >= d
  {
    if k > 1 {
      MulAtLeast(k - 1, d);
      assert k * d == (k - 1) * d + d;
    }
  }

  function Alpha(c: Color): (a: nat)
    ensures a < 0x100
  {
    c / 0x100_0000
  }

  function Red(c: Color): (r: nat)
    ensures r < 0x100
  {
    c / 0x1_0000 % 0x100
  }

  function Green(c: Color): (g: nat)
    ensures g < 0x100
  {
    c / 0x100 % 0x100
  }

  function Blue(c: Color): (b: nat)
    ensures b < 0x100
  {
    c % 0x100
  }

  /** The colour with the given channels (`Color.argb`). */
  function Argb(a: nat, r: nat, g: nat, b: nat): (c: Color)
    requires a < 0x100 && r < 0x100 && g < 0x100 && b < 0x100
    ensures Alpha(c) == a && Red(c) == r && Green(c) == g && Blue(c) == b
  {
    var c := a * 0x100_0000 + r * 0x1_0000 + g * 0x100 + b;
    DivModOf(c, 0x100_0000, a, r * 0x1_0000 + g * 0x100 + b);
    DivModOf(c, 0x1_0000, a * 0x100 + r, g * 0x100 + b);
    DivModOf(a * 0x100 + r, 0x100, a, r);
    DivModOf(c, 0x100, a * 0x1_0000 + r * 0x100 + g, b);
    DivModOf(a * 0x1_0000 + r * 0x100 + g, 0x100, a * 0x100 + r, g);
    c
  }

  /** A colour is determined by its four channels: `Argb` and the channel
      extractors are inverse to each other. */
  lemma ChannelsDetermineColor(c: Color)
    ensures Argb(Alpha(c), Red(c), Green(c), Blue(c)) == c
  {
    var a, r, g, b := Alpha(c), Red(c), Green(c), Blue(c);
    assert c == a * 0x100_0000 + c % 0x100_0000;
    assert c % 0x100_0000 == r * 0x1_0000 + c % 0x1_0000;
    assert c % 0x1_0000 == g * 0x100 + b;
  }

  predicate IsOpaque(c: Color) {
    Alpha(c) == 0xFF
  }

  /** `filterAlphaRgb`: clears the alpha channel, keeping the RGB channels. */
  function FilterAlphaRgb(c: Color): (rgb: Color)
    ensures Alpha(rgb) == 0
    ensures Red(rgb) == Red(c) && Green(rgb) == Green(c) && Blue(rgb) == Blue(c)
  {
    var low := c % 0x100_0000;
    var a, r, g, b := Alpha(c), Red(c), Green(c), Blue(c);
    ChannelsDetermineColor(c);
    assert c == Argb(a, r, g, b);
    assert low == Argb(0, r, g, b) by {
      DivModOf(c, 0x100_0000, a, r * 0x1_0000 + g * 0x100 + b);
    }
    low
  }

  /** `c or 0xFF000000`: the same RGB with the alpha channel forced to 0xFF. */
  function ForceOpaque(c: Color): (o: Color)
    ensures IsOpaque(o)
    ensures FilterAlphaRgb(o) == FilterAlphaRgb(c)
  {
    0xFF00_0000 + c % 0x100_0000
  }

  function Abs(n: int): nat {
    if n < 0 then -n else n
  }

  /** `sameRGB`: every one of the red, green and blue channels of `a` and
      `b` differs by at most `tol`; alpha is not looked at. */
  predicate SameRGB(a: Color, b: Color, tol: int)
    ensures SameRGB(a, b, tol) ==> tol >= 0
    ensures tol >= 0xFF ==> SameRGB(a, b, tol)
  {
    Abs(Red(a) - Red(b)) <= tol &&
    Abs(Green(a) - Green(b)) <= tol &&
    Abs(Blue(a) - Blue(b)) <= tol
  }

  /** `sameRGB` depends on the low 24 bits of its arguments only. */
  lemma SameRGBIgnoresAlpha(a: Color, b: Color, a': Color, b': Color, tol: int)
    requires FilterAlphaRgb(a) == FilterAlphaRgb(a') && FilterAlphaRgb(b) == FilterAlphaRgb(b')
    ensures SameRGB(a, b, tol) <==> SameRGB(a', b', tol)
  {
  }

  lemma SameRGBSymmetric(a: Color, b: Color, tol: int)
    ensures SameRGB(a, b, tol) <==> SameRGB(b, a, tol)
  {
  }

  lemma SameRGBReflexive(a: Color, tol: int)
    requires tol >= 0
    ensures SameRGB(a, a, tol)
  {
  }

  /** With tolerance 0 the relation is equality of the RGB parts. */
  lemma SameRGBZeroIsEquality(a: Color, b: Color)
    ensures SameRGB(a, b, 0) <==> FilterAlphaRgb(a) == FilterAlphaRgb(b)
  {
    if SameRGB(a, b, 0) {
      ChannelsDetermineColor(FilterAlphaRgb(a));
      ChannelsDetermineColor(FilterAlphaRgb(b));
    }
  }

  /** Tolerances add up along a chain of matches: the relation is not
      transitive, but its error grows at most linearly. */
  lemma SameRGBTriangle(a: Color, b: Color, c: Color, s: int, t: int)
    requires SameRGB(a, b, s) && SameRGB(b, c, t)
    ensures SameRGB(a, c, s + t)
  {
  }

  /** `approxLuma`: the integer luma (299 r + 587 g + 114 b) / 1000. */
  function ApproxLuma(c: Color): (l: nat)
    ensures l <= 0xFF
    ensures Red(c) == Green(c) == Blue(c) ==> l == Red(c)
  {
    (299 * Red(c) + 587 * Green(c) + 114 * Blue(c)) / 1000
  }

  /** The ink test of `isOutlineWall` on one pixel: alpha at least
      `LINE_ALPHA_MIN` and approximate luma at most `LINE_LUMA_MAX`. */
  predicate IsWallColor(c: Color)
    ensures IsWallColor(c) ==> Alpha(c) >= LINE_ALPHA_MIN
    ensures Alpha(c) >= LINE_ALPHA_MIN && Red(c) == 0 && Green(c) == 0 && Blue(c) == 0 ==> IsWallColor(c)
  {
    if Alpha(c) < LINE_ALPHA_MIN then false
    else ApproxLuma(c) <= LINE_LUMA_MAX
  }

  /** Ink is dark in every channel: no wall has red above 83, green above 42
      or blue above 219. */
  lemma WallChannelBounds(c: Color)
    requires IsWallColor(c)
    ensures Red(c) <= 83 && Green(c) <= 42 && Blue(c) <= 219
  {
  }

  /** A grey pixel (equal channels) is ink exactly when it is at least
      slightly opaque and its level is at most 24. */
  lemma GreyWall(a: nat, v: nat)
    requires a < 0x100 && v < 0x100
    ensures IsWallColor(Argb(a, v, v, v)) <==> a >= LINE_ALPHA_MIN && v <= LINE_LUMA_MAX
  {
  }
}
