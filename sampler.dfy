/** Seed resolution on the region-id image: a tap on a semi-transparent
    (anti-aliased) pixel looks through its 5 by 5 neighbourhood for an
    opaque enough pixel with the same RGB within the tolerance. */
module Sampler {
  import opened Pixels
  import opened Raster
  import opened Wrappers

  /** The search radius `r` of `pickOpaqueNeighbor`. */
  const RADIUS: int := 2

  /** An offset (dx, dy) of the search window `-r..r` by `-r..r`. */
  predicate InWindow(d: Pos) {
    -RADIUS <= d.x <= RADIUS && -RADIUS <= d.y <= RADIUS
  }

  /** `d` comes before `e` in the scan order: by `dy`, then by `dx`. */
  predicate Before(d: Pos, e: Pos) {
    d.y < e.y || (d.y == e.y && d.x < e.x)
  }

  /** Pixel (x, y) is a candidate for a tapped pixel of colour `base`: it
      lies inside the image, its alpha is at least `MIN_ALPHA`, and its RGB
      is `sameRGB`-close to the RGB of `base`. */
  predicate Qualifies(img: Bitmap, base: Color, x: int, y: int) {
    InBounds(img.width, img.height, Pos(x, y)) &&
    Alpha(Pixel(img, Pos(x, y))) >= MIN_ALPHA &&
    SameRGB(FilterAlphaRgb(Pixel(img, Pos(x, y))), FilterAlphaRgb(base), TOL)
  }

  /** Offset `d` of the window is a candidate around (ix, iy). */
  predicate Candidate(img: Bitmap, base: Color, ix: int, iy: int, d: Pos) {
    InWindow(d) && Qualifies(img, base, ix + d.x, iy + d.y)
  }

  /** The rest of the scan, starting at offset (dx, dy): the offset of the
      first candidate found, which lies in the window and whose pixel lies
      inside the image (`ScanFromSome` shows it is the first candidate at
      or after (dx, dy)). */
  function ScanFrom(img: Bitmap, base: Color, ix: int, iy: int, dy: int, dx: int): (r: Option<Pos>)
    requires -RADIUS <= dy <= RADIUS + 1 && -RADIUS <= dx <= RADIUS + 1
    ensures r.Some? ==> InWindow(r.value) && InBounds(img.width, img.height, Pos(ix + r.value.x, iy + r.value.y))
    decreases RADIUS + 1 - dy, RADIUS + 1 - dx
  {
    if dy > RADIUS then None
    else if dx > RADIUS then ScanFrom(img, base, ix, iy, dy + 1, -RADIUS)
    else if Qualifies(img, base, ix + dx, iy + dy) then Some(Pos(dx, dy))
    else ScanFrom(img, base, ix, iy, dy, dx + 1)
  }

  /** One step of the scan inside a window row: a hit at (dx, dy), or
      the scan from the next offset. */
  lemma ScanStep(img: Bitmap, base: Color, ix: int, iy: int, dy: int, dx: int)
    requires -RADIUS <= dy <= RADIUS && -RADIUS <= dx <= RADIUS
    ensures ScanFrom(img, base, ix, iy, dy, dx) ==
      if Qualifies(img, base, ix + dx, iy + dy) then Some(Pos(dx, dy)) else ScanFrom(img, base, ix, iy, dy, dx + 1)
  {
  }

  /** The offset of the first candidate around the tapped pixel. */
  function FirstCandidate(img: Bitmap, ix: int, iy: int): Option<Pos>
    requires InBounds(img.width, img.height, Pos(ix, iy))
  {
    ScanFrom(img, Pixel(img, Pos(ix, iy)), ix, iy, -RADIUS, -RADIUS)
  }

  /** What `pickOpaqueNeighbor(idBmp, ix, iy)` returns: the colour of the
      first candidate with its alpha forced to 0xFF. */
  function FirstOpaqueNeighbor(img: Bitmap, ix: int, iy: int): (r: Option<Color>)
    requires InBounds(img.width, img.height, Pos(ix, iy))
    ensures r.Some? ==> IsOpaque(r.value)
  {
    match FirstCandidate(img, ix, iy)
    case None => None
    case Some(d) => Some(ForceOpaque(Pixel(img, Pos(ix + d.x, iy + d.y))))
  }

  /** `pickOpaqueNeighbor`: scans the window row by row and returns the
      first candidate with its alpha forced to 0xFF, or nothing. */
  method PickOpaqueNeighbor(idBmp: Bitmap, ix: int, iy: int) returns (r: Option<Color>)
    requires InBounds(idBmp.width, idBmp.height, Pos(ix, iy))
    ensures r == FirstOpaqueNeighbor(idBmp, ix, iy)
  {
    var base := Pixel(idBmp, Pos(ix, iy));
    for dy := -RADIUS to RADIUS + 1
      invariant ScanFrom(idBmp, base, ix, iy, dy, -RADIUS) == FirstCandidate(idBmp, ix, iy)
    {
      r := ScanRow(idBmp, base, ix, iy, dy);
      if r.Some? {
        return;
      }
    }
    return None;
  }

  /** One row `dy` of the window, scanned by `dx`: the first candidate of
      the row with its alpha forced to 0xFF, or nothing, in which case the
      scan goes on at the next row. */
  method ScanRow(idBmp: Bitmap, base: Color, ix: int, iy: int, dy: int) returns (r: Option<Color>)
    requires -RADIUS <= dy <= RADIUS
    ensures r.Some? ==>
      var d := ScanFrom(idBmp, base, ix, iy, dy, -RADIUS);
      d.Some? && r.value == ForceOpaque(Pixel(idBmp, Pos(ix + d.value.x, iy + d.value.y)))
    ensures r.None? ==> ScanFrom(idBmp, base, ix, iy, dy, -RADIUS) == ScanFrom(idBmp, base, ix, iy, dy + 1, -RADIUS)
  {
    var w, h := idBmp.width, idBmp.height;
    var baseRGB := FilterAlphaRgb(base);
    for dx := -RADIUS to RADIUS + 1
      invariant ScanFrom(idBmp, base, ix, iy, dy, dx) == ScanFrom(idBmp, base, ix, iy, dy, -RADIUS)
    {
      var x, y := ix + dx, iy + dy;
      ScanStep(idBmp, base, ix, iy, dy, dx);
      if !(0 <= x < w && 0 <= y < h) {
        continue;
      }
      var c := Pixel(idBmp, Pos(x, y));
      if Alpha(c) >= MIN_ALPHA && SameRGB(FilterAlphaRgb(c), baseRGB, TOL) {
        return Some(ForceOpaque(c));
      }
    }
    return None;
  }

  /** No offset at or after `from` is a candidate. */
  ghost predicate NoneFrom(img: Bitmap, base: Color, ix: int, iy: int, from: Pos) {
    forall d :: !Before(d, from) ==> !Candidate(img, base, ix, iy, d)
  }

  /** `d` is the first candidate at or after `from`. */
  ghost predicate FirstFrom(img: Bitmap, base: Color, ix: int, iy: int, from: Pos, d: Pos) {
    !Before(d, from) && Candidate(img, base, ix, iy, d) &&
    forall e :: !Before(e, from) && Before(e, d) ==> !Candidate(img, base, ix, iy, e)
  }

  /** Past the end of a window row, the scan resumes at the start of the
      next row without skipping any offset. */
  lemma RowEnd(d: Pos, dx: int, dy: int)
    requires InWindow(d) && dx > RADIUS
    ensures !Before(d, Pos(dx, dy)) <==> !Before(d, Pos(-RADIUS, dy + 1))
  {
  }

  lemma FirstFromRowEnd(img: Bitmap, base: Color, ix: int, iy: int, dx: int, dy: int, d: Pos)
    requires dx > RADIUS && FirstFrom(img, base, ix, iy, Pos(-RADIUS, dy + 1), d)
    ensures FirstFrom(img, base, ix, iy, Pos(dx, dy), d)
  {
    forall e | InWindow(e) {
      RowEnd(e, dx, dy);
    }
  }

  lemma FirstFromStep(img: Bitmap, base: Color, ix: int, iy: int, dx: int, dy: int, d: Pos)
    requires !Candidate(img, base, ix, iy, Pos(dx, dy)) && FirstFrom(img, base, ix, iy, Pos(dx + 1, dy), d)
    ensures FirstFrom(img, base, ix, iy, Pos(dx, dy), d)
  {
    forall e | !Before(e, Pos(dx, dy)) && Before(e, d)
      ensures !Candidate(img, base, ix, iy, e)
    {
      if e != Pos(dx, dy) {
        assert !Before(e, Pos(dx + 1, dy));
      }
    }
  }

  lemma NoneFromRowEnd(img: Bitmap, base: Color, ix: int, iy: int, dx: int, dy: int)
    requires dx > RADIUS && NoneFrom(img, base, ix, iy, Pos(-RADIUS, dy + 1))
    ensures NoneFrom(img, base, ix, iy, Pos(dx, dy))
  {
    forall d | InWindow(d) {
      RowEnd(d, dx, dy);
    }
  }

  lemma NoneFromStep(img: Bitmap, base: Color, ix: int, iy: int, dx: int, dy: int)
    requires !Candidate(img, base, ix, iy, Pos(dx, dy)) && NoneFrom(img, base, ix, iy, Pos(dx + 1, dy))
    ensures NoneFrom(img, base, ix, iy, Pos(dx, dy))
  {
    forall d | !Before(d, Pos(dx, dy)) && d != Pos(dx, dy)
      ensures !Before(d, Pos(dx + 1, dy))
    {
    }
  }

  /** When the scan from (dx, dy) finds nothing, no offset at or after
      (dx, dy) is a candidate. */
  lemma {:induction false} ScanFromNone(img: Bitmap, base: Color, ix: int, iy: int, dy: int, dx: int)
    requires -RADIUS <= dy <= RADIUS + 1 && -RADIUS <= dx <= RADIUS + 1
    requires ScanFrom(img, base, ix, iy, dy, dx).None?
    ensures NoneFrom(img, base, ix, iy, Pos(dx, dy))
    decreases RADIUS + 1 - dy, RADIUS + 1 - dx
  {
    if dy > RADIUS {
    } else if dx > RADIUS {
      ScanFromNone(img, base, ix, iy, dy + 1, -RADIUS);
      NoneFromRowEnd(img, base, ix, iy, dx, dy);
    } else {
      ScanFromNone(img, base, ix, iy, dy, dx + 1);
      NoneFromStep(img, base, ix, iy, dx, dy);
    }
  }

  /** When the scan from (dx, dy) finds an offset, it is the first
      candidate at or after (dx, dy). */
  lemma {:induction false} ScanFromSome(img: Bitmap, base: Color, ix: int, iy: int, dy: int, dx: int)
    requires -RADIUS <= dy <= RADIUS + 1 && -RADIUS <= dx <= RADIUS + 1
    requires ScanFrom(img, base, ix, iy, dy, dx).Some?
    ensures FirstFrom(img, base, ix, iy, Pos(dx, dy), ScanFrom(img, base, ix, iy, dy, dx).value)
    decreases RADIUS + 1 - dy, RADIUS + 1 - dx
  {
    if dx > RADIUS {
      ScanFromSome(img, base, ix, iy, dy + 1, -RADIUS);
      FirstFromRowEnd(img, base, ix, iy, dx, dy, ScanFrom(img, base, ix, iy, dy + 1, -RADIUS).value);
    } else if !Qualifies(img, base, ix + dx, iy + dy) {
      ScanFromSome(img, base, ix, iy, dy, dx + 1);
      FirstFromStep(img, base, ix, iy, dx, dy, ScanFrom(img, base, ix, iy, dy, dx + 1).value);
    }
  }

  /** `d` is the first candidate of the window in scan order. */
  ghost predicate IsFirstCandidate(img: Bitmap, base: Color, ix: int, iy: int, d: Pos) {
    Candidate(img, base, ix, iy, d) &&
    forall e :: Before(e, d) ==> !Candidate(img, base, ix, iy, e)
  }

  /** The scan starts at the window's first offset, so "at or after the
      start" is no restriction on a candidate. */
  lemma WindowStart(img: Bitmap, base: Color, ix: int, iy: int)
    ensures forall d :: Candidate(img, base, ix, iy, d) ==> !Before(d, Pos(-RADIUS, -RADIUS))
    ensures forall d :: FirstFrom(img, base, ix, iy, Pos(-RADIUS, -RADIUS), d) ==> IsFirstCandidate(img, base, ix, iy, d)
  {
  }

  /** `pickOpaqueNeighbor` returns null exactly when no pixel of the 5 by 5
      window around the tap is a candidate. */
  lemma FirstOpaqueNeighborNone(img: Bitmap, ix: int, iy: int)
    requires InBounds(img.width, img.height, Pos(ix, iy))
    ensures FirstOpaqueNeighbor(img, ix, iy).None? <==>
      forall d :: !Candidate(img, Pixel(img, Pos(ix, iy)), ix, iy, d)
  {
    var base := Pixel(img, Pos(ix, iy));
    if FirstCandidate(img, ix, iy).None? {
      ScanFromNone(img, base, ix, iy, -RADIUS, -RADIUS);
      WindowStart(img, base, ix, iy);
    } else {
      ScanFromSome(img, base, ix, iy, -RADIUS, -RADIUS);
    }
  }

  /** When `pickOpaqueNeighbor` returns a colour, it is the first candidate
      of the window in row-major order (by `dy`, then `dx`), with its alpha
      forced to 0xFF. */
  lemma FirstOpaqueNeighborIsFirst(img: Bitmap, ix: int, iy: int)
    requires InBounds(img.width, img.height, Pos(ix, iy))
    requires FirstOpaqueNeighbor(img, ix, iy).Some?
    ensures exists d ::
      IsFirstCandidate(img, Pixel(img, Pos(ix, iy)), ix, iy, d) &&
      FirstOpaqueNeighbor(img, ix, iy).value == ForceOpaque(Pixel(img, Pos(ix + d.x, iy + d.y)))
  {
    var base := Pixel(img, Pos(ix, iy));
    ScanFromSome(img, base, ix, iy, -RADIUS, -RADIUS);
    WindowStart(img, base, ix, iy);
    var d := FirstCandidate(img, ix, iy).value;
    assert IsFirstCandidate(img, base, ix, iy, d);
  }

  /** The colour `pickOpaqueNeighbor` returns is opaque and `sameRGB`-close
      to the tapped pixel. */
  lemma FirstOpaqueNeighborMatches(img: Bitmap, ix: int, iy: int)
    requires InBounds(img.width, img.height, Pos(ix, iy))
    ensures FirstOpaqueNeighbor(img, ix, iy).Some? ==>
      IsOpaque(FirstOpaqueNeighbor(img, ix, iy).value) &&
      SameRGB(FirstOpaqueNeighbor(img, ix, iy).value, Pixel(img, Pos(ix, iy)), TOL)
  {
    var base := Pixel(img, Pos(ix, iy));
    if FirstOpaqueNeighbor(img, ix, iy).Some? {
      var d := FirstCandidate(img, ix, iy).value;
      var c := Pixel(img, Pos(ix + d.x, iy + d.y));
      ScanFromSome(img, base, ix, iy, -RADIUS, -RADIUS);
      SameRGBIgnoresAlpha(FilterAlphaRgb(c), FilterAlphaRgb(base), ForceOpaque(c), base, TOL);
    }
  }

  /** The seed-colour step of `handleTapEvent`: the tapped pixel itself when
      its alpha is at least `MIN_ALPHA`, otherwise the neighbour the picker
      finds. A resolved seed is never transparent, so the view's later
      `alpha == 0` check cannot fire: a tap is dropped at this step only
      when the tapped pixel is too transparent and no neighbour matches. */
  function ResolveSeed(idBmp: Bitmap, ix: int, iy: int): (r: Option<Color>)
    requires InBounds(idBmp.width, idBmp.height, Pos(ix, iy))
    ensures r.Some? ==>
      Alpha(r.value) >= MIN_ALPHA && SameRGB(r.value, Pixel(idBmp, Pos(ix, iy)), TOL)
    ensures r.None? <==>
      Alpha(Pixel(idBmp, Pos(ix, iy))) < MIN_ALPHA &&
      forall d :: !Candidate(idBmp, Pixel(idBmp, Pos(ix, iy)), ix, iy, d)
  {
    var seed := Pixel(idBmp, Pos(ix, iy));
    FirstOpaqueNeighborNone(idBmp, ix, iy);
    FirstOpaqueNeighborMatches(idBmp, ix, iy);
    if Alpha(seed) < MIN_ALPHA then FirstOpaqueNeighbor(idBmp, ix, iy)
    else Some(seed)
  }
}
