/** The pixel semantics of the two canvas operations the fill uses, for
    bitmaps whose every pixel is either fully opaque or fully transparent:
    `drawBitmap` at an integer offset with the default SRC_OVER mode, and a
    solid rectangle drawn with the SRC_IN transfer mode. A destination
    bitmap is an array of rows, each row a sequence of colours. */
module Compositor {
  import opened Pixels
  import opened Raster

  /** Every pixel of the bitmap has alpha 0 or 0xFF. */
  ghost predicate OpaqueOrClear(img: Bitmap) {
    forall q :: InBounds(img.width, img.height, q) ==>
      Alpha(Pixel(img, q)) == 0 || Alpha(Pixel(img, q)) == 0xFF
  }

  /** Every pixel of the rows has alpha 0 or 0xFF. */
  ghost predicate RowsOpaqueOrClear(rows: seq<seq<Color>>) {
    forall y, x :: 0 <= y < |rows| && 0 <= x < |rows[y]| ==>
      Alpha(rows[y][x]) == 0 || Alpha(rows[y][x]) == 0xFF
  }

  /** SRC_OVER of one source pixel onto one destination pixel, for a source
      that is opaque or transparent: an opaque source replaces the
      destination, a transparent one leaves it as it is. */
  function SourceOver(src: Color, dst: Color): (r: Color)
    requires Alpha(src) == 0 || Alpha(src) == 0xFF
    ensures Alpha(src) == 0xFF ==> r == src
    ensures Alpha(src) == 0 ==> r == dst
    ensures (Alpha(dst) == 0 || Alpha(dst) == 0xFF) ==> (Alpha(r) == 0 || Alpha(r) == 0xFF)
  {
    if Alpha(src) == 0xFF then src else dst
  }

  /** SRC_IN of a solid colour onto a destination pixel that is opaque or
      transparent: the colour where the destination is opaque, transparent
      where it is transparent. */
  function SrcIn(color: Color, dst: Color): (r: Color)
    requires Alpha(dst) == 0 || Alpha(dst) == 0xFF
    ensures r == color || r == TRANSPARENT
    ensures IsOpaque(color) ==> Alpha(r) == Alpha(dst)
  {
    if Alpha(dst) == 0xFF then color else TRANSPARENT
  }

  /** The new value of the pixel at `p` of a destination after `src` is
      drawn with its top-left corner at (left, top). */
  function Drawn(src: Bitmap, left: int, top: int, p: Pos, under: Color): Color
    requires OpaqueOrClear(src)
  {
    var s := Pos(p.x - left, p.y - top);
    if InBounds(src.width, src.height, s) then SourceOver(Pixel(src, s), under) else under
  }

  /** Row `y` of a destination after `src` is drawn at (left, top). */
  function DrawnRow(src: Bitmap, left: int, top: int, y: int, row: seq<Color>): (r: seq<Color>)
    requires OpaqueOrClear(src)
    ensures |r| == |row|
  {
    seq(|row|, x requires 0 <= x < |row| => Drawn(src, left, top, Pos(x, y), row[x]))
  }

  /** `after` is `before` with `src` drawn at (left, top): the rows keep
      their lengths and every pixel is the composed one. */
  ghost predicate IsDrawn(before: seq<seq<Color>>, after: seq<seq<Color>>, src: Bitmap, left: int, top: int)
    requires OpaqueOrClear(src)
  {
    |after| == |before| &&
    (forall y :: 0 <= y < |after| ==> |after[y]| == |before[y]|) &&
    forall p: Pos :: 0 <= p.y < |after| && 0 <= p.x < |after[p.y]| ==>
      after[p.y][p.x] == Drawn(src, left, top, p, before[p.y][p.x])
  }

  /** `canvas.drawBitmap(src, left, top, null)` on the bitmap whose rows
      are `layer`: each destination pixel covered by `src` is composed with
      the source pixel over it; the drawing is clipped to the destination,
      and every pixel outside `src` is left unchanged. */
  method DrawBitmap(layer: array<seq<Color>>, src: Bitmap, left: int, top: int)
    requires OpaqueOrClear(src)
    modifies layer
    ensures IsDrawn(old(layer[..]), layer[..], src, left, top)
  {
    forall y | 0 <= y < layer.Length {
      layer[y] := DrawnRow(src, left, top, y, layer[y]);
    }
  }

  /** A row after SRC_IN of a solid colour. */
  function SrcInRow(color: Color, row: seq<Color>): (r: seq<Color>)
    requires forall x :: 0 <= x < |row| ==> Alpha(row[x]) == 0 || Alpha(row[x]) == 0xFF
    ensures |r| == |row|
  {
    seq(|row|, x requires 0 <= x < |row| => SrcIn(color, row[x]))
  }

  /** `drawRect(0, w, h)` with a solid colour and the SRC_IN mode on a
      bitmap whose pixels are opaque or transparent. */
  method FillSrcIn(layer: array<seq<Color>>, color: Color)
    requires RowsOpaqueOrClear(layer[..])
    modifies layer
    ensures forall y :: 0 <= y < layer.Length ==> |layer[y]| == |old(layer[y])|
    ensures forall y, x :: 0 <= y < layer.Length && 0 <= x < |layer[y]| ==>
      layer[y][x] == SrcIn(color, old(layer[y][x]))
  {
    forall y | 0 <= y < layer.Length {
      layer[y] := SrcInRow(color, layer[y]);
    }
  }

  /** `patch` holds `color` exactly where the mask, placed at the origin,
      is opaque, and is transparent everywhere else. */
  ghost predicate IsColorBitmap(mask: Bitmap, color: Color, patch: Bitmap) {
    forall q :: InBounds(patch.width, patch.height, q) ==>
      Pixel(patch, q) == if InBounds(mask.width, mask.height, q) && IsOpaque(Pixel(mask, q)) then color else TRANSPARENT
  }

  /** `createColorBitmap(mask, color, width, height)`: a fresh `width` by
      `height` bitmap holding `color` exactly where the mask, drawn at the
      origin, is opaque, and fully transparent everywhere else. */
  method CreateColorBitmap(mask: Bitmap, color: Color, width: nat, height: nat) returns (patch: Bitmap)
    requires OpaqueOrClear(mask)
    ensures patch.width == width && patch.height == height
    ensures IsColorBitmap(mask, color, patch)
  {
    var rows := new seq<Color>[height](_ => seq(width, _ => TRANSPARENT));  // createBitmap(width, height)
    DrawBitmap(rows, mask, 0, 0);
    assert RowsOpaqueOrClear(rows[..]) by {
      forall y, x | 0 <= y < rows.Length && 0 <= x < |rows[y]|
        ensures Alpha(rows[y][x]) == 0 || Alpha(rows[y][x]) == 0xFF
      {
        assert rows[y][x] == Drawn(mask, 0, 0, Pos(x, y), TRANSPARENT);
      }
    }
    FillSrcIn(rows, color);
    patch := Image(width, height, rows[..]);
  }

  /** The rows `layer` of a colour layer after every position of `region`
      has been painted with `color`. */
  ghost function Painted(layer: seq<seq<Color>>, region: set<Pos>, color: Color): (r: seq<seq<Color>>)
    ensures |r| == |layer| && forall y :: 0 <= y < |r| ==> |r[y]| == |layer[y]|
  {
    seq(|layer|, y requires 0 <= y < |layer| =>
      seq(|layer[y]|, x requires 0 <= x < |layer[y]| => if Pos(x, y) in region then color else layer[y][x]))
  }

  /** Painting sets every position of the region to the colour and leaves
      every other position as it was. */
  lemma PaintedAt(layer: seq<seq<Color>>, region: set<Pos>, color: Color, p: Pos)
    requires 0 <= p.y < |layer| && 0 <= p.x < |layer[p.y]|
    ensures Painted(layer, region, color)[p.y][p.x] == if p in region then color else layer[p.y][p.x]
  {
  }

  /** Two layers with the same row lengths that agree at every position
      are equal. */
  lemma SameAtEveryPos(a: seq<seq<Color>>, b: seq<seq<Color>>)
    requires |a| == |b| && forall y :: 0 <= y < |a| ==> |a[y]| == |b[y]|
    requires forall p: Pos :: 0 <= p.y < |a| && 0 <= p.x < |a[p.y]| ==> a[p.y][p.x] == b[p.y][p.x]
    ensures a == b
  {
    forall y | 0 <= y < |a|
      ensures a[y] == b[y]
    {
      forall x | 0 <= x < |a[y]|
        ensures a[y][x] == b[y][x]
      {
        assert Pos(x, y).x == x;
      }
    }
  }

  /** Filling the same region with the same colour a second time changes
      nothing. */
  lemma PaintIdempotent(layer: seq<seq<Color>>, region: set<Pos>, color: Color)
    ensures Painted(Painted(layer, region, color), region, color) == Painted(layer, region, color)
  {
    var once := Painted(layer, region, color);
    forall p: Pos | 0 <= p.y < |once| && 0 <= p.x < |once[p.y]|
      ensures Painted(once, region, color)[p.y][p.x] == once[p.y][p.x]
    {
      PaintedAt(layer, region, color, p);
      PaintedAt(once, region, color, p);
    }
    SameAtEveryPos(Painted(once, region, color), once);
  }

  /** Where two fills overlap the later one wins: a fill whose region
      covers an earlier one's erases every trace of it. */
  lemma PaintLastWins(layer: seq<seq<Color>>, first: set<Pos>, c1: Color, second: set<Pos>, c2: Color)
    requires first <= second
    ensures Painted(Painted(layer, first, c1), second, c2) == Painted(layer, second, c2)
  {
    var mid := Painted(layer, first, c1);
    forall p: Pos | 0 <= p.y < |mid| && 0 <= p.x < |mid[p.y]|
      ensures Painted(mid, second, c2)[p.y][p.x] == Painted(layer, second, c2)[p.y][p.x]
    {
      PaintedAt(layer, first, c1, p);
      PaintedAt(mid, second, c2, p);
      PaintedAt(layer, second, c2, p);
    }
    SameAtEveryPos(Painted(mid, second, c2), Painted(layer, second, c2));
  }

  /** Fills of disjoint regions commute: the order of two taps on different
      regions does not matter. */
  lemma PaintDisjointCommute(layer: seq<seq<Color>>, r1: set<Pos>, c1: Color, r2: set<Pos>, c2: Color)
    requires r1 !! r2
    ensures Painted(Painted(layer, r1, c1), r2, c2) == Painted(Painted(layer, r2, c2), r1, c1)
  {
    var a := Painted(layer, r1, c1);
    var b := Painted(layer, r2, c2);
    forall p: Pos | 0 <= p.y < |a| && 0 <= p.x < |a[p.y]|
      ensures Painted(a, r2, c2)[p.y][p.x] == Painted(b, r1, c1)[p.y][p.x]
    {
      PaintedAt(layer, r1, c1, p);
      PaintedAt(layer, r2, c2, p);
      PaintedAt(a, r2, c2, p);
      PaintedAt(b, r1, c1, p);
    }
    SameAtEveryPos(Painted(a, r2, c2), Painted(b, r1, c1));
  }
}
