/** The view's state and the tap-to-fill pipeline: the outline and
    region-id images, the colour layer the fills are drawn onto, and the
    selected colour. */
module View {
  import opened Pixels
  import opened Raster
  import opened Wrappers
  import opened Reach
  import opened Flood
  import opened Sampler
  import opened Compositor

  /** The initial selected colour, `#F94144`. */
  const INITIAL_COLOR: Color := 0xFFF9_4144

  /** The patch `createColorBitmap` makes from a mask holds only the
      opaque selected colour and transparent pixels. */
  lemma PatchIsOpaqueOrClear(mask: Bitmap, patch: Bitmap, color: Color)
    requires IsOpaque(color) && IsColorBitmap(mask, color, patch)
    ensures OpaqueOrClear(patch)
  {
  }

  /** Drawing the patch of a flood at the rect's top-left corner turns one
      pixel into the colour when it belongs to the region and leaves it
      as it was otherwise. */
  lemma CommitPixel(region: set<Pos>, f: MaskAndRect, patch: Bitmap, color: Color, p: Pos, under: Color)
    requires IsOpaque(color) && IsColorBitmap(f.mask, color, patch) && OpaqueOrClear(patch)
    requires IsBoundingBox(region, f.rect) && IsMaskOf(region, f.rect, f.mask)
    requires patch.width == f.rect.Width() && patch.height == f.rect.Height()
    ensures Drawn(patch, f.rect.left, f.rect.top, p, under) == if p in region then color else under
  {
    var r := f.rect;
    var s := Pos(p.x - r.left, p.y - r.top);
    if InBounds(patch.width, patch.height, s) {
      assert Pos(r.left + s.x, r.top + s.y) == p;
      assert Pixel(f.mask, s) == if p in region then OPAQUE_BLACK else TRANSPARENT;
    } else {
      assert !r.Contains(p);
    }
  }

  /** A fill committed at the rect's top-left corner paints exactly the
      region: the patch is the selected colour on the region's pixels and
      transparent elsewhere, and the region lies inside the rect. */
  lemma CommitPaints(before: seq<seq<Color>>, after: seq<seq<Color>>, region: set<Pos>, f: MaskAndRect,
                     patch: Bitmap, color: Color)
    requires IsOpaque(color) && IsColorBitmap(f.mask, color, patch) && OpaqueOrClear(patch)
    requires IsBoundingBox(region, f.rect) && IsMaskOf(region, f.rect, f.mask)
    requires patch.width == f.rect.Width() && patch.height == f.rect.Height()
    requires IsDrawn(before, after, patch, f.rect.left, f.rect.top)
    ensures after == Painted(before, region, color)
  {
    forall p: Pos | 0 <= p.y < |after| && 0 <= p.x < |after[p.y]|
      ensures after[p.y][p.x] == Painted(before, region, color)[p.y][p.x]
    {
      PaintedAt(before, region, color, p);
      CommitPixel(region, f, patch, color, p, before[p.y][p.x]);
    }
    SameAtEveryPos(after, Painted(before, region, color));
  }

  /** The fill part of `handleTapEvent` on a pixel inside the outline:
      flood from the pixel, stencil the colour through the mask and draw
      the patch onto the layer at the rect's top-left corner. When the
      pixel is ink nothing is drawn; otherwise the layer afterwards is the
      old one with the pixel's region painted in the colour. */
  method FillRegion(layer: array<seq<Color>>, outline: Bitmap, ix: int, iy: int, color: Color)
    requires IsRaster(outline.width, outline.height, layer[..])
    requires InBounds(outline.width, outline.height, Pos(ix, iy)) && IsOpaque(color)
    modifies layer
    ensures layer[..] ==
      if IsOutlineWall(outline, Pos(ix, iy)) then old(layer[..])
      else Painted(old(layer[..]), Region(outline, Pos(ix, iy)), color)
  {
    var flood := FloodMaskFromOutline(outline, ix, iy);
    if flood.None? {
      return;
    }
    var rect := flood.value.rect;
    var bw, bh := rect.Width(), rect.Height();
    var colorBitmap := CreateColorBitmap(flood.value.mask, color, bw, bh);
    PatchIsOpaqueOrClear(flood.value.mask, colorBitmap, color);
    ghost var before := layer[..];
    DrawBitmap(layer, colorBitmap, rect.left, rect.top);
    CommitPaints(before, layer[..], Region(outline, Pos(ix, iy)), flood.value, colorBitmap, color);
  }

  /** Two fills of the same outline, in either order of their seeds:
      when both taps hit the same region the second colour simply
      replaces the first, and otherwise the two fills commute. */
  lemma TwoFills(layer: seq<seq<Color>>, outline: Bitmap, s: Pos, c1: Color, t: Pos, c2: Color)
    ensures Painted(Painted(layer, Region(outline, s), c1), Region(outline, t), c2) ==
      if Region(outline, s) == Region(outline, t) then Painted(layer, Region(outline, t), c2)
      else Painted(Painted(layer, Region(outline, t), c2), Region(outline, s), c1)
  {
    RegionsEqualOrDisjoint(outline, s, t);
    if Region(outline, s) == Region(outline, t) {
      PaintLastWins(layer, Region(outline, s), c1, Region(outline, t), c2);
    } else {
      PaintDisjointCommute(layer, Region(outline, s), c1, Region(outline, t), c2);
    }
  }

  class ColoringView {
    var outlineBitmap: Option<Bitmap>
    var regionIdMap: Option<Bitmap>
    /** The rows of the colour layer; null until the bitmaps are set. */
    var colorLayer: array?<seq<Color>>
    var selectedColor: Color

    /** The outline and the region-id map are set together and have the
        same size, the colour layer covers them pixel for pixel, and the
        selected colour is opaque. */
    ghost predicate Valid()
      reads this, colorLayer
    {
      IsOpaque(selectedColor) &&
      (outlineBitmap.Some? <==> regionIdMap.Some?) &&
      (colorLayer != null <==> outlineBitmap.Some?) &&
      (outlineBitmap.Some? ==>
        regionIdMap.value.width == outlineBitmap.value.width &&
        regionIdMap.value.height == outlineBitmap.value.height &&
        IsRaster(outlineBitmap.value.width, outlineBitmap.value.height, colorLayer[..]))
    }

    constructor()
      ensures Valid()
      ensures outlineBitmap == None && regionIdMap == None && colorLayer == null
      ensures selectedColor == INITIAL_COLOR
    {
      outlineBitmap := None;
      regionIdMap := None;
      colorLayer := null;
      selectedColor := INITIAL_COLOR;
    }

    /** `setBitmaps(outline, regionId)`: images of different sizes are
        refused and nothing changes; otherwise both images are kept and a
        fresh, fully transparent colour layer of the same size replaces the
        old one, discarding every earlier fill. */
    method SetBitmaps(outline: Bitmap, regionId: Bitmap) returns (accepted: bool)
      requires Valid()
      modifies this
      ensures Valid()
      ensures accepted <==> outline.width == regionId.width && outline.height == regionId.height
      ensures !accepted ==> unchanged(this)
      ensures accepted ==>
        outlineBitmap == Some(outline) && regionIdMap == Some(regionId) &&
        fresh(colorLayer) && selectedColor == old(selectedColor) &&
        forall p :: InBounds(outline.width, outline.height, p) ==> colorLayer[p.y][p.x] == TRANSPARENT
    {
      if !(outline.width == regionId.width && outline.height == regionId.height) {
        return false;
      }
      outlineBitmap := Some(outline);
      regionIdMap := Some(regionId);
      colorLayer := new seq<Color>[outline.height](_ => seq(outline.width, _ => TRANSPARENT));
      return true;
    }

    /** `setSelectedColor(color)`. */
    method SetSelectedColor(color: Color)
      requires Valid() && IsOpaque(color)
      modifies this
      ensures Valid()
      ensures selectedColor == color
      ensures outlineBitmap == old(outlineBitmap) && regionIdMap == old(regionIdMap) && colorLayer == old(colorLayer)
    {
      selectedColor := color;
    }

    /** The integer part of `tapPointToBitmapXY`: the already mapped and
        truncated pixel coordinate is accepted only while a region-id map is
        set and the coordinate lies inside it. */
    function TapPointToBitmapXY(ix: int, iy: int): (r: Option<Pos>)
      reads this
      ensures r.Some? <==>
        regionIdMap.Some? && InBounds(regionIdMap.value.width, regionIdMap.value.height, Pos(ix, iy))
      ensures r.Some? ==> r.value == Pos(ix, iy)
    {
      match regionIdMap
      case None => None
      case Some(bmp) =>
        if 0 <= ix < bmp.width && 0 <= iy < bmp.height then Some(Pos(ix, iy)) else None
    }

    /** A tap at pixel (ix, iy) fills: the pixel lies inside the images,
        a seed colour can be resolved on the region-id map, and the pixel
        is not ink on the outline. */
    ghost predicate TapFills(ix: int, iy: int)
      reads this
    {
      regionIdMap.Some? && outlineBitmap.Some? &&
      InBounds(regionIdMap.value.width, regionIdMap.value.height, Pos(ix, iy)) &&
      ResolveSeed(regionIdMap.value, ix, iy).Some? &&
      InBounds(outlineBitmap.value.width, outlineBitmap.value.height, Pos(ix, iy)) &&
      !IsOutlineWall(outlineBitmap.value, Pos(ix, iy))
    }

    /** `handleTapEvent` from the mapped pixel (ix, iy) on: when the tap
        fills, the colour layer afterwards is the old layer with every
        pixel of the tapped region of the outline set to the selected
        colour and every other pixel unchanged; otherwise the layer is
        unchanged. Nothing else changes. */
    method HandleTap(ix: int, iy: int)
      requires Valid()
      modifies colorLayer
      ensures Valid()
      ensures colorLayer != null ==>
        colorLayer[..] == if TapFills(ix, iy)
          then Painted(old(colorLayer[..]), Region(outlineBitmap.value, Pos(ix, iy)), selectedColor)
          else old(colorLayer[..])
    {
      var pos := TapPointToBitmapXY(ix, iy);
      if pos.None? {
        return;
      }
      var idBmp := regionIdMap.value;
      var seed := Pixel(idBmp, Pos(ix, iy));
      if Alpha(seed) < MIN_ALPHA {
        var alt := PickOpaqueNeighbor(idBmp, ix, iy);
        if alt.None? {
          return;
        }
        seed := alt.value;
      }
      assert Some(seed) == ResolveSeed(idBmp, ix, iy);
      if Alpha(seed) == 0 {
        assert false;  // a resolved seed has alpha at least MIN_ALPHA
      }
      FillRegion(colorLayer, outlineBitmap.value, ix, iy, selectedColor);
    }
  }
}
