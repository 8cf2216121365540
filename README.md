# Tap-to-fill colouring view, modelled in Dafny

This project models the fill logic of `ColoringView`, the custom Android
view of a colouring game. The view has three images:

- an **outline** image: black ink on a transparent background;
- a **region-id** image of the same size, whose colours tell the regions apart;
- a **colour layer**: the fills drawn so far.

A tap on the view is first mapped to a pixel. A *seed* colour is then
resolved on the region-id image. If the tapped pixel is too transparent
(anti-aliased), the seed is taken from the first opaque, similar pixel of
the 5 by 5 window around it.

Next a breadth-first flood fill over the outline collects every pixel
4-connected to the tapped one through pixels that are not ink. The fill
produces a mask the size of the region's bounding box. The mask is
stencilled with the selected colour (`SRC_IN`) and drawn onto the colour
layer at the box's corner.

The model covers these parts:

- `Pixels`: ARGB colours and the source's channel arithmetic: `filterAlphaRgb`, `sameRGB`, `approxLuma` and the ink test.
- `Raster`: bitmaps as rows of pixels, plus the row-major index `y * w + x` that the flood fill's own arrays use.
- `Reach`: 4-connectivity through pixels that are not ink (`Reachable`), and the region of a pixel (`Region`). This is the reference meaning of the flood fill.
- `Flood`: `floodMaskFromOutline` as an imperative breadth-first search. It has a real visited array and an `Int` deque of packed indices, plus the mask writer.
- `Sampler`: `pickOpaqueNeighbor`, and the seed-resolution step of `handleTapEvent`.
- `Compositor`: `createColorBitmap`, and the two canvas operations it and the view use. These are `drawBitmap` at an integer offset in the default `SRC_OVER` mode, and `drawRect` with `SRC_IN`.
- `View`: the `ColoringView` class, with `setBitmaps`, `setSelectedColor`, the integer part of `tapPointToBitmapXY`, and `handleTapEvent` from the mapped pixel on.

The main results are the following:

- `FloodMaskFromOutline` returns nothing exactly when the seed is outside the image or on ink. Otherwise it returns the tight bounding box of the seed's region and a mask that is opaque exactly on the region.
- `HandleTap` leaves the colour layer equal to the old layer with exactly the tapped region painted in the selected colour, or unchanged when the tap does not fill.
- Repeating a fill changes nothing. A later fill over a larger region erases an earlier one. Fills of disjoint regions commute.
- Two regions of one outline are equal or disjoint, so any two taps either repaint one region or commute (`TwoFills`).

Two guards in the source can never fire, and the model follows the code
there:

- `handleTapEvent` checks `Color.alpha(seed) == 0`, but a resolved seed always has alpha at least `MIN_ALPHA` (`ResolveSeed`). Fully transparent background taps are dropped earlier, when no neighbour qualifies.
- `floodMaskFromOutline` checks `minX > maxX || minY > maxY`, but the box always holds the seed (`RegionBoxInside`).

Both branches are `assert false` in the model.

Colours are the unsigned 32-bit pattern of the Kotlin `Int`:

- `ushr` and `and` become division and remainder by powers of two;
- `c or 0xFF000000` becomes `0xFF000000 + c % 0x1000000`.

## Model

All source paths are relative to the repository root.

| member | source | states |
|---|---|---|
| Pixels.Alpha | app/src/main/java/com/justplay/coloringgame/custom/ColoringView.kt:248 | `(c ushr 24) and 0xFF` is a channel value below 256 |
| Pixels.Red | app/src/main/java/com/justplay/coloringgame/custom/ColoringView.kt:178-179 | `(c ushr 16) and 0xFF` is a channel value below 256 |
| Pixels.Green | app/src/main/java/com/justplay/coloringgame/custom/ColoringView.kt:178-179 | `(c ushr 8) and 0xFF` is a channel value below 256 |
| Pixels.Blue | app/src/main/java/com/justplay/coloringgame/custom/ColoringView.kt:178-179 | `c and 0xFF` is a channel value below 256 |
| Pixels.Argb | app/src/main/java/com/justplay/coloringgame/custom/ColoringView.kt:178-179 | packing four channels and extracting them with `ushr`/`and 0xFF` gives the channels back |
| Pixels.ChannelsDetermineColor | app/src/main/java/com/justplay/coloringgame/custom/ColoringView.kt:178-179 | a colour is repacked exactly from its four extracted channels |
| Pixels.FilterAlphaRgb | app/src/main/java/com/justplay/coloringgame/custom/ColoringView.kt:175 | `c and 0x00FFFFFF` has alpha 0 and the same red, green and blue as `c` |
| Pixels.ForceOpaque | app/src/main/java/com/justplay/coloringgame/custom/ColoringView.kt:199 | `c or 0xFF000000` is opaque and has the same RGB as `c` |
| Pixels.SameRGB | app/src/main/java/com/justplay/coloringgame/custom/ColoringView.kt:177-183 | defined as: each of red, green and blue differs by at most `tol`; it never holds for a negative tolerance and always holds for a tolerance of 255 or more |
| Pixels.SameRGBIgnoresAlpha | app/src/main/java/com/justplay/coloringgame/custom/ColoringView.kt:177-183 | `sameRGB` gives the same answer for colours with the same RGB, whatever their alpha |
| Pixels.SameRGBSymmetric | app/src/main/java/com/justplay/coloringgame/custom/ColoringView.kt:177-183 | `sameRGB(a, b)` equals `sameRGB(b, a)` |
| Pixels.SameRGBReflexive | app/src/main/java/com/justplay/coloringgame/custom/ColoringView.kt:177-183 | every colour is `sameRGB`-close to itself for any tolerance of at least 0 |
| Pixels.SameRGBZeroIsEquality | app/src/main/java/com/justplay/coloringgame/custom/ColoringView.kt:177-183 | with tolerance 0, `sameRGB` holds exactly when the RGB parts are equal |
| Pixels.SameRGBTriangle | app/src/main/java/com/justplay/coloringgame/custom/ColoringView.kt:177-183 | tolerances add up along a chain of `sameRGB`-close colours |
| Pixels.ApproxLuma | app/src/main/java/com/justplay/coloringgame/custom/ColoringView.kt:236-241 | the weighted luma is at most 255, and equals the level of a grey colour |
| Pixels.IsWallColor | app/src/main/java/com/justplay/coloringgame/custom/ColoringView.kt:246-251 | defined as: alpha below `LINE_ALPHA_MIN` (8) is never ink, otherwise ink exactly when `approxLuma` is at most `LINE_LUMA_MAX` (24); so ink has alpha at least 8, and black with alpha at least 8 is ink |
| Reach.IsOutlineWall | app/src/main/java/com/justplay/coloringgame/custom/ColoringView.kt:246-251 | defined as: the outline pixel at (x, y) has a wall colour (`IsWallColor`) |
| Pixels.WallChannelBounds | app/src/main/java/com/justplay/coloringgame/custom/ColoringView.kt:246-251 | an ink pixel has red at most 83, green at most 42 and blue at most 219 |
| Pixels.GreyWall | app/src/main/java/com/justplay/coloringgame/custom/ColoringView.kt:246-251 | a grey pixel is ink exactly when its alpha is at least `LINE_ALPHA_MIN` (8) and its level at most `LINE_LUMA_MAX` (24) |
| Raster.PosOfIdx | app/src/main/java/com/justplay/coloringgame/custom/ColoringView.kt:274-276 | decoding `y * w + x` with `i % w` and `i / w` gives back (x, y) |
| Raster.IdxOfPos | app/src/main/java/com/justplay/coloringgame/custom/ColoringView.kt:221 | every index below `w * h` is the index of an in-bounds pixel |
| Raster.IdxInjective | app/src/main/java/com/justplay/coloringgame/custom/ColoringView.kt:257 | distinct in-bounds pixels have distinct indices `y * w + x` |
| Raster.GridSize | app/src/main/java/com/justplay/coloringgame/custom/ColoringView.kt:221 | a `w` by `h` image has exactly `w * h` pixels |
| Reach.ReachableSymmetric | app/src/main/java/com/justplay/coloringgame/custom/ColoringView.kt:283-286 | 4-connectivity through pixels that are not ink is symmetric |
| Reach.ReachableTransitive | app/src/main/java/com/justplay/coloringgame/custom/ColoringView.kt:283-286 | 4-connectivity through pixels that are not ink is transitive |
| Reach.RegionOfMember | app/src/main/java/com/justplay/coloringgame/custom/ColoringView.kt:283-286 | flooding from any pixel of a region yields that same region |
| Reach.RegionsEqualOrDisjoint | app/src/main/java/com/justplay/coloringgame/custom/ColoringView.kt:283-286 | the regions of any two seeds are equal or share no pixel |
| Reach.ClosedContainsRegion | app/src/main/java/com/justplay/coloringgame/custom/ColoringView.kt:273-287 | a set that holds the seed and holds every open neighbour of its members contains the whole region |
| Flood.BoundingBoxIsTightest | app/src/main/java/com/justplay/coloringgame/custom/ColoringView.kt:278-281 | the tracked `minX..maxX`, `minY..maxY` box lies inside every rectangle that contains the region |
| Flood.DequePush | app/src/main/java/com/justplay/coloringgame/custom/ColoringView.kt:256-263 | the visited set and queue become exactly `Enqueue` of the pixel: it is marked and appended once when it is inside, not ink and not yet visited, and nothing changes otherwise; only pixels reachable from the seed are ever marked |
| Flood.PushIf | app/src/main/java/com/justplay/coloringgame/custom/ColoringView.kt:283-286 | one guarded push `if (x > 0) dequePush(x - 1, y)` (and its three companions) gives `Enqueue` of the neighbour, because the guard fails only outside the image |
| Flood.EnqueueNeighborsMarks | app/src/main/java/com/justplay/coloringgame/custom/ColoringView.kt:283-286 | the four pushes for a pixel mark exactly its open, not yet visited 4-neighbours and append at most four entries |
| Flood.PushNeighbors | app/src/main/java/com/justplay/coloringgame/custom/ColoringView.kt:283-286 | the visited set and queue become exactly `EnqueueNeighbors`: left, right, up, down pushed in that order; afterwards every open 4-neighbour of the pixel is marked |
| Flood.Widen | app/src/main/java/com/justplay/coloringgame/custom/ColoringView.kt:278-281 | the box grows to hold (x, y) and keeps everything it held, each edge is either the old edge or the new coordinate (so it is the smallest such box), and each edge is still attained by a recorded pixel |
| Flood.StartSearch | app/src/main/java/com/justplay/coloringgame/custom/ColoringView.kt:221-270 | the visited array marks only the seed, the queue is exactly the seed's index, the box is the seed alone, and the search invariant holds |
| Flood.SearchStep | app/src/main/java/com/justplay/coloringgame/custom/ColoringView.kt:273-287 | one iteration takes the queue head off, finishes it, widens the box to exactly hold it, pushes its neighbours as `EnqueueNeighbors` says, keeps the search invariant, and either marks a new pixel or shortens the queue |
| Flood.PopKeepsInvariant | app/src/main/java/com/justplay/coloringgame/custom/ColoringView.kt:274-286 | taking the head off the queue and pushing its neighbours keeps the invariant, with the head finished |
| Flood.SearchProgresses | app/src/main/java/com/justplay/coloringgame/custom/ColoringView.kt:273-287 | each iteration marks a new pixel of the image or leaves the marks and shortens the queue, so the loop ends |
| Flood.SearchComplete | app/src/main/java/com/justplay/coloringgame/custom/ColoringView.kt:273-287 | when the queue is empty, the visited array marks exactly the seed's region, and the box is its tight bounding box |
| Flood.Traverse | app/src/main/java/com/justplay/coloringgame/custom/ColoringView.kt:221-287 | the search marks exactly the seed's region and tracks its tight bounding box; the loop runs once per region pixel, at most `w * h` times |
| Flood.FillRow | app/src/main/java/com/justplay/coloringgame/custom/ColoringView.kt:300-304 | `row[xx]` is `0xFF shl 24` where pixel (minX + xx, y) was visited, and 0 elsewhere |
| Flood.WriteMask | app/src/main/java/com/justplay/coloringgame/custom/ColoringView.kt:291-306 | the `bw` by `bh` mask is opaque black exactly at the visited pixels of the box and transparent elsewhere |
| Flood.RegionBoxInside | app/src/main/java/com/justplay/coloringgame/custom/ColoringView.kt:289 | the region's bounding box holds the seed and lies inside the image, so `minX > maxX` cannot happen |
| Flood.FloodMaskFromOutline | app/src/main/java/com/justplay/coloringgame/custom/ColoringView.kt:212-308 | no result exactly when the seed is out of bounds or on ink; otherwise the tight bounding box of the seed's region and a mask opaque exactly on the region |
| Sampler.ScanRow | app/src/main/java/com/justplay/coloringgame/custom/ColoringView.kt:194-201 | scanning one row `dy` returns the first candidate of the row made opaque, or passes the scan on to the next row |
| Sampler.PickOpaqueNeighbor | app/src/main/java/com/justplay/coloringgame/custom/ColoringView.kt:188-203 | the two nested loops return what `FirstOpaqueNeighbor` specifies |
| Sampler.ScanFromNone | app/src/main/java/com/justplay/coloringgame/custom/ColoringView.kt:194-202 | when the scan from an offset finds nothing, no offset at or after it is a candidate |
| Sampler.ScanFromSome | app/src/main/java/com/justplay/coloringgame/custom/ColoringView.kt:194-200 | when the scan from an offset finds one, it is the first candidate at or after that offset |
| Sampler.FirstOpaqueNeighborNone | app/src/main/java/com/justplay/coloringgame/custom/ColoringView.kt:188-203 | `pickOpaqueNeighbor` returns null exactly when no pixel of the 5 by 5 window is a candidate: inside the image, alpha at least `MIN_ALPHA`, RGB within `TOL` of the tapped pixel |
| Sampler.FirstOpaqueNeighborIsFirst | app/src/main/java/com/justplay/coloringgame/custom/ColoringView.kt:194-200 | a returned colour is the first candidate of the window in `dy`-then-`dx` order, with alpha forced to 0xFF |
| Sampler.FirstOpaqueNeighborMatches | app/src/main/java/com/justplay/coloringgame/custom/ColoringView.kt:198-199 | a returned colour is opaque and `sameRGB`-close to the tapped pixel |
| Sampler.ResolveSeed | app/src/main/java/com/justplay/coloringgame/custom/ColoringView.kt:321-327 | a resolved seed has alpha at least `MIN_ALPHA` and is `sameRGB`-close to the tapped pixel; there is none exactly when the tapped pixel is too transparent and no neighbour qualifies |
| Compositor.SourceOver | app/src/main/java/com/justplay/coloringgame/custom/ColoringView.kt:349 | SRC_OVER of an opaque source pixel gives the source, of a transparent one gives the destination, and keeps pixels fully opaque or fully transparent |
| Compositor.SrcIn | app/src/main/java/com/justplay/coloringgame/custom/ColoringView.kt:351-353 | SRC_IN of a solid colour gives the colour or transparent, and with an opaque colour keeps the destination's alpha |
| Compositor.DrawBitmap | app/src/main/java/com/justplay/coloringgame/custom/ColoringView.kt:349 | drawing at (left, top) replaces each covered destination pixel under an opaque source pixel and leaves all others unchanged |
| Compositor.FillSrcIn | app/src/main/java/com/justplay/coloringgame/custom/ColoringView.kt:351-353 | `SRC_IN` of a solid colour turns opaque pixels into the colour and keeps transparent pixels transparent |
| Compositor.CreateColorBitmap | app/src/main/java/com/justplay/coloringgame/custom/ColoringView.kt:339-356 | the patch holds the colour exactly where the mask is opaque, and is transparent elsewhere |
| Compositor.PaintIdempotent | app/src/main/java/com/justplay/coloringgame/custom/ColoringView.kt:335 | filling the same region with the same colour twice equals filling it once |
| Compositor.PaintLastWins | app/src/main/java/com/justplay/coloringgame/custom/ColoringView.kt:335 | a fill over a region that covers an earlier fill's region erases the earlier fill |
| Compositor.PaintDisjointCommute | app/src/main/java/com/justplay/coloringgame/custom/ColoringView.kt:335 | fills of disjoint regions commute |
| View.TwoFills | app/src/main/java/com/justplay/coloringgame/custom/ColoringView.kt:315-337 | two taps on the same outline: on the same region the later colour replaces the earlier one, and on different regions the two fills commute |
| View.PatchIsOpaqueOrClear | app/src/main/java/com/justplay/coloringgame/custom/ColoringView.kt:339-356 | with an opaque colour, every pixel of the patch is fully opaque or fully transparent |
| View.CommitPixel | app/src/main/java/com/justplay/coloringgame/custom/ColoringView.kt:332-335 | drawing the patch at the rect's corner turns a pixel into the colour exactly when it is in the region, and leaves it unchanged otherwise |
| View.CommitPaints | app/src/main/java/com/justplay/coloringgame/custom/ColoringView.kt:329-335 | the drawn layer equals the old layer with exactly the region painted |
| View.FillRegion | app/src/main/java/com/justplay/coloringgame/custom/ColoringView.kt:329-335 | a tap on ink changes nothing; otherwise the layer becomes the old layer with the tapped pixel's region painted |
| View.ColoringView.constructor | app/src/main/java/com/justplay/coloringgame/custom/ColoringView.kt:42-62 | there are no bitmaps and no colour layer, and the selected colour is `#F94144` |
| View.ColoringView.SetBitmaps | app/src/main/java/com/justplay/coloringgame/custom/ColoringView.kt:121-131 | images of different sizes are refused with nothing changed; otherwise both are kept and a fresh, fully transparent layer of their size replaces the old one |
| View.ColoringView.SetSelectedColor | app/src/main/java/com/justplay/coloringgame/custom/ColoringView.kt:136-138 | only the selected colour changes |
| View.ColoringView.TapPointToBitmapXY | app/src/main/java/com/justplay/coloringgame/custom/ColoringView.kt:161-172 | a pixel is returned exactly when a region-id map is set and the pixel lies inside it |
| View.ColoringView.HandleTap | app/src/main/java/com/justplay/coloringgame/custom/ColoringView.kt:315-337 | when the tap resolves a seed on a pixel that is not ink, the layer gains exactly the tapped region in the selected colour; otherwise it is unchanged |

## Left out

- The float part of `tapPointToBitmapXY` is left out: inverting the draw matrix, `mapPoints` and `toInt()`. The model takes the truncated pixel (ix, iy) as its input. For the same reason the "matrix not invertible" null path is not modelled.
- `fitCenter`, `onSizeChanged`, `onDraw`, `onTouchEvent` and the gesture listeners are left out. They are drawing and gesture handling.
- `invalidate()` is not modelled: it only schedules a redraw.
- `colorLayerCanvas` is not a separate entity. Drawing through it is drawing on the colour layer.
- `ColoringView.SetBitmaps`: the `require` failure is an `IllegalArgumentException` in the source. Here it is a `false` result with nothing changed.
- `Bitmap.copy` is a value copy: the bitmaps are immutable values.
- `ColoringView.SetSelectedColor` requires an opaque colour, because the partial-alpha blending is not modelled. The source accepts any `Int`. Every colour the app passes is opaque: the `#RRGGBB` palette of `ColoringPlayFragment.kt` and the initial `#F94144`.
- `Compositor.SourceOver` only covers sources that are fully opaque or fully transparent, which is all the fill ever draws. General Porter-Duff blending of partial alpha is left out.
- `Compositor.SrcIn` only covers destinations that are fully opaque or fully transparent, which is all the mask ever holds. General Porter-Duff blending of partial alpha is left out.
- `Compositor.CreateColorBitmap`: the anti-aliasing `Paint` flag is not modelled, because drawing at integer offsets and filling a whole rectangle are not affected by it.
- The 32-bit overflow of `outlineWd * outlineHt` and of `y * outlineWd + x` is not modelled. Integers are unbounded here.
- Pixels are read through `Pixel` (`bitmap[x, y]`). The `getPixels` copy into `pixelsArray` and its row-major layout are left out.
- `Flood.Traverse` does not count visits in real code: the loop counter `steps` is ghost.
- The fragments, adapters and the activity are left out. They load resources and build the UI.
