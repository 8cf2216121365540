/** Pixel-addressable rasters. An `ARGB_8888` bitmap is `height` rows of
    `width` colours; pixel (x, y) is column x of row y. The flood fill's own
    bookkeeping numbers pixels in row-major order, pixel (x, y) at index
    `y * width + x`. */
module Raster {
  import opened Pixels

  datatype Pos = Pos(x: int, y: int)

  datatype Image = Image(width: nat, height: nat, rows: seq<seq<Color>>)

  /** An image with exactly `height` rows of exactly `width` pixels. */
  type Bitmap = img: Image | IsRaster(img.width, img.height, img.rows)
    witness Image(0, 0, [])

  predicate IsRaster(w: nat, h: nat, rows: seq<seq<Color>>) {
    |rows| == h && forall y :: 0 <= y < h ==> |rows[y]| == w
  }

  /** `x in 0 until w && y in 0 until h`. */
  predicate InBounds(w: nat, h: nat, p: Pos) {
    0 <= p.x < w && 0 <= p.y < h
  }

  /** The row-major index of an in-bounds position. */
  function Idx(w: nat, h: nat, p: Pos): (i: nat)
    requires InBounds(w, h, p)
    ensures i < w * h
  {
    IndexInRange(w, h, p);
    p.y * w + p.x
  }

  /** The position of a row-major index (`i % w`, `i / w`). */
  function PosOf(w: nat, i: nat): Pos
    requires w > 0
  {
    Pos(i % w, i / w)
  }

  lemma IndexInRange(w: nat, h: nat, p: Pos)
    requires InBounds(w, h, p)
    ensures 0 <= p.y * w + p.x < w * h
  {
    MulAtLeast(h - p.y, w);
    assert h * w == (h - p.y) * w + p.y * w;
  }

  /** Decoding an index recovers the position: `Idx` is injective. */
  lemma {:induction false} PosOfIdx(w: nat, h: nat, p: Pos)
    requires InBounds(w, h, p)
    ensures PosOf(w, Idx(w, h, p)) == p
  {
    DivModOf(p.y * w + p.x, w, p.y, p.x);
  }

  /** Every index below `w * h` is the index of an in-bounds position. */
  lemma {:induction false} IdxOfPos(w: nat, h: nat, i: nat)
    requires i < w * h
    ensures w > 0 && InBounds(w, h, PosOf(w, i)) && Idx(w, h, PosOf(w, i)) == i
  {
    assert w > 0;
    var q, r := i / w, i % w;
    assert i == q * w + r;
    if q >= h {
      MulAtLeast(q - h + 1, w);
    }
  }

  lemma IdxInjective(w: nat, h: nat)
    ensures forall p, q :: InBounds(w, h, p) && InBounds(w, h, q) && Idx(w, h, p) == Idx(w, h, q) ==> p == q
  {
    forall p, q | InBounds(w, h, p) && InBounds(w, h, q) && Idx(w, h, p) == Idx(w, h, q)
      ensures p == q
    {
      PosOfIdx(w, h, p);
      PosOfIdx(w, h, q);
    }
  }

  /** `bitmap[x, y]`. */
  function Pixel(img: Bitmap, p: Pos): Color
    requires InBounds(img.width, img.height, p)
  {
    img.rows[p.y][p.x]
  }

  /** Every position of a `w` by `h` raster. */
  ghost function Grid(w: nat, h: nat): (g: set<Pos>)
    ensures forall p :: p in g <==> InBounds(w, h, p)
  {
    set x, y | 0 <= x < w && 0 <= y < h :: Pos(x, y)
  }

  ghost function Row(w: nat, y: int): (r: set<Pos>)
    ensures forall p :: p in r <==> 0 <= p.x < w && p.y == y
  {
    set x | 0 <= x < w :: Pos(x, y)
  }

  lemma {:induction false} RowSize(w: nat, y: int)
    ensures |Row(w, y)| == w
  {
    if w > 0 {
      RowSize(w - 1, y);
      assert Row(w, y) == Row(w - 1, y) + {Pos(w - 1, y)};
    } else {
      assert Row(w, y) == {};
    }
  }

  lemma DisjointUnionSize<T>(A: set<T>, B: set<T>)
    requires A !! B
    ensures |A + B| == |A| + |B|
  {
    assert A * B == {};
  }

  /** The last row split off a raster. */
  lemma GridSplit(w: nat, h: nat)
    requires h > 0
    ensures Grid(w, h) == Grid(w, h - 1) + Row(w, h - 1) && Grid(w, h - 1) !! Row(w, h - 1)
  {
    assert Grid(w, h) == Grid(w, h - 1) + Row(w, h - 1);
  }

  /** A `w` by `h` raster has `w * h` positions. */
  lemma {:induction false} GridSize(w: nat, h: nat)
    ensures |Grid(w, h)| == w * h
  {
    if h > 0 {
      calc {
        |Grid(w, h)|;
        { GridSplit(w, h); DisjointUnionSize(Grid(w, h - 1), Row(w, h - 1)); }
        |Grid(w, h - 1)| + |Row(w, h - 1)|;
        { GridSize(w, h - 1); RowSize(w, h - 1); }
        w * (h - 1) + w;
        w * h;
      }
    } else {
      assert Grid(w, h) == {};
    }
  }
}
