/** Walls of the outline image and 4-connectivity through the pixels that
    are not walls: the region a flood fill started at a seed must cover. */
module Reach {
  import opened Pixels
  import opened Raster

  /** `isOutlineWall(ix, iy)`: the outline pixel at `p` is ink. */
  predicate IsOutlineWall(outline: Bitmap, p: Pos)
    requires InBounds(outline.width, outline.height, p)
  {
    IsWallColor(Pixel(outline, p))
  }

  /** A pixel the fill may enter: inside the image and not ink. */
  predicate Open(outline: Bitmap, p: Pos) {
    InBounds(outline.width, outline.height, p) && !IsOutlineWall(outline, p)
  }

  function Left(p: Pos): Pos { Pos(p.x - 1, p.y) }
  function Right(p: Pos): Pos { Pos(p.x + 1, p.y) }
  function Up(p: Pos): Pos { Pos(p.x, p.y - 1) }
  function Down(p: Pos): Pos { Pos(p.x, p.y + 1) }

  /** 4-neighbourhood. */
  predicate Adjacent(p: Pos, q: Pos) {
    q == Left(p) || q == Right(p) || q == Up(p) || q == Down(p)
  }

  /** A walk through open pixels, each step to a 4-neighbour. */
  predicate IsPath(outline: Bitmap, path: seq<Pos>) {
    |path| > 0 &&
    (forall k :: 0 <= k < |path| ==> Open(outline, path[k])) &&
    (forall k :: 0 <= k < |path| - 1 ==> Adjacent(path[k], path[k + 1]))
  }

  /** `t` is 4-connected to `s` through pixels that are not walls. */
  ghost predicate Reachable(outline: Bitmap, s: Pos, t: Pos) {
    exists path :: IsPath(outline, path) && path[0] == s && path[|path| - 1] == t
  }

  /** The region a fill started at `seed` covers. */
  ghost function Region(outline: Bitmap, seed: Pos): (r: set<Pos>)
    ensures forall p :: p in r <==> Reachable(outline, seed, p)
  {
    forall p | Reachable(outline, seed, p)
      ensures InBounds(outline.width, outline.height, p)
    {
      ReachableIsOpen(outline, seed, p);
    }
    set p | p in Grid(outline.width, outline.height) && Reachable(outline, seed, p)
  }

  /** Both ends of a connection are open pixels: a region never contains
      a wall and never leaves the image. */
  lemma ReachableIsOpen(outline: Bitmap, s: Pos, t: Pos)
    requires Reachable(outline, s, t)
    ensures Open(outline, s) && Open(outline, t)
  {
    var path :| IsPath(outline, path) && path[0] == s && path[|path| - 1] == t;
    assert Open(outline, path[0]);
    assert Open(outline, path[|path| - 1]);
  }

  /** An open pixel reaches itself. */
  lemma ReachableSelf(outline: Bitmap, s: Pos)
    requires Open(outline, s)
    ensures Reachable(outline, s, s)
  {
    assert IsPath(outline, [s]);
  }

  /** One more step to an open 4-neighbour stays connected. */
  lemma ReachableStep(outline: Bitmap, s: Pos, p: Pos, n: Pos)
    requires Reachable(outline, s, p) && Adjacent(p, n) && Open(outline, n)
    ensures Reachable(outline, s, n)
  {
    var path :| IsPath(outline, path) && path[0] == s && path[|path| - 1] == p;
    var path' := path + [n];
    assert IsPath(outline, path');
    assert path'[0] == s && path'[|path'| - 1] == n;
  }

  function Reversed(path: seq<Pos>): (r: seq<Pos>)
    ensures |r| == |path|
    ensures forall k :: 0 <= k < |path| ==> r[k] == path[|path| - 1 - k]
  {
    if path == [] then [] else Reversed(path[1..]) + [path[0]]
  }

  /** Connectivity is symmetric: walk the path backwards. */
  lemma ReachableSymmetric(outline: Bitmap, s: Pos, t: Pos)
    requires Reachable(outline, s, t)
    ensures Reachable(outline, t, s)
  {
    var path :| IsPath(outline, path) && path[0] == s && path[|path| - 1] == t;
    var back := Reversed(path);
    forall k | 0 <= k < |back| - 1
      ensures Adjacent(back[k], back[k + 1])
    {
      assert Adjacent(path[|path| - 2 - k], path[|path| - 1 - k]);
    }
    assert IsPath(outline, back);
  }

  /** Connectivity is transitive: join the two paths. */
  lemma ReachableTransitive(outline: Bitmap, s: Pos, t: Pos, u: Pos)
    requires Reachable(outline, s, t) && Reachable(outline, t, u)
    ensures Reachable(outline, s, u)
  {
    var p1 :| IsPath(outline, p1) && p1[0] == s && p1[|p1| - 1] == t;
    var p2 :| IsPath(outline, p2) && p2[0] == t && p2[|p2| - 1] == u;
    var joined := p1 + p2[1..];
    forall k | 0 <= k < |joined| - 1
      ensures Adjacent(joined[k], joined[k + 1])
    {
      if k < |p1| - 1 {
        assert joined[k] == p1[k] && joined[k + 1] == p1[k + 1];
      } else {
        assert joined[k] == p2[k - |p1| + 1] && joined[k + 1] == p2[k - |p1| + 2];
      }
    }
    assert IsPath(outline, joined);
  }

  /** Filling from any pixel of a region fills the same region: the region
      does not depend on where inside it the user taps. */
  lemma RegionOfMember(outline: Bitmap, s: Pos, t: Pos)
    requires t in Region(outline, s)
    ensures Region(outline, t) == Region(outline, s)
  {
    forall u | u in Region(outline, t)
      ensures u in Region(outline, s)
    {
      ReachableTransitive(outline, s, t, u);
    }
    forall u | u in Region(outline, s)
      ensures u in Region(outline, t)
    {
      ReachableSymmetric(outline, s, t);
      ReachableTransitive(outline, t, s, u);
    }
  }

  /** Two regions of the same outline are the same or share no pixel, so
      any two fills either repaint one region or touch disjoint ones. */
  lemma RegionsEqualOrDisjoint(outline: Bitmap, s: Pos, t: Pos)
    ensures Region(outline, s) == Region(outline, t) || Region(outline, s) !! Region(outline, t)
  {
    if u :| u in Region(outline, s) && u in Region(outline, t) {
      RegionOfMember(outline, s, u);
      RegionOfMember(outline, t, u);
    }
  }

  /** Every open 4-neighbour of `q` belongs to `V`. */
  ghost predicate NeighborsIn(outline: Bitmap, V: set<Pos>, q: Pos) {
    (Open(outline, Left(q)) ==> Left(q) in V) &&
    (Open(outline, Right(q)) ==> Right(q) in V) &&
    (Open(outline, Up(q)) ==> Up(q) in V) &&
    (Open(outline, Down(q)) ==> Down(q) in V)
  }

  /** A set that holds the seed and is closed under stepping to open
      neighbours holds the whole region of the seed. */
  lemma ClosedContainsRegion(outline: Bitmap, seed: Pos, V: set<Pos>)
    requires seed in V
    requires forall q :: q in V ==> NeighborsIn(outline, V, q)
    ensures Region(outline, seed) <= V
  {
    forall t | Reachable(outline, seed, t)
      ensures t in V
    {
      var path :| IsPath(outline, path) && path[0] == seed && path[|path| - 1] == t;
      PathStaysIn(outline, V, path, |path| - 1);
    }
  }

  lemma {:induction false} PathStaysIn(outline: Bitmap, V: set<Pos>, path: seq<Pos>, k: nat)
    requires IsPath(outline, path) && path[0] in V && k < |path|
    requires forall q :: q in V ==> NeighborsIn(outline, V, q)
    ensures path[k] in V
  {
    if k > 0 {
      PathStaysIn(outline, V, path, k - 1);
      assert Adjacent(path[k - 1], path[k]);
      assert Open(outline, path[k]);
      assert NeighborsIn(outline, V, path[k - 1]);
    }
  }
}
