/** `floodMaskFromOutline`: breadth-first search over the 4-connected pixels
    of the outline image that are not ink, producing a mask bitmap the size
    of the tight bounding box and that box as a half-open rectangle. */
module Flood {
  import opened Pixels
  import opened Raster
  import opened Reach
  import opened Wrappers

  /** `android.graphics.Rect`: half-open on the right and bottom. */
  datatype Rect = Rect(left: int, top: int, right: int, bottom: int) {
    function Width(): int { right - left }
    function Height(): int { bottom - top }
    predicate Contains(p: Pos) {
      left <= p.x < right && top <= p.y < bottom
    }
  }

  /** The pair (mask, rect) the fill returns. */
  datatype MaskAndRect = MaskAndRect(mask: Bitmap, rect: Rect)

  /** `r` contains every position of `S`, and each of its four edges is
      touched by some position of `S`. */
  ghost predicate IsBoundingBox(S: set<Pos>, r: Rect) {
    (forall p :: p in S ==> r.Contains(p)) &&
    (exists p :: p in S && p.x == r.left) &&
    (exists p :: p in S && p.x == r.right - 1) &&
    (exists p :: p in S && p.y == r.top) &&
    (exists p :: p in S && p.y == r.bottom - 1)
  }

  /** A bounding box is the tightest rectangle: any rectangle containing
      all of `S` contains it. */
  lemma BoundingBoxIsTightest(S: set<Pos>, r: Rect, r': Rect)
    requires IsBoundingBox(S, r)
    requires forall p :: p in S ==> r'.Contains(p)
    ensures r'.left <= r.left && r.right <= r'.right
    ensures r'.top <= r.top && r.bottom <= r'.bottom
  {
    var a :| a in S && a.x == r.left;
    var b :| b in S && b.x == r.right - 1;
    var c :| c in S && c.y == r.top;
    var d :| d in S && d.y == r.bottom - 1;
    assert r'.Contains(a) && r'.Contains(b) && r'.Contains(c) && r'.Contains(d);
  }

  /** The mask pixel at (xx, yy) is opaque black when (left + xx, top + yy)
      belongs to the region and transparent otherwise; the mask is exactly
      as large as the rectangle. */
  ghost predicate IsMaskOf(region: set<Pos>, r: Rect, mask: Bitmap) {
    mask.width == r.Width() && mask.height == r.Height() &&
    forall q :: InBounds(mask.width, mask.height, q) ==>
      Pixel(mask, q) == if Pos(r.left + q.x, r.top + q.y) in region then OPAQUE_BLACK else TRANSPARENT
  }

  /** The visited array marks exactly the positions of `V`. */
  ghost predicate Mirrors(w: nat, h: nat, visited: seq<bool>, V: set<Pos>) {
    |visited| == w * h &&
    forall p :: InBounds(w, h, p) ==> (visited[Idx(w, h, p)] <==> p in V)
  }

  /** The index queue holds the indices of the positions of `Q`, in order. */
  ghost predicate QueueMirrors(w: nat, h: nat, queue: seq<nat>, Q: seq<Pos>) {
    |queue| == |Q| &&
    forall k :: 0 <= k < |Q| ==> InBounds(w, h, Q[k]) && queue[k] == Idx(w, h, Q[k])
  }

  /** Every position of `V` is an open pixel connected to `seed`. */
  ghost predicate AllReached(outline: Bitmap, seed: Pos, V: set<Pos>) {
    forall q :: q in V ==> Open(outline, q) && Reachable(outline, seed, q)
  }

  /** `(V', Q')` is `(V, Q)` with new positions marked and appended to the
      queue, each once. */
  ghost predicate Extends(V: set<Pos>, Q: seq<Pos>, V': set<Pos>, Q': seq<Pos>) {
    |Q| <= |Q'| && Q'[..|Q|] == Q &&
    (forall q :: q in V' <==> q in V || q in Q'[|Q|..]) &&
    (forall k :: |Q| <= k < |Q'| ==> Q'[k] !in V) &&
    (forall j, k :: |Q| <= j < k < |Q'| ==> Q'[j] != Q'[k])
  }

  lemma ExtendsTransitive(V: set<Pos>, Q: seq<Pos>, V1: set<Pos>, Q1: seq<Pos>, V2: set<Pos>, Q2: seq<Pos>)
    requires Extends(V, Q, V1, Q1) && Extends(V1, Q1, V2, Q2)
    ensures Extends(V, Q, V2, Q2)
  {
    assert Q2[..|Q|] == Q1[..|Q|];
    forall q ensures q in V2 <==> q in V || q in Q2[|Q|..] {
      if q in Q2[|Q|..] {
        var k :| |Q| <= k < |Q2| && Q2[k] == q;
        if k < |Q1| { assert Q1[k] == q; assert q in Q1[|Q|..]; }
        else { assert q in Q2[|Q1|..]; }
      }
      if q in Q1[|Q|..] {
        var k :| |Q| <= k < |Q1| && Q1[k] == q;
        assert Q2[k] == q;
      }
    }
    forall j, k | |Q| <= j < k < |Q2| ensures Q2[j] != Q2[k] {
      if j < |Q1| && k >= |Q1| {
        assert Q2[j] == Q1[j] && Q1[j] in Q1[|Q|..];
      }
    }
  }

  /** Marking a new in-bounds position and appending it to the queue
      keeps both mirrors and extends the search state by that position. */
  lemma MarkOne(w: nat, h: nat, visited: seq<bool>, queue: seq<nat>, V: set<Pos>, Q: seq<Pos>, p: Pos)
    requires InBounds(w, h, p) && p !in V
    requires Mirrors(w, h, visited, V) && QueueMirrors(w, h, queue, Q)
    ensures Mirrors(w, h, visited[Idx(w, h, p) := true], V + {p})
    ensures QueueMirrors(w, h, queue + [Idx(w, h, p)], Q + [p])
    ensures Extends(V, Q, V + {p}, Q + [p])
  {
    IdxInjective(w, h);
    assert (Q + [p])[|Q|..] == [p];
  }

  /** The pushes made so far from the state `(V0, Q0)`: the visited
      array and the index queue mirror `(V, Q)`, every marked pixel is
      reached from the seed, and `(V, Q)` extends `(V0, Q0)`. */
  ghost predicate Pushed(outline: Bitmap, seed: Pos, visited: seq<bool>, queue: seq<nat>,
                         V0: set<Pos>, Q0: seq<Pos>, V: set<Pos>, Q: seq<Pos>) {
    Mirrors(outline.width, outline.height, visited, V) &&
    QueueMirrors(outline.width, outline.height, queue, Q) &&
    AllReached(outline, seed, V) && Extends(V0, Q0, V, Q)
  }

  lemma NothingPushed(outline: Bitmap, seed: Pos, visited: seq<bool>, queue: seq<nat>, V: set<Pos>, Q: seq<Pos>)
    requires Mirrors(outline.width, outline.height, visited, V)
    requires QueueMirrors(outline.width, outline.height, queue, Q)
    requires AllReached(outline, seed, V)
    ensures Pushed(outline, seed, visited, queue, V, Q, V, Q)
  {
    assert Q[|Q|..] == [];
  }

  /** The visited set and queue after `dequePush(p)`: `p` is marked and
      appended when it is open and not marked yet; otherwise nothing
      changes. */
  ghost function Enqueue(outline: Bitmap, V: set<Pos>, Q: seq<Pos>, p: Pos): (set<Pos>, seq<Pos>) {
    if Open(outline, p) && p !in V then (V + {p}, Q + [p]) else (V, Q)
  }

  /** The visited set and queue after the four guarded pushes for `p`,
      in the source's order: left, right, up, down. A neighbour outside
      the image is not open, so its skipped push is a no-op here too. */
  ghost function EnqueueNeighbors(outline: Bitmap, V: set<Pos>, Q: seq<Pos>, p: Pos): (set<Pos>, seq<Pos>) {
    var (V1, Q1) := Enqueue(outline, V, Q, Left(p));
    var (V2, Q2) := Enqueue(outline, V1, Q1, Right(p));
    var (V3, Q3) := Enqueue(outline, V2, Q2, Up(p));
    Enqueue(outline, V3, Q3, Down(p))
  }

  /** The pushes for `p` mark exactly its open neighbours that were not
      marked yet: nothing beyond the four neighbours is ever marked. */
  lemma EnqueueNeighborsMarks(outline: Bitmap, V: set<Pos>, Q: seq<Pos>, p: Pos)
    ensures forall q :: q in EnqueueNeighbors(outline, V, Q, p).0 <==> q in V || (Adjacent(p, q) && Open(outline, q))
    ensures |EnqueueNeighbors(outline, V, Q, p).1| <= |Q| + 4
  {
  }

  /** `dequePush(x, y)`: enqueue the pixel and mark it visited if it is
      neither visited yet nor a wall. */
  method DequePush(outline: Bitmap, visited: array<bool>, queue: seq<nat>, x: int, y: int,
                   ghost seed: Pos, ghost from: Pos, ghost V0: set<Pos>, ghost Q0: seq<Pos>,
                   ghost V: set<Pos>, ghost Q: seq<Pos>)
    returns (queue': seq<nat>, ghost V': set<Pos>, ghost Q': seq<Pos>)
    requires InBounds(outline.width, outline.height, Pos(x, y))
    requires Pushed(outline, seed, visited[..], queue, V0, Q0, V, Q)
    requires Reachable(outline, seed, from) && (from == Pos(x, y) || Adjacent(from, Pos(x, y)))
    modifies visited
    ensures Pushed(outline, seed, visited[..], queue', V0, Q0, V', Q')
    ensures (V', Q') == Enqueue(outline, V, Q, Pos(x, y))
  {
    var w, h := outline.width, outline.height;
    var i := y * w + x;
    assert i == Idx(w, h, Pos(x, y));
    if !visited[i] && !IsOutlineWall(outline, Pos(x, y)) {
      MarkOne(w, h, visited[..], queue, V, Q, Pos(x, y));
      visited[i] := true;
      queue' := queue + [i];
      V', Q' := V + {Pos(x, y)}, Q + [Pos(x, y)];
      if from != Pos(x, y) {
        ReachableStep(outline, seed, from, Pos(x, y));
      }
      ExtendsTransitive(V0, Q0, V, Q, V', Q');
    } else {
      queue', V', Q' := queue, V, Q;
    }
  }

  /** The four guarded `dequePush` calls made for a pixel taken off the
      queue: afterwards every open 4-neighbour of it is marked. */
  method PushNeighbors(outline: Bitmap, visited: array<bool>, queue: seq<nat>, x: int, y: int,
                       ghost seed: Pos, ghost V: set<Pos>, ghost Q: seq<Pos>)
    returns (queue': seq<nat>, ghost V': set<Pos>, ghost Q': seq<Pos>)
    requires InBounds(outline.width, outline.height, Pos(x, y)) && Pos(x, y) in V
    requires Pushed(outline, seed, visited[..], queue, V, Q, V, Q)
    modifies visited
    ensures Pushed(outline, seed, visited[..], queue', V, Q, V', Q')
    ensures (V', Q') == EnqueueNeighbors(outline, V, Q, Pos(x, y))
    ensures NeighborsIn(outline, V', Pos(x, y))
  {
    var w, h := outline.width, outline.height;
    ghost var p := Pos(x, y);
    assert Reachable(outline, seed, p);
    queue', V', Q' := PushIf(x > 0, outline, visited, queue, x - 1, y, seed, p, V, Q, V, Q);
    queue', V', Q' := PushIf(x + 1 < w, outline, visited, queue', x + 1, y, seed, p, V, Q, V', Q');
    queue', V', Q' := PushIf(y > 0, outline, visited, queue', x, y - 1, seed, p, V, Q, V', Q');
    queue', V', Q' := PushIf(y + 1 < h, outline, visited, queue', x, y + 1, seed, p, V, Q, V', Q');
    EnqueueNeighborsMarks(outline, V, Q, p);
  }

  /** `if (guard) dequePush(x, y)`, where the guard fails only for a
      neighbour outside the image: either way the state becomes
      `Enqueue(V, Q, (x, y))`. */
  method PushIf(guard: bool, outline: Bitmap, visited: array<bool>, queue: seq<nat>, x: int, y: int,
                ghost seed: Pos, ghost from: Pos, ghost V0: set<Pos>, ghost Q0: seq<Pos>,
                ghost V: set<Pos>, ghost Q: seq<Pos>)
    returns (queue': seq<nat>, ghost V': set<Pos>, ghost Q': seq<Pos>)
    requires guard <==> InBounds(outline.width, outline.height, Pos(x, y))
    requires Pushed(outline, seed, visited[..], queue, V0, Q0, V, Q)
    requires Reachable(outline, seed, from) && Adjacent(from, Pos(x, y))
    modifies visited
    ensures Pushed(outline, seed, visited[..], queue', V0, Q0, V', Q')
    ensures (V', Q') == Enqueue(outline, V, Q, Pos(x, y))
  {
    if guard {
      queue', V', Q' := DequePush(outline, visited, queue, x, y, seed, from, V0, Q0, V, Q);
    } else {
      queue', V', Q' := queue, V, Q;
    }
  }

  /** The state the search keeps between iterations: `V` is the visited
      set, `Q` the queue and `Done` the pixels already taken off it. The
      queue holds no position twice, and the neighbours of every pixel taken
      off it are visited. */
  ghost predicate SearchInvariant(outline: Bitmap, seed: Pos, V: set<Pos>, Q: seq<Pos>, Done: set<Pos>) {
    seed in V && AllReached(outline, seed, V) && QueueState(V, Q, Done) &&
    (forall q :: q in Done ==> NeighborsIn(outline, V, q))
  }

  /** The visited set is split between the pixels done and the queue,
      which holds no position twice. */
  ghost predicate QueueState(V: set<Pos>, Q: seq<Pos>, Done: set<Pos>) {
    (forall q :: q in V <==> q in Done || q in Q) &&
    (forall q :: q in Done ==> q !in Q) &&
    Distinct(Q)
  }

  ghost predicate Distinct(Q: seq<Pos>) {
    forall j, k :: 0 <= j < k < |Q| ==> Q[j] != Q[k]
  }

  /** Taking the head `p` off the queue and appending the new positions
      keeps the split, with `p` moved to the pixels done. */
  lemma PopQueue(V: set<Pos>, Q: seq<Pos>, Done: set<Pos>, V': set<Pos>, Q': seq<Pos>)
    requires QueueState(V, Q, Done) && |Q| > 0 && Extends(V, Q[1..], V', Q')
    ensures QueueState(V', Q', Done + {Q[0]})
  {
    var p := Q[0];
    assert Q == [p] + Q[1..];
    assert Q'[..|Q| - 1] == Q[1..];
    forall q ensures q in V' <==> q in Done + {p} || q in Q' {
      if q in Q[1..] {
        var k :| 0 <= k < |Q| - 1 && Q[1..][k] == q;
        assert Q'[k] == q;
      }
      if q in Q' && q !in Q'[|Q| - 1..] {
        var k :| 0 <= k < |Q'| && Q'[k] == q;
        assert q in Q[1..];
      }
    }
    PopDisjoint(V, Q, Done, V', Q');
    PopDistinct(V, Q, Done, V', Q');
  }

  lemma PopDisjoint(V: set<Pos>, Q: seq<Pos>, Done: set<Pos>, V': set<Pos>, Q': seq<Pos>)
    requires QueueState(V, Q, Done) && |Q| > 0 && Extends(V, Q[1..], V', Q')
    ensures forall q :: q in Done + {Q[0]} ==> q !in Q'
  {
    forall q | q in Done + {Q[0]} ensures q !in Q' {
      assert q in V;
      assert forall k :: 0 <= k < |Q| - 1 ==> Q'[k] == Q[k + 1];
    }
  }

  lemma PopDistinct(V: set<Pos>, Q: seq<Pos>, Done: set<Pos>, V': set<Pos>, Q': seq<Pos>)
    requires QueueState(V, Q, Done) && |Q| > 0 && Extends(V, Q[1..], V', Q')
    ensures Distinct(Q')
  {
    forall j, k | 0 <= j < k < |Q'| ensures Q'[j] != Q'[k] {
      if k < |Q| - 1 {
        assert Q'[j] == Q[j + 1] && Q'[k] == Q[k + 1];
      } else if j < |Q| - 1 {
        assert Q'[j] == Q[j + 1] && Q'[j] in V;
      }
    }
  }

  /** Taking the head `p` off the queue and pushing its neighbours keeps
      the invariant, with `p` added to the pixels done. */
  lemma PopKeepsInvariant(outline: Bitmap, seed: Pos, V: set<Pos>, Q: seq<Pos>, Done: set<Pos>,
                          V': set<Pos>, Q': seq<Pos>)
    requires SearchInvariant(outline, seed, V, Q, Done) && |Q| > 0
    requires Extends(V, Q[1..], V', Q') && AllReached(outline, seed, V')
    requires NeighborsIn(outline, V', Q[0])
    ensures SearchInvariant(outline, seed, V', Q', Done + {Q[0]})
  {
    PopQueue(V, Q, Done, V', Q');
    forall q | q in Done + {Q[0]} ensures NeighborsIn(outline, V', q) {
      if q != Q[0] {
        assert NeighborsIn(outline, V, q);
      }
    }
  }

  lemma {:induction false} SubsetSize<T>(A: set<T>, B: set<T>)
    requires A <= B
    ensures |A| <= |B|
  {
    if A != {} {
      var a :| a in A;
      SubsetSize(A - {a}, B - {a});
    }
  }

  /** The running bounding box `minX, maxX, minY, maxY` of the search. */
  datatype Box = Box(minX: int, maxX: int, minY: int, maxY: int) {
    predicate Holds(p: Pos) {
      minX <= p.x <= maxX && minY <= p.y <= maxY
    }
    function ToRect(): Rect {
      Rect(minX, minY, maxX + 1, maxY + 1)
    }
  }

  /** Everything the search keeps between iterations: the visited array
      and the index queue mirror `V` and `Q`, the search invariant holds,
      every pixel done lies in the box, the box holds the seed, and each
      edge of the box is attained by a visited pixel (`wit` lists one pixel
      per edge: left, right, top, bottom). */
  ghost predicate SearchState(outline: Bitmap, seed: Pos, visited: seq<bool>, queue: seq<nat>, box: Box,
                              V: set<Pos>, Q: seq<Pos>, Done: set<Pos>, wit: seq<Pos>)
  {
    Mirrors(outline.width, outline.height, visited, V) &&
    QueueMirrors(outline.width, outline.height, queue, Q) &&
    SearchInvariant(outline, seed, V, Q, Done) &&
    (forall q :: q in Done ==> box.Holds(q)) &&
    box.Holds(seed) &&
    |wit| == 4 && wit[0] in V && wit[1] in V && wit[2] in V && wit[3] in V &&
    wit[0].x == box.minX && wit[1].x == box.maxX && wit[2].y == box.minY && wit[3].y == box.maxY
  }

  /** `if (x < minX) minX = x` and its three companions: widen the box to
      hold (x, y), recording (x, y) as the witness of every edge it moves. */
  method Widen(box: Box, x: int, y: int, ghost wit: seq<Pos>) returns (box': Box, ghost wit': seq<Pos>)
    requires |wit| == 4
    requires wit[0].x == box.minX && wit[1].x == box.maxX && wit[2].y == box.minY && wit[3].y == box.maxY
    ensures box'.Holds(Pos(x, y))
    ensures forall q :: box.Holds(q) ==> box'.Holds(q)
    ensures (box'.minX == box.minX || box'.minX == x) && (box'.maxX == box.maxX || box'.maxX == x)
    ensures (box'.minY == box.minY || box'.minY == y) && (box'.maxY == box.maxY || box'.maxY == y)
    ensures |wit'| == 4 && forall k :: 0 <= k < 4 ==> wit'[k] == wit[k] || wit'[k] == Pos(x, y)
    ensures wit'[0].x == box'.minX && wit'[1].x == box'.maxX && wit'[2].y == box'.minY && wit'[3].y == box'.maxY
  {
    var minX, maxX, minY, maxY := box.minX, box.maxX, box.minY, box.maxY;
    wit' := wit;
    if x < minX { minX := x; wit' := wit'[0 := Pos(x, y)]; }
    if x > maxX { maxX := x; wit' := wit'[1 := Pos(x, y)]; }
    if y < minY { minY := y; wit' := wit'[2 := Pos(x, y)]; }
    if y > maxY { maxY := y; wit' := wit'[3 := Pos(x, y)]; }
    box' := Box(minX, maxX, minY, maxY);
  }

  /** One iteration of the `while (floodFillDeque.isNotEmpty())` loop: take
      the head index off the queue, widen the box to it and push its
      neighbours. */
  method SearchStep(outline: Bitmap, visited: array<bool>, queue: seq<nat>, box: Box, ghost seed: Pos,
                    ghost V: set<Pos>, ghost Q: seq<Pos>, ghost Done: set<Pos>, ghost wit: seq<Pos>)
    returns (queue': seq<nat>, box': Box, ghost V': set<Pos>, ghost Q': seq<Pos>,
             ghost Done': set<Pos>, ghost wit': seq<Pos>)
    requires SearchState(outline, seed, visited[..], queue, box, V, Q, Done, wit) && queue != []
    modifies visited
    ensures SearchState(outline, seed, visited[..], queue', box', V', Q', Done', wit')
    ensures Done' == Done + {Q[0]} && |Done'| == |Done| + 1
    ensures (V', Q') == EnqueueNeighbors(outline, V, Q[1..], Q[0])
    ensures box'.Holds(Q[0]) && forall q :: box.Holds(q) ==> box'.Holds(q)
    ensures (box'.minX == box.minX || box'.minX == Q[0].x) && (box'.maxX == box.maxX || box'.maxX == Q[0].x)
    ensures (box'.minY == box.minY || box'.minY == Q[0].y) && (box'.maxY == box.maxY || box'.maxY == Q[0].y)
    ensures Grid(outline.width, outline.height) - V' < Grid(outline.width, outline.height) - V ||
            (V' == V && |queue'| < |queue|)
  {
    var w := outline.width;
    var i := queue[0];
    queue' := queue[1..];
    ghost var p := Q[0];
    Q' := Q[1..];
    PopHead(outline, seed, visited[..], queue, box, V, Q, Done, wit);
    var xy := PosOf(w, i);  // (i % w, i / w)
    var x, y := xy.x, xy.y;

    box', wit' := Widen(box, x, y, wit);

    queue', V', Q' := PushNeighbors(outline, visited, queue', x, y, seed, V, Q');
    Done' := Done + {p};
    StepDone(outline, seed, visited[..], queue', box, box', V, Q, Done, wit, V', Q', wit');
  }

  /** The head of the queue is an in-bounds, visited pixel not yet done,
      whose index decodes back to it, and the rest of the queue is a
      starting point for pushes. */
  lemma PopHead(outline: Bitmap, seed: Pos, visited: seq<bool>, queue: seq<nat>, box: Box,
                V: set<Pos>, Q: seq<Pos>, Done: set<Pos>, wit: seq<Pos>)
    requires SearchState(outline, seed, visited, queue, box, V, Q, Done, wit) && queue != []
    ensures InBounds(outline.width, outline.height, Q[0]) && Q[0] in V && Q[0] !in Done
    ensures outline.width > 0 && PosOf(outline.width, queue[0]) == Q[0]
    ensures Pushed(outline, seed, visited, queue[1..], V, Q[1..], V, Q[1..])
  {
    PosOfIdx(outline.width, outline.height, Q[0]);
    NothingPushed(outline, seed, visited, queue[1..], V, Q[1..]);
  }

  /** After the head `p` is done and its neighbours pushed, the search
      state holds again with one more pixel done, and either a pixel was
      newly marked or the queue got shorter. */
  lemma StepDone(outline: Bitmap, seed: Pos, visited: seq<bool>, queue: seq<nat>, box: Box, box': Box,
                 V: set<Pos>, Q: seq<Pos>, Done: set<Pos>, wit: seq<Pos>,
                 V': set<Pos>, Q': seq<Pos>, wit': seq<Pos>)
    requires SearchInvariant(outline, seed, V, Q, Done) && |Q| > 0 && Q[0] !in Done
    requires (forall q :: q in Done ==> box.Holds(q)) && box.Holds(seed)
    requires |wit| == 4 && wit[0] in V && wit[1] in V && wit[2] in V && wit[3] in V
    requires Pushed(outline, seed, visited, queue, V, Q[1..], V', Q') && NeighborsIn(outline, V', Q[0])
    requires box'.Holds(Q[0]) && forall q :: box.Holds(q) ==> box'.Holds(q)
    requires |wit'| == 4 && forall k :: 0 <= k < 4 ==> wit'[k] == wit[k] || wit'[k] == Q[0]
    requires wit'[0].x == box'.minX && wit'[1].x == box'.maxX && wit'[2].y == box'.minY && wit'[3].y == box'.maxY
    ensures SearchState(outline, seed, visited, queue, box', V', Q', Done + {Q[0]}, wit')
    ensures |Done + {Q[0]}| == |Done| + 1
    ensures Grid(outline.width, outline.height) - V' < Grid(outline.width, outline.height) - V ||
            (V' == V && |Q'| < |Q|)
  {
    PopKeepsInvariant(outline, seed, V, Q, Done, V', Q');
    SearchProgresses(outline, seed, V, Q[1..], V', Q');
    assert V <= V';
  }

  /** The set-up before the loop: an all-false visited array, the seed
      pushed, and the box shrunk to the seed. */
  method StartSearch(outline: Bitmap, seed: Pos)
    returns (visited: array<bool>, queue: seq<nat>, box: Box,
             ghost V: set<Pos>, ghost Q: seq<Pos>, ghost Done: set<Pos>, ghost wit: seq<Pos>)
    requires Open(outline, seed)
    ensures fresh(visited)
    ensures SearchState(outline, seed, visited[..], queue, box, V, Q, Done, wit) && Done == {}
    ensures V == {seed} && Q == [seed] && queue == [Idx(outline.width, outline.height, seed)]
    ensures box == Box(seed.x, seed.x, seed.y, seed.y)
  {
    visited := new bool[outline.width * outline.height](_ => false);
    queue := [];
    V, Q, Done := {}, [], {};
    ReachableSelf(outline, seed);
    NothingPushed(outline, seed, visited[..], queue, V, Q);
    queue, V, Q := DequePush(outline, visited, queue, seed.x, seed.y, seed, seed, V, Q, V, Q);
    assert Q[0..] == Q;
    box := Box(seed.x, seed.x, seed.y, seed.y);
    wit := [seed, seed, seed, seed];
  }

  /** The search part of `floodMaskFromOutline`: from an open seed, visit
      every pixel 4-connected to it through open pixels, tracking the
      bounding box of the pixels taken off the queue. On return the visited
      array marks exactly the region of the seed, the box is its tight
      bounding box, and the loop ran once per region pixel, so at most
      `width * height` times. */
  method Traverse(outline: Bitmap, seed: Pos)
    returns (visited: array<bool>, box: Box, ghost steps: nat)
    requires Open(outline, seed)
    ensures fresh(visited)
    ensures Mirrors(outline.width, outline.height, visited[..], Region(outline, seed))
    ensures IsBoundingBox(Region(outline, seed), box.ToRect())
    ensures steps == |Region(outline, seed)| <= outline.width * outline.height
  {
    var queue;
    ghost var V, Q, Done, wit;
    visited, queue, box, V, Q, Done, wit := StartSearch(outline, seed);
    steps := 0;
    while queue != []
      invariant SearchState(outline, seed, visited[..], queue, box, V, Q, Done, wit)
      invariant steps == |Done|
      decreases Grid(outline.width, outline.height) - V, |queue|
    {
      queue, box, V, Q, Done, wit := SearchStep(outline, visited, queue, box, seed, V, Q, Done, wit);
      steps := steps + 1;
    }
    SearchComplete(outline, seed, visited[..], box, V, Q, Done, wit);
  }

  /** Each iteration either marks a new pixel or shortens the queue. */
  lemma SearchProgresses(outline: Bitmap, seed: Pos, V: set<Pos>, Q: seq<Pos>, V': set<Pos>, Q': seq<Pos>)
    requires Extends(V, Q, V', Q') && AllReached(outline, seed, V')
    ensures Grid(outline.width, outline.height) - V' < Grid(outline.width, outline.height) - V ||
            (V' == V && |Q'| == |Q|)
  {
    var G := Grid(outline.width, outline.height);
    if |Q'| > |Q| {
      var n := Q'[|Q|];
      assert n in Q'[|Q|..];
      assert n in V' && n !in V;
      ReachableIsOpen(outline, seed, n);
      assert n in G - V && n !in G - V';
    } else {
      assert Q'[|Q|..] == [];
      assert V' == V;
    }
  }

  /** When the queue is empty, the pixels done are the region of the seed,
      the visited array marks exactly that region, and the tracked box is
      its tight bounding box. */
  lemma SearchComplete(outline: Bitmap, seed: Pos, visited: seq<bool>, box: Box,
                       V: set<Pos>, Q: seq<Pos>, Done: set<Pos>, wit: seq<Pos>)
    requires SearchState(outline, seed, visited, [], box, V, Q, Done, wit)
    ensures V == Done == Region(outline, seed)
    ensures Mirrors(outline.width, outline.height, visited, Region(outline, seed))
    ensures IsBoundingBox(Region(outline, seed), box.ToRect())
    ensures |Done| <= outline.width * outline.height
  {
    assert Q == [];
    assert V == Done;
    ClosedContainsRegion(outline, seed, V);
    GridSize(outline.width, outline.height);
    SubsetSize(V, Grid(outline.width, outline.height));
    assert wit[0].x == box.ToRect().left;
  }

  /** The mask pixel for position (xx, yy) of a mask whose origin is `r`'s
      top-left corner. */
  ghost function MaskPixel(region: set<Pos>, r: Rect, q: Pos): Color {
    if Pos(r.left + q.x, r.top + q.y) in region then OPAQUE_BLACK else TRANSPARENT
  }

  /** The inner loop of the mask writer: `row[xx]` becomes `0xFF shl 24`
      where pixel (minX + xx, y) was visited and 0 elsewhere. */
  method FillRow(visited: array<bool>, w: nat, h: nat, minX: nat, y: nat, row: array<Color>, ghost V: set<Pos>)
    requires Mirrors(w, h, visited[..], V) && minX + row.Length <= w && y < h
    modifies row
    ensures forall xx :: 0 <= xx < row.Length ==>
      row[xx] == if Pos(minX + xx, y) in V then OPAQUE_BLACK else TRANSPARENT
  {
    for xx := 0 to row.Length
      invariant forall k :: 0 <= k < xx ==>
        row[k] == if Pos(minX + k, y) in V then OPAQUE_BLACK else TRANSPARENT
    {
      var x := minX + xx;
      var i := y * w + x;
      assert i == Idx(w, h, Pos(x, y));
      var alpha := if visited[i] then 0xFF else 0x00;
      row[xx] := alpha * 0x100_0000;  // alpha shl 24
    }
  }

  /** The mask-writing part of `floodMaskFromOutline`: a `bw` by `bh` bitmap,
      written one row at a time through the reused `row` buffer, opaque
      exactly where the visited array is set. */
  method WriteMask(visited: array<bool>, w: nat, h: nat, box: Box, ghost V: set<Pos>) returns (mask: Bitmap)
    requires 0 <= box.minX <= box.maxX < w && 0 <= box.minY <= box.maxY < h
    requires Mirrors(w, h, visited[..], V)
    ensures IsMaskOf(V, box.ToRect(), mask)
  {
    var minX, minY := box.minX, box.minY;
    var bw := box.maxX - minX + 1;
    var bh := box.maxY - minY + 1;
    ghost var r := box.ToRect();
    var rows := new seq<Color>[bh](_ => seq(bw, _ => TRANSPARENT));  // createBitmap(bw, bh)
    var row := new Color[bw];
    for yy := 0 to bh
      invariant forall y :: 0 <= y < bh ==> |rows[y]| == bw
      invariant forall q :: InBounds(bw, bh, q) && q.y < yy ==> rows[q.y][q.x] == MaskPixel(V, r, q)
    {
      FillRow(visited, w, h, minX, minY + yy, row, V);
      rows[yy] := row[..];  // mask.setPixels(row, 0, bw, 0, yy, bw, 1)
    }
    mask := Image(bw, bh, rows[..]);
  }

  /** The bounding box of an open pixel's region holds the pixel and lies
      inside the image. */
  lemma RegionBoxInside(outline: Bitmap, seed: Pos, r: Rect)
    requires Open(outline, seed) && IsBoundingBox(Region(outline, seed), r)
    ensures r.Contains(seed)
    ensures 0 <= r.left && r.right <= outline.width && 0 <= r.top && r.bottom <= outline.height
  {
    ReachableSelf(outline, seed);
    var a :| a in Region(outline, seed) && a.x == r.left;
    var b :| b in Region(outline, seed) && b.x == r.right - 1;
    var c :| c in Region(outline, seed) && c.y == r.top;
    var d :| d in Region(outline, seed) && d.y == r.bottom - 1;
    ReachableIsOpen(outline, seed, a);
    ReachableIsOpen(outline, seed, b);
    ReachableIsOpen(outline, seed, c);
    ReachableIsOpen(outline, seed, d);
  }

  /** `floodMaskFromOutline(outline, seedX, seedY)`: no result when the seed
      lies outside the image or on a wall; otherwise the tight bounding box
      of the seed's region as a half-open `Rect`, and a mask of exactly that
      size which is opaque precisely on the region's pixels. The result is
      determined by the outline and the seed alone, whatever order the
      queue visits pixels in. */
  method FloodMaskFromOutline(outline: Bitmap, seedX: int, seedY: int) returns (result: Option<MaskAndRect>)
    ensures result.None? <==>
      !InBounds(outline.width, outline.height, Pos(seedX, seedY)) || IsOutlineWall(outline, Pos(seedX, seedY))
    ensures result.Some? ==>
      IsBoundingBox(Region(outline, Pos(seedX, seedY)), result.value.rect) &&
      IsMaskOf(Region(outline, Pos(seedX, seedY)), result.value.rect, result.value.mask) &&
      result.value.rect.Contains(Pos(seedX, seedY))
  {
    var w, h := outline.width, outline.height;
    if !(0 <= seedX < w && 0 <= seedY < h) {
      return None;
    }
    var seed := Pos(seedX, seedY);
    if IsOutlineWall(outline, seed) {
      return None;
    }
    var visited, box, steps := Traverse(outline, seed);
    ghost var region := Region(outline, seed);
    RegionBoxInside(outline, seed, box.ToRect());
    if box.minX > box.maxX || box.minY > box.maxY {
      assert false;  // the box holds the seed
    }
    var mask := WriteMask(visited, w, h, box, region);
    return Some(MaskAndRect(mask, box.ToRect()));
  }
}
