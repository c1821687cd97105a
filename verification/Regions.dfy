/** Cells of an image and what a flood fill has to reach. */
module Regions {
  import opened Segments

  datatype Cell = Cell(x: int, y: int)

  // Eight-connectivity; a cell is near itself.
  ghost predicate Near(a: Cell, b: Cell) {
    -1 <= a.x - b.x <= 1 && -1 <= a.y - b.y <= 1
  }

  /** The cell itself and the eight around it. */
  lemma EightNeighbours(a: Cell, b: Cell)
    ensures Near(a, b)
            <==> b in {Cell(a.x - 1, a.y - 1), Cell(a.x, a.y - 1), Cell(a.x + 1, a.y - 1),
                       Cell(a.x - 1, a.y), a, Cell(a.x + 1, a.y),
                       Cell(a.x - 1, a.y + 1), Cell(a.x, a.y + 1), Cell(a.x + 1, a.y + 1)}
  {
    assert a == Cell(a.x, a.y) && b == Cell(b.x, b.y);
  }

  // A path from its first cell on, through matching cells only.
  ghost predicate IsPath(m: set<Cell>, path: seq<Cell>) {
    |path| > 0 && forall i :: 0 < i < |path| ==> Near(path[i - 1], path[i]) && path[i] in m
  }

  ghost predicate Joins(m: set<Cell>, path: seq<Cell>, a: Cell, b: Cell) {
    IsPath(m, path) && path[0] == a && path[|path| - 1] == b
  }

  /** b can be reached from a by steps to neighbouring matching cells. */
  ghost predicate Connected(m: set<Cell>, a: Cell, b: Cell) {
    exists path :: Joins(m, path, a, b)
  }

  lemma ConnectedSelf(m: set<Cell>, a: Cell)
    ensures Connected(m, a, a)
  {
    assert Joins(m, [a], a, a);
  }

  lemma ConnectedStep(m: set<Cell>, a: Cell, b: Cell, c: Cell)
    requires Connected(m, a, b) && Near(b, c) && c in m
    ensures Connected(m, a, c)
  {
    var path :| Joins(m, path, a, b);
    assert Joins(m, path + [c], a, c);
  }

  // p has swallowed every matching neighbour of its cells.
  ghost predicate Closed(m: set<Cell>, p: set<Cell>) {
    forall c, d :: c in p && d in m && Near(c, d) ==> d in p
  }

  lemma {:induction false} ClosedHoldsPath(m: set<Cell>, p: set<Cell>, path: seq<Cell>)
    requires Closed(m, p) && IsPath(m, path) && path[0] in p
    ensures path[|path| - 1] in p
  {
    if |path| > 1 {
      ClosedHoldsPath(m, p, path[..|path| - 1]);
    }
  }

  /** A closed set of connected cells around a is the connected component of a. */
  lemma ClosedIsComponent(m: set<Cell>, p: set<Cell>, a: Cell)
    requires Closed(m, p) && a in p
    requires forall c :: c in p ==> Connected(m, a, c)
    ensures forall c :: c in p <==> Connected(m, a, c)
  {
    forall c | Connected(m, a, c)
      ensures c in p
    {
      var path :| Joins(m, path, a, c);
      ClosedHoldsPath(m, p, path);
    }
  }

  // ---- What the fill keeps while it runs ----

  // A matching cell not painted yet.
  ghost predicate Open(m: set<Cell>, p: set<Cell>, c: Cell) {
    c in m && c !in p
  }

  // No open cell in columns l..r of row y.
  ghost predicate Clear(m: set<Cell>, p: set<Cell>, y: int, l: int, r: int) {
    forall c: Cell :: c.y == y && l <= c.x <= r ==> !Open(m, p, c)
  }

  ghost predicate Covers(s: Segment, c: Cell) {
    c.y == s.y && s.l <= c.x <= s.r
  }

  ghost predicate Covered(q: seq<Segment>, c: Cell) {
    exists s :: s in q && Covers(s, c)
  }

  /** A segment is painted, cannot grow sideways, and the run that caused it is painted. */
  ghost predicate SegmentOk(m: set<Cell>, p: set<Cell>, s: Segment) {
    && s.l <= s.r && (s.dir == 1 || s.dir == -1) && s.prevl <= s.r + 2 && s.l - 2 <= s.prevr
    && (forall c :: Covers(s, c) ==> c in p)
    && !Open(m, p, Cell(s.l - 1, s.y)) && !Open(m, p, Cell(s.r + 1, s.y))
    && Clear(m, p, s.y + s.dir, s.prevl, s.prevr)
  }

  ghost predicate AllOk(m: set<Cell>, p: set<Cell>, q: seq<Segment>) {
    forall s :: s in q ==> SegmentOk(m, p, s)
  }

  /** A painted cell with an open neighbour belongs to a segment still to be looked at. */
  ghost predicate Watched(m: set<Cell>, p: set<Cell>, q: seq<Segment>) {
    forall c, d :: c in p && Near(c, d) && Open(m, p, d) ==> Covered(q, c)
  }

  ghost predicate Sound(m: set<Cell>, p: set<Cell>, seed: Cell) {
    forall c :: c in p ==> Connected(m, seed, c)
  }

  ghost function Run(y: int, l: int, r: int): (cells: set<Cell>)
    ensures forall c :: c in cells <==> c.y == y && l <= c.x <= r
  {
    set x | l <= x <= r :: Cell(x, y)
  }

  lemma RunAround(p: set<Cell>, y: int, j: int, i: int, k: int)
    requires j < i < k
    ensures p + {Cell(i, y)} + Run(y, j + 1, i - 1) + Run(y, i + 1, k - 1) == p + Run(y, j + 1, k - 1)
  {
  }

  lemma StillOk(m: set<Cell>, p: set<Cell>, p': set<Cell>, q: seq<Segment>)
    requires AllOk(m, p, q) && p <= p'
    ensures AllOk(m, p', q)
  {
  }

  /** Painting a run and queueing its segment keeps every open neighbour watched. */
  lemma WatchMore(m: set<Cell>, p: set<Cell>, q: seq<Segment>, s: Segment)
    requires Watched(m, p, q)
    ensures Watched(m, p + Run(s.y, s.l, s.r), q + [s])
  {
    var p' := p + Run(s.y, s.l, s.r);
    forall c, d | c in p' && Near(c, d) && Open(m, p', d)
      ensures Covered(q + [s], c)
    {
      if c in p {
        var t :| t in q && Covers(t, c);
        assert t in q + [s];
      } else {
        assert s in q + [s] && Covers(s, c);
      }
    }
  }

  // A segment with both neighbouring rows clear beside it.
  ghost predicate LookedAround(m: set<Cell>, p: set<Cell>, s: Segment) {
    && Clear(m, p, s.y - s.dir, s.l - 1, s.r + 1)
    && Clear(m, p, s.y + s.dir, s.l - 1, s.prevl - 1)
    && Clear(m, p, s.y + s.dir, s.prevr + 1, s.r + 1)
  }

  lemma ClearNone(m: set<Cell>, p: set<Cell>, y: int, l: int)
    ensures Clear(m, p, y, l, l - 1)
  {
  }

  lemma ClearLess(m: set<Cell>, p: set<Cell>, y: int, l: int, r: int, i: int)
    requires Clear(m, p, y, l, i) && r <= i
    ensures Clear(m, p, y, l, r)
  {
  }

  lemma ClearMore(m: set<Cell>, p: set<Cell>, p': set<Cell>, y: int, l: int, i: int, r: int)
    requires p <= p' && Clear(m, p, y, l, i - 1) && Clear(m, p', y, i, r)
    ensures Clear(m, p', y, l, r)
  {
  }

  lemma AllClear(m: set<Cell>, p1: set<Cell>, p2: set<Cell>, p3: set<Cell>, s: Segment)
    requires p1 <= p2 <= p3 && Clear(m, p1, s.y - s.dir, s.l - 1, s.r + 1)
    requires Clear(m, p2, s.y + s.dir, s.l - 1, s.prevl - 1) && Clear(m, p3, s.y + s.dir, s.prevr + 1, s.r + 1)
    ensures LookedAround(m, p3, s)
  {
  }

  lemma NoneBeside(m: set<Cell>, p: set<Cell>, s: Segment, c: Cell, d: Cell)
    requires SegmentOk(m, p, s) && LookedAround(m, p, s) && Covers(s, c) && Near(c, d)
    ensures !Open(m, p, d)
  {
    if d.y == s.y {
      assert d == Cell(s.l - 1, s.y) || d == Cell(s.r + 1, s.y) || Covers(s, d);
    }
  }

  /** A segment that was looked around needs no watch any more. */
  lemma WatchLess(m: set<Cell>, p: set<Cell>, s: Segment, q: seq<Segment>)
    requires Watched(m, p, [s] + q) && SegmentOk(m, p, s) && LookedAround(m, p, s)
    ensures Watched(m, p, q)
  {
    forall c, d | c in p && Near(c, d) && Open(m, p, d)
      ensures Covered(q, c)
    {
      assert !Covers(s, c) by {
        if Covers(s, c) {
          NoneBeside(m, p, s, c, d);
        }
      }
      var t :| t in [s] + q && Covers(t, c);
      assert t in q;
    }
  }

  /** With nothing left to look at, the painted set is closed. */
  lemma NothingWatched(m: set<Cell>, p: set<Cell>)
    requires Watched(m, p, [])
    ensures Closed(m, p)
  {
  }

  // ---- What the fill reports ----

  datatype Box = Box(xMin: int, xMax: int, yMin: int, yMax: int)

  ghost predicate InBox(b: Box, c: Cell) {
    b.xMin <= c.x <= b.xMax && b.yMin <= c.y <= b.yMax
  }

  // Each side of the box touches a painted cell.
  ghost predicate Tight(p: set<Cell>, b: Box) {
    && (exists c :: c in p && c.x == b.xMin) && (exists c :: c in p && c.x == b.xMax)
    && (exists c :: c in p && c.y == b.yMin) && (exists c :: c in p && c.y == b.yMax)
  }

  // The box with a segment added, as the fill updates it.
  function Grow(b: Box, s: Segment): Box {
    Box(if b.xMin > s.l then s.l else b.xMin, if b.xMax < s.r then s.r else b.xMax,
        if b.yMin > s.y then s.y else b.yMin, if b.yMax < s.y then s.y else b.yMax)
  }

  function TotalWidth(q: seq<Segment>): int {
    if q == [] then 0 else TotalWidth(q[..|q| - 1]) + (q[|q| - 1].r - q[|q| - 1].l + 1)
  }

  lemma {:induction false} WidthOfFirst(s: Segment, q: seq<Segment>)
    ensures TotalWidth([s] + q) == (s.r - s.l + 1) + TotalWidth(q)
  {
    if q != [] {
      assert ([s] + q)[..|q|] == [s] + q[..|q| - 1];
      WidthOfFirst(s, q[..|q| - 1]);
    }
  }

  lemma {:induction false} WidthAtLeastLength(q: seq<Segment>)
    requires forall s :: s in q ==> s.l <= s.r
    ensures TotalWidth(q) >= |q|
  {
    if q != [] {
      WidthAtLeastLength(q[..|q| - 1]);
    }
  }

  lemma {:induction false} RunSize(p: set<Cell>, y: int, l: int, r: int)
    requires l <= r + 1 && p !! Run(y, l, r)
    ensures |p + Run(y, l, r)| == |p| + (r - l + 1)
    decreases r - l
  {
    if l <= r {
      RunSize(p, y, l, r - 1);
      assert p + Run(y, l, r) == p + Run(y, l, r - 1) + {Cell(r, y)};
    } else {
      assert p + Run(y, l, r) == p;
    }
  }

  /** The finished segments hold done cells and lie in the box, unless segments were lost: then
      finished and queued ones hold fewer cells than are painted. Segments are lost only if the
      ring has no more slots than there are painted cells. */
  ghost predicate Counted(p: set<Cell>, slots: nat, lost: bool, done: int, b: Box, q: seq<Segment>) {
    && (lost ==> slots <= |p|)
    && (if lost then done + TotalWidth(q) < |p| else done + TotalWidth(q) == |p|)
    && (!lost ==> forall c :: c in p ==> InBox(b, c) || Covered(q, c))
    && done >= 0 && Tight(p, b)
  }

  lemma CountFound(m: set<Cell>, p: set<Cell>, slots: nat, lost: bool, done: int, b: Box,
                   s: Segment, q: seq<Segment>, n: Segment)
    requires Counted(p, slots, lost, done, b, [s] + q) && AllOk(m, p, [s] + q)
    requires n.l <= n.r && AllOpen(m, p, n.y, n.l, n.r)
    ensures Counted(p + Run(n.y, n.l, n.r), slots, lost, done, b, [s] + (q + [n]))
    ensures |q| + 1 >= slots ==> Counted(p + Run(n.y, n.l, n.r), slots, true, done, b, [s])
  {
    var p', q' := p + Run(n.y, n.l, n.r), [s] + (q + [n]);
    assert p !! Run(n.y, n.l, n.r);
    RunSize(p, n.y, n.l, n.r);
    assert q'[..|q'| - 1] == [s] + q;
    WidthAtLeastLength([s] + q);
    WidthAtLeastLength(q);
    WidthOfFirst(s, q);
    WidthOfFirst(s, []);
    assert [s] + [] == [s];
    forall c | c in p' && !lost
      ensures InBox(b, c) || Covered(q', c)
    {
      if c in p {
        if Covered([s] + q, c) {
          var t :| t in [s] + q && Covers(t, c);
          assert t in q';
        }
      } else {
        assert n in q' && Covers(n, c);
      }
    }
  }

  /** What the fill keeps: p is painted, q is still to be looked at, lost says that the ring
      has overflowed, done and box are the cells and the extent of the finished segments. */
  ghost predicate Filling(m: set<Cell>, p: set<Cell>, seed: Cell, slots: nat, lost: bool,
                          done: int, box: Box, q: seq<Segment>) {
    Searching(m, p, seed, lost, q) && Counted(p, slots, lost, done, box, q)
  }

  ghost predicate Searching(m: set<Cell>, p: set<Cell>, seed: Cell, lost: bool, q: seq<Segment>) {
    && AllOk(m, p, q)
    && (!lost ==> Watched(m, p, q))
    && Sound(m, p, seed)
    && p <= m + {seed}
  }

  ghost predicate AllOpen(m: set<Cell>, p: set<Cell>, y: int, l: int, r: int) {
    forall c :: c in Run(y, l, r) ==> Open(m, p, c)
  }

  lemma OpenAround(m: set<Cell>, p: set<Cell>, y: int, j: int, i: int, k: int)
    requires AllOpen(m, p + {Cell(i, y)}, y, j + 1, i - 1)
    requires AllOpen(m, p + {Cell(i, y)} + Run(y, j + 1, i - 1), y, i + 1, k - 1)
    ensures Cell(i, y) !in p ==> AllOpen(m + {Cell(i, y)}, p, y, j + 1, k - 1)
  {
    forall c | c in Run(y, j + 1, k - 1)
      ensures Cell(i, y) !in p ==> Open(m + {Cell(i, y)}, p, c)
    {
      assert c == Cell(c.x, c.y);
      assert c.x < i ==> c in Run(y, j + 1, i - 1);
      assert c.x > i ==> c in Run(y, i + 1, k - 1);
    }
  }

  // l..r is the maximal run of open cells around cell i of row y.
  ghost predicate MaximalRun(m: set<Cell>, p: set<Cell>, y: int, l: int, i: int, r: int) {
    l <= i <= r && AllOpen(m, p, y, l, r) && !Open(m, p, Cell(l - 1, y)) && !Open(m, p, Cell(r + 1, y))
  }

  lemma ClearAfter(m: set<Cell>, p: set<Cell>, y: int, l: int, i: int, r: int)
    requires MaximalRun(m, p, y, l, i, r)
    ensures Cell(i, y) in p + Run(y, l, r) && Clear(m, p + Run(y, l, r), y, i, r + 1)
  {
    forall c: Cell | c.y == y && i <= c.x <= r + 1
      ensures !Open(m, p + Run(y, l, r), c)
    {
      assert c == Cell(c.x, c.y);
    }
  }

  // Such a run in row s.y + d, found at a cell i beside segment s.
  ghost predicate FoundRun(m: set<Cell>, p: set<Cell>, s: Segment, d: int, l: int, i: int, r: int) {
    (d == 1 || d == -1) && s.l - 1 <= i <= s.r + 1 && MaximalRun(m, p, s.y + d, l, i, r)
  }

  lemma FoundIsConnected(m: set<Cell>, p: set<Cell>, seed: Cell, s: Segment, d: int, l: int, i: int, r: int)
    requires Sound(m, p, seed) && SegmentOk(m, p, s) && FoundRun(m, p, s, d, l, i, r)
    ensures Sound(m, p + Run(s.y + d, l, r), seed)
  {
    var x := if i < s.l then s.l else if i > s.r then s.r else i;
    assert Covers(s, Cell(x, s.y)) && Near(Cell(x, s.y), Cell(i, s.y + d));
    assert Cell(x, s.y) in p && Open(m, p, Cell(i, s.y + d));
    ConnectedStep(m, seed, Cell(x, s.y), Cell(i, s.y + d));
    forall c | c in Run(s.y + d, l, r)
      ensures Connected(m, seed, c)
    {
      ConnectRun(m, seed, s.y + d, l, r, i, c.x);
    }
  }

  /** Painting a found run and queueing its segment keeps the fill going. */
  lemma FillFound(m: set<Cell>, p: set<Cell>, seed: Cell, slots: nat, lost: bool, done: int, box: Box,
                  s: Segment, q: seq<Segment>, d: int, l: int, i: int, r: int)
    requires Filling(m, p, seed, slots, lost, done, box, [s] + q) && FoundRun(m, p, s, d, l, i, r)
    ensures var n, p' := Segment(s.y + d, l, r, s.l, s.r, -d), p + Run(s.y + d, l, r);
            && Filling(m, p', seed, slots, lost, done, box, [s] + (q + [n]))
            && (|q| + 1 >= slots ==> Filling(m, p', seed, slots, true, done, box, [s]))
  {
    var n := Segment(s.y + d, l, r, s.l, s.r, -d);
    hide Searching, Counted, AllOk, FoundRun, AllOpen;
    SearchFound(m, p, seed, lost, s, q, d, l, i, r);
    FoundParts(m, p, seed, lost, s, q, d, l, i, r);
    CountFound(m, p, slots, lost, done, box, s, q, n);
  }

  lemma FoundParts(m: set<Cell>, p: set<Cell>, seed: Cell, lost: bool, s: Segment, q: seq<Segment>,
                   d: int, l: int, i: int, r: int)
    requires Searching(m, p, seed, lost, [s] + q) && FoundRun(m, p, s, d, l, i, r)
    ensures AllOk(m, p, [s] + q) && l <= r && AllOpen(m, p, s.y + d, l, r)
  {
  }

  lemma SearchFound(m: set<Cell>, p: set<Cell>, seed: Cell, lost: bool, s: Segment, q: seq<Segment>,
                    d: int, l: int, i: int, r: int)
    requires Searching(m, p, seed, lost, [s] + q) && FoundRun(m, p, s, d, l, i, r)
    ensures var n := Segment(s.y + d, l, r, s.l, s.r, -d);
            && Searching(m, p + Run(s.y + d, l, r), seed, lost, [s] + (q + [n]))
            && Searching(m, p + Run(s.y + d, l, r), seed, true, [s])
  {
    var n := Segment(s.y + d, l, r, s.l, s.r, -d);
    var p' := p + Run(s.y + d, l, r);
    assert s in [s] + q;
    FoundIsConnected(m, p, seed, s, d, l, i, r);
    StillOk(m, p, p', [s] + q);
    assert SegmentOk(m, p', n);
    if !lost {
      WatchMore(m, p, [s] + q, n);
    }
    assert [s] + (q + [n]) == [s] + q + [n];
    assert s in [s] + (q + [n]);
  }

  /** The run around the seed starts a fill: one segment, whose parent rows are empty. */
  lemma StartFill(m: set<Cell>, seed: Cell, slots: nat, l: int, r: int)
    requires MaximalRun(m + {seed}, {}, seed.y, l, seed.x, r) && slots > 0
    ensures var s, p := Segment(seed.y, l, r, r + 1, r, 1), Run(seed.y, l, r);
            && Filling(m, p, seed, slots, false, 0, Box(l, r, seed.y, seed.y), [s])
            && (slots == 1 ==> Filling(m, p, seed, slots, true, 0, Box(l, r, seed.y, seed.y), []))
  {
    var s, p := Segment(seed.y, l, r, r + 1, r, 1), Run(seed.y, l, r);
    ConnectedSelf(m, seed);
    assert forall c :: c in p ==> Open(m + {seed}, {}, c);
    forall c | c in p
      ensures Connected(m, seed, c)
    {
      ConnectRun(m, seed, seed.y, l, r, seed.x, c.x);
    }
    assert forall c :: c in p ==> Covers(s, c) && s in [s];
    StartCount(seed, slots, l, r, s);
  }

  lemma StartCount(seed: Cell, slots: nat, l: int, r: int, s: Segment)
    requires slots > 0 && l <= r && s.y == seed.y && s.l == l && s.r == r
    ensures Counted(Run(seed.y, l, r), slots, false, 0, Box(l, r, seed.y, seed.y), [s])
    ensures slots == 1 ==> Counted(Run(seed.y, l, r), slots, true, 0, Box(l, r, seed.y, seed.y), [])
  {
    var p := Run(seed.y, l, r);
    RunSize({}, seed.y, l, r);
    assert {} + p == p;
    WidthOfFirst(s, []);
    assert [s] + [] == [s];
    assert Cell(l, seed.y) in p && Cell(r, seed.y) in p;
  }

  /** Taking a segment from the queue grows the box around it. */
  lemma TakeSegment(m: set<Cell>, p: set<Cell>, seed: Cell, slots: nat, lost: bool, done: int, box: Box,
                    s: Segment, q: seq<Segment>)
    requires Filling(m, p, seed, slots, lost, done, box, [s] + q)
    ensures Filling(m, p, seed, slots, lost, done, Grow(box, s), [s] + q)
  {
    assert s in [s] + q;
    assert Covers(s, Cell(s.l, s.y)) && Covers(s, Cell(s.r, s.y));
    assert Cell(s.l, s.y) in p && Cell(s.r, s.y) in p;
  }

  /** A segment that was looked around is finished. */
  lemma FinishSegment(m: set<Cell>, p: set<Cell>, seed: Cell, slots: nat, lost: bool, done: int, box: Box,
                      s: Segment, q: seq<Segment>)
    requires Filling(m, p, seed, slots, lost, done, Grow(box, s), [s] + q) && LookedAround(m, p, s)
    ensures Filling(m, p, seed, slots, lost, done + (s.r - s.l + 1), Grow(box, s), q)
  {
    assert s in [s] + q;
    if !lost {
      WatchLess(m, p, s, q);
    }
    WidthOfFirst(s, q);
    forall c | c in p && !lost
      ensures InBox(Grow(box, s), c) || Covered(q, c)
    {
      if !InBox(Grow(box, s), c) {
        var t :| t in [s] + q && Covers(t, c);
        assert t in q;
      }
    }
  }

  lemma HeadOk(m: set<Cell>, p: set<Cell>, seed: Cell, slots: nat, lost: bool, done: int, box: Box,
               s: Segment, q: seq<Segment>)
    requires Filling(m, p, seed, slots, lost, done, box, [s] + q)
    ensures s.l <= s.r && (s.dir == 1 || s.dir == -1) && s.prevl <= s.r + 2 && s.l - 2 <= s.prevr
  {
    assert s in [s] + q;
  }

  /** With an empty queue and nothing lost, the component of the seed is painted, counted
      and framed; in any case all that is painted is connected. */
  lemma FillIsDone(m: set<Cell>, p: set<Cell>, seed: Cell, slots: nat, lost: bool, done: int, box: Box)
    requires Filling(m, p, seed, slots, lost, done, box, []) && seed in p
    ensures forall c :: c in p ==> Connected(m, seed, c)
    ensures !lost ==> forall c :: Connected(m, seed, c) ==> c in p
    ensures !lost ==> done == |p| && Tight(p, box) && forall c :: c in p ==> InBox(box, c)
    ensures lost ==> slots <= |m| + 1 && done < |p|
  {
    hide Watched, Closed;
    if !lost {
      NothingWatched(m, p);
      ClosedIsComponent(m, p, seed);
    } else {
      SubsetSize(p, m, seed);
    }
  }

  // The cells of comp are those connected to the seed.
  ghost predicate IsComponent(m: set<Cell>, seed: Cell, comp: set<Cell>) {
    forall c :: c in comp <==> Connected(m, seed, c)
  }

  lemma PaintedOfComponent(m: set<Cell>, seed: Cell, p: set<Cell>)
    requires forall c :: c in p ==> Connected(m, seed, c)
    ensures forall comp :: IsComponent(m, seed, comp) ==> |p| <= |comp| && ((forall c :: Connected(m, seed, c) ==> c in p) ==> p == comp)
  {
    hide Connected;
    forall comp | IsComponent(m, seed, comp) ensures |p| <= |comp| {
      Smaller(p, comp);
    }
  }

  lemma {:induction false} SubsetSize(p: set<Cell>, m: set<Cell>, seed: Cell)
    requires p <= m + {seed}
    ensures |p| <= |m| + 1
  {
    if seed in m || seed !in p {
      Smaller(p, m);
    } else {
      Smaller(p - {seed}, m);
    }
  }

  lemma {:induction false} Smaller(p: set<Cell>, m: set<Cell>)
    requires p <= m
    ensures |p| <= |m|
  {
    if p != {} {
      var c :| c in p;
      Smaller(p - {c}, m - {c});
    }
  }

  // What is painted beyond p is taken from the matching cells left.
  lemma FillShrinks(m: set<Cell>, p: set<Cell>, p': set<Cell>, seed: Cell, slots: nat, lost: bool, done: int, box: Box,
                    q: seq<Segment>)
    requires p < p' && seed in p && Filling(m, p', seed, slots, lost, done, box, q)
    ensures m - p' < m - p
  {
    var c :| c in p' && c !in p;
    assert c in m - p;
  }

  /** Along a row of matching cells, connectedness spreads from one cell to all. */
  lemma {:induction false} ConnectRun(m: set<Cell>, seed: Cell, y: int, l: int, r: int, x: int, to: int)
    requires l <= x <= r && l <= to <= r && Connected(m, seed, Cell(x, y))
    requires forall c :: c in Run(y, l, r) ==> c in m || Connected(m, seed, c)
    ensures Connected(m, seed, Cell(to, y))
    decreases if x < to then to - x else x - to
  {
    if x != to {
      var n := if x < to then x + 1 else x - 1;
      if Cell(n, y) in m {
        ConnectedStep(m, seed, Cell(x, y), Cell(n, y));
      }
      ConnectRun(m, seed, y, l, r, n, to);
    }
  }
}
