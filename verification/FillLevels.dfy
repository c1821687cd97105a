/** A lower bound for the queue of the fill: the runs at any one distance from the seed. */
module FillLevels {
  import opened Segments
  import opened Regions
  import opened FillSteps

  // All columns between a and b, which lie in one row, are in m.
  ghost predicate SameRun(m: set<Cell>, a: Cell, b: Cell) {
    && a.y == b.y
    && forall c: Cell :: c.y == a.y && (a.x <= c.x <= b.x || b.x <= c.x <= a.x) ==> c in m
  }

  // The run of c has a cell beside a cell one level nearer to the seed, or is the seed's own.
  ghost predicate Follows(m: set<Cell>, level: Cell -> int, seed: Cell, c: Cell) {
    if level(c) == 0 then SameRun(m, seed, c)
    else exists e, a :: e in m && Near(e, a) && level(e) == level(c) - 1 && SameRun(m, a, c)
  }

  /** The distance of cells from the seed, in runs. */
  ghost predicate IsLevel(m: set<Cell>, level: Cell -> int, seed: Cell) {
    && seed in m && level(seed) == 0
    && (forall c :: c in m ==> level(c) >= 0 && Follows(m, level, seed, c))
    && (forall c, e :: c in m && e in m && Near(c, e) ==> level(e) <= level(c) + 1)
    && (forall c, e :: c in m && e in m && Beside(c, e) ==> level(e) == level(c))
  }

  // The first cells of the runs at distance d.
  ghost function StartsAtLevel(m: set<Cell>, level: Cell -> int, d: int): set<Cell> {
    set c | c in RunStarts(m) && level(c) == d
  }

  function First(s: Segment): Cell {
    Cell(s.l, s.y)
  }

  lemma {:induction false} RunSpreads(m: set<Cell>, p: set<Cell>, a: Cell, b: Cell)
    requires RowClosed(m, p) && a in p && SameRun(m, a, b)
    ensures b in p
    decreases if a.x < b.x then b.x - a.x else a.x - b.x
  {
    if a.x != b.x {
      var n := Cell(if a.x < b.x then a.x + 1 else a.x - 1, a.y);
      assert n in m && Beside(a, n);
      RunSpreads(m, p, n, b);
    } else {
      assert a == b;
    }
  }

  // One level along a run.
  lemma {:induction false} LevelOfRun(m: set<Cell>, level: Cell -> int, seed: Cell, y: int, l: int, x: int)
    requires IsLevel(m, level, seed) && l <= x && Run(y, l, x) <= m
    ensures level(Cell(x, y)) == level(Cell(l, y))
    decreases x - l
  {
    if l < x {
      assert Run(y, l, x - 1) <= m;
      LevelOfRun(m, level, seed, y, l, x - 1);
      assert Cell(x - 1, y) in m && Cell(x, y) in m && Beside(Cell(x - 1, y), Cell(x, y));
    }
  }

  lemma LevelCovered(m: set<Cell>, p: set<Cell>, level: Cell -> int, seed: Cell, s: Segment, c: Cell)
    requires IsLevel(m, level, seed) && SegmentOk(m, p, s) && p <= m && Covers(s, c)
    ensures level(c) == level(First(s))
  {
    forall e | e in Run(s.y, s.l, c.x) ensures e in m {
      assert Covers(s, e);
    }
    LevelOfRun(m, level, seed, s.y, s.l, c.x);
    assert c == Cell(c.x, c.y);
  }

  /** While no segment below level d is queued, all cells up to level d are painted. */
  lemma {:induction false} PaintedUpTo(m: set<Cell>, p: set<Cell>, level: Cell -> int, seed: Cell,
                                       q: seq<Segment>, d: int, c: Cell)
    requires IsLevel(m, level, seed) && RowClosed(m, p) && seed in p && p <= m
    requires AllOk(m, p, q) && Watched(m, p, q) && forall s :: s in q ==> level(First(s)) >= d
    requires c in m && level(c) <= d
    ensures c in p
    decreases level(c)
  {
    assert Follows(m, level, seed, c);
    if level(c) == 0 {
      RunSpreads(m, p, seed, c);
    } else {
      var e, a :| e in m && Near(e, a) && level(e) == level(c) - 1 && SameRun(m, a, c);
      PaintedUpTo(m, p, level, seed, q, d, e);
      assert a in m;
      if a !in p {
        var s :| s in q && Covers(s, e);
        LevelCovered(m, p, level, seed, s, e);
        assert false;
      }
      RunSpreads(m, p, a, c);
    }
  }

  // ---- The fill up to level goal ----

  // Painted cells from level goal on belong to queued segments.
  ghost predicate Kept(level: Cell -> int, goal: int, p: set<Cell>, q: seq<Segment>) {
    forall c :: c in p && level(c) >= goal ==> Covered(q, c)
  }

  // What the queue of a fill keeps, with or without a segment in front that is looked around.
  ghost predicate Going(f: Field, level: Cell -> int, seed: Cell, goal: int, g: Progress, front: seq<Segment>) {
    && InField(f) && IsLevel(f.m, level, seed)
    && Searching(f.m, g.p, seed, false, front + g.q)
    && RowClosed(f.m, g.p) && seed in g.p && g.p <= f.m
    && Kept(level, goal, g.p, g.q)
  }

  ghost predicate UpTo(m: set<Cell>, level: Cell -> int, d: int, p: set<Cell>) {
    forall c :: c in m && level(c) <= d ==> c in p
  }

  // The queue has grown by segments of level d.
  ghost predicate Grown(level: Cell -> int, d: int, g: Progress, g': Progress) {
    && g.p <= g'.p && |g.q| <= |g'.q| && g'.q[..|g.q|] == g.q
    && forall k :: |g.q| <= k < |g'.q| ==> level(First(g'.q[k])) == d
  }

  lemma GrownTwice(level: Cell -> int, d: int, g: Progress, g': Progress, g'': Progress)
    requires Grown(level, d, g, g') && Grown(level, d, g', g'')
    ensures Grown(level, d, g, g'')
  {
    assert g''.q[..|g.q|] == g''.q[..|g'.q|][..|g.q|];
    forall k | |g.q| <= k < |g''.q| ensures level(First(g''.q[k])) == d {
      if k < |g'.q| {
        assert g''.q[k] == g''.q[..|g'.q|][k];
      }
    }
  }

  // A run found beside a segment is one level further.
  lemma FoundLevel(f: Field, level: Cell -> int, seed: Cell, p: set<Cell>, s: Segment, d: int, l: nat, i: nat, r: nat)
    requires IsLevel(f.m, level, seed) && p <= f.m && SegmentOk(f.m, p, s) && UpTo(f.m, level, level(First(s)), p)
    requires FoundRun(f.m, p, s, d, l, i, r)
    ensures level(Cell(l, s.y + d)) == level(First(s)) + 1
  {
    var c := Cell(i, s.y + d);
    var x := if i < s.l then s.l else if i > s.r then s.r else i;
    var e := Cell(x, s.y);
    assert Covers(s, e) && Near(e, c);
    assert c in Run(s.y + d, l, r) && Open(f.m, p, c);
    LevelCovered(f.m, p, level, seed, s, e);
    forall a | a in Run(s.y + d, l, i) ensures a in f.m {
      assert a in Run(s.y + d, l, r) && Open(f.m, p, a);
    }
    LevelOfRun(f.m, level, seed, s.y + d, l, i);
  }

  lemma KeptMore(level: Cell -> int, goal: int, p: set<Cell>, q: seq<Segment>, n: Segment)
    requires Kept(level, goal, p, q)
    ensures Kept(level, goal, p + Run(n.y, n.l, n.r), q + [n])
  {
    forall c | c in p + Run(n.y, n.l, n.r) && level(c) >= goal ensures Covered(q + [n], c) {
      if c in p {
        var t :| t in q && Covers(t, c);
        assert t in q + [n];
      } else {
        assert n in q + [n] && Covers(n, c);
      }
    }
  }

  // One step of a scan.
  lemma TakenGoing(f: Field, level: Cell -> int, seed: Cell, goal: int, g: Progress, s: Segment, d: int, i: nat)
    requires Going(f, level, seed, goal, g, [s]) && UpTo(f.m, level, level(First(s)), g.p)
    requires (d == 1 || d == -1) && s.l - 1 <= i <= s.r + 1 && StartsAt(f, g.p, s.y + d, i)
    ensures var g' := Taken(Endless, f, g, s, d, i);
            && Going(f, level, seed, goal, g', [s]) && UpTo(f.m, level, level(First(s)), g'.p)
            && Grown(level, level(First(s)) + 1, g, g')
            && Clear(f.m, g'.p, s.y + d, i, RightEnd(f.m, g.p, s.y + d, i, f.width) + 1)
  {
    var y := s.y + d;
    var l, r := LeftEnd(f.m, g.p, y, i), RightEnd(f.m, g.p, y, i, f.width);
    var n := Segment(y, l, r, s.l, s.r, -d);
    hide LeftEnd, RightEnd, Searching, RowClosed, IsLevel, InField, AllOpen, Clear;
    EndsAreMaximal(f, g.p, y, i);
    OneMoreRun(f.m, g.p, y, l, i, r);
    SearchFound(f.m, g.p, seed, false, s, g.q, d, l, i, r);
    HeadIsOk(f.m, g.p, seed, s, g.q);
    FoundLevel(f, level, seed, g.p, s, d, l, i, r);
    KeptMore(level, goal, g.p, g.q, n);
    ClearAfter(f.m, g.p, y, l, i, r);
    RunInside(f.m, g.p, y, l, i, r);
  }

  lemma HeadIsOk(m: set<Cell>, p: set<Cell>, seed: Cell, s: Segment, q: seq<Segment>)
    requires Searching(m, p, seed, false, [s] + q)
    ensures SegmentOk(m, p, s)
  {
    assert s in [s] + q;
  }

  lemma RunInside(m: set<Cell>, p: set<Cell>, y: int, l: int, i: int, r: int)
    requires MaximalRun(m, p, y, l, i, r)
    ensures Run(y, l, r) <= m
  {
    forall c | c in Run(y, l, r) ensures c in m {
      assert Open(m, p, c);
    }
  }

  lemma NoStart(f: Field, p: set<Cell>, y: int, i: int)
    requires InField(f) && !StartsAt(f, p, y, i)
    ensures Clear(f.m, p, y, i, i)
  {
    forall c: Cell | c.y == y && i <= c.x <= i ensures !Open(f.m, p, c) {
      assert c == Cell(i, y);
    }
  }

  /** A scan beside a segment queues what it finds one level further. */
  lemma {:induction false} ScanGoing(f: Field, level: Cell -> int, seed: Cell, goal: int, g: Progress,
                                     s: Segment, d: int, i: int, right: int)
    requires Going(f, level, seed, goal, g, [s]) && UpTo(f.m, level, level(First(s)), g.p)
    requires (d == 1 || d == -1) && s.l - 1 <= i && right <= s.r + 1
    ensures var g' := ScanFrom(Endless, f, g, s, d, i, right);
            && Going(f, level, seed, goal, g', [s]) && UpTo(f.m, level, level(First(s)), g'.p)
            && Grown(level, level(First(s)) + 1, g, g') && Clear(f.m, g'.p, s.y + d, i, right)
    decreases if i <= right then right - i + 1 else 0
  {
    hide Going, UpTo, Taken, RightEnd, Clear, StartsAt;
    var y := s.y + d;
    if i > right {
      GrownNot(level, level(First(s)) + 1, g);
      ClearNone(f.m, g.p, y, i);
      ClearLess(f.m, g.p, y, i, right, i - 1);
    } else if StartsAt(f, g.p, y, i) {
      assert 0 <= i by { StartIsNat(f, g.p, y, i); }
      var g1, i1 := Taken(Endless, f, g, s, d, i), RightEnd(f.m, g.p, y, i, f.width) + 1;
      TakenGoing(f, level, seed, goal, g, s, d, i);
      ScanGoing(f, level, seed, goal, g1, s, d, i1 + 1, right);
      var g' := ScanFrom(Endless, f, g1, s, d, i1 + 1, right);
      GrownTwice(level, level(First(s)) + 1, g, g1, g');
      ClearJoin(f.m, g1.p, g'.p, y, i, i1, right);
    } else {
      InFieldOf(f, level, seed, goal, g, [s]);
      NoStart(f, g.p, y, i);
      ScanGoing(f, level, seed, goal, g, s, d, i + 1, right);
      ClearJoin(f.m, g.p, ScanFrom(Endless, f, g, s, d, i + 1, right).p, y, i, i, right);
    }
  }

  lemma StartIsNat(f: Field, p: set<Cell>, y: int, i: int)
    requires StartsAt(f, p, y, i)
    ensures i >= 0
  {
  }

  lemma InFieldOf(f: Field, level: Cell -> int, seed: Cell, goal: int, g: Progress, front: seq<Segment>)
    requires Going(f, level, seed, goal, g, front)
    ensures InField(f)
  {
  }

  lemma GrownNot(level: Cell -> int, d: int, g: Progress)
    ensures Grown(level, d, g, g)
  {
  }

  lemma ClearJoin(m: set<Cell>, p: set<Cell>, p': set<Cell>, y: int, l: int, i: int, r: int)
    requires p <= p' && Clear(m, p, y, l, i) && Clear(m, p', y, i + 1, r)
    ensures Clear(m, p', y, l, r)
  {
  }

  lemma RowScanGoing(f: Field, level: Cell -> int, seed: Cell, goal: int, g: Progress,
                     s: Segment, d: int, left: int, right: int)
    requires Going(f, level, seed, goal, g, [s]) && UpTo(f.m, level, level(First(s)), g.p)
    requires (d == 1 || d == -1) && s.l - 1 <= left && right <= s.r + 1
    ensures var g' := Scan(Endless, f, g, s, d, left, right);
            && Going(f, level, seed, goal, g', [s]) && UpTo(f.m, level, level(First(s)), g'.p)
            && Grown(level, level(First(s)) + 1, g, g') && Clear(f.m, g'.p, s.y + d, left, right)
  {
    hide Going, UpTo, ScanFrom;
    if 0 <= s.y + d < f.height {
      ScanGoing(f, level, seed, goal, g, s, d, left, right);
    } else {
      InFieldOf(f, level, seed, goal, g, [s]);
      GrownNot(level, level(First(s)) + 1, g);
    }
  }

  /** Looking around a segment below the goal queues only segments one level further. */
  lemma LookGoing(f: Field, level: Cell -> int, seed: Cell, goal: int, g: Progress, s: Segment)
    requires Going(f, level, seed, goal, g, [s]) && UpTo(f.m, level, level(First(s)), g.p)
    ensures var g' := Look(Endless, f, g, s);
            && Going(f, level, seed, goal, g', []) && Grown(level, level(First(s)) + 1, g, g')
  {
    hide Going, UpTo, Scan, Clear, LookedAround, Grown, IsLevel;
    SegmentShape(f, level, seed, goal, g, s);
    var e := level(First(s)) + 1;
    var g1 := Scan(Endless, f, g, s, -s.dir, s.l - 1, s.r + 1);
    var g2 := Scan(Endless, f, g1, s, s.dir, s.l - 1, s.prevl - 1);
    var g3 := Scan(Endless, f, g2, s, s.dir, s.prevr + 1, s.r + 1);
    RowScanGoing(f, level, seed, goal, g, s, -s.dir, s.l - 1, s.r + 1);
    RowScanGoing(f, level, seed, goal, g1, s, s.dir, s.l - 1, s.prevl - 1);
    RowScanGoing(f, level, seed, goal, g2, s, s.dir, s.prevr + 1, s.r + 1);
    GrownTwice(level, e, g, g1, g2);
    GrownTwice(level, e, g, g2, g3);
    GrownPainted(level, e, g1, g2);
    GrownPainted(level, e, g2, g3);
    AllClear(f.m, g1.p, g2.p, g3.p, s);
    FrontDone(f, level, seed, goal, g3, s);
  }

  lemma GrownPainted(level: Cell -> int, d: int, g: Progress, g': Progress)
    requires Grown(level, d, g, g')
    ensures g.p <= g'.p
  {
  }

  lemma SegmentShape(f: Field, level: Cell -> int, seed: Cell, goal: int, g: Progress, s: Segment)
    requires Going(f, level, seed, goal, g, [s])
    ensures s.l <= s.r && (s.dir == 1 || s.dir == -1) && s.prevl <= s.r + 2 && s.l - 2 <= s.prevr
  {
    HeadIsOk(f.m, g.p, seed, s, g.q);
  }

  lemma FrontDone(f: Field, level: Cell -> int, seed: Cell, goal: int, g: Progress, s: Segment)
    requires Going(f, level, seed, goal, g, [s]) && LookedAround(f.m, g.p, s)
    ensures Going(f, level, seed, goal, g, [])
  {
    HeadIsOk(f.m, g.p, seed, s, g.q);
    WatchLess(f.m, g.p, s, g.q);
    assert [] + g.q == g.q;
    forall t | t in g.q ensures SegmentOk(f.m, g.p, t) {
      assert t in [s] + g.q;
    }
  }

  // ---- Round by round ----

  // The queue holds the segments of one level before those of the next.
  ghost predicate Ordered(level: Cell -> int, q: seq<Segment>) {
    forall i, j :: 0 <= i <= j < |q| ==> level(First(q[i])) <= level(First(q[j])) <= level(First(q[0])) + 1
  }

  lemma OrderedGrows(level: Cell -> int, s: Segment, g: Progress, g': Progress)
    requires Ordered(level, [s] + g.q) && Grown(level, level(First(s)) + 1, g, g')
    ensures Ordered(level, g'.q)
  {
    var d, n := level(First(s)), |g.q|;
    forall k | 0 <= k < |g'.q| ensures d <= level(First(g'.q[k])) <= d + 1 {
      if k < n {
        assert ([s] + g.q)[k + 1] == g.q[k] == g'.q[..n][k] == g'.q[k];
        assert ([s] + g.q)[0] == s;
      }
    }
    forall i, j | 0 <= i <= j < |g'.q| ensures level(First(g'.q[i])) <= level(First(g'.q[j])) {
      if j < n {
        assert ([s] + g.q)[i + 1] == g.q[i] == g'.q[..n][i] == g'.q[i];
        assert ([s] + g.q)[j + 1] == g.q[j] == g'.q[..n][j] == g'.q[j];
      }
    }
  }

  // Taking a segment below the goal out of the queue loses no cell from the goal on.
  lemma KeptBehind(f: Field, level: Cell -> int, seed: Cell, goal: int, p: set<Cell>, s: Segment, q: seq<Segment>)
    requires IsLevel(f.m, level, seed) && SegmentOk(f.m, p, s) && p <= f.m && level(First(s)) < goal
    requires Kept(level, goal, p, [s] + q)
    ensures Kept(level, goal, p, q)
  {
    hide IsLevel, SegmentOk;
    forall c | c in p && level(c) >= goal ensures Covered(q, c) {
      var t :| t in [s] + q && Covers(t, c);
      if t == s {
        LevelCovered(f.m, p, level, seed, s, c);
      }
      assert t in q;
    }
  }

  lemma AllFrom(level: Cell -> int, q: seq<Segment>)
    requires Ordered(level, q) && q != []
    ensures forall s :: s in q ==> level(First(s)) >= level(First(q[0]))
  {
  }

  lemma TakeFront(f: Field, level: Cell -> int, seed: Cell, goal: int, g: Progress)
    requires Going(f, level, seed, goal, g, []) && Ordered(level, g.q) && g.q != [] && level(First(g.q[0])) < goal
    ensures Going(f, level, seed, goal, g.(q := g.q[1..]), [g.q[0]])
    ensures UpTo(f.m, level, level(First(g.q[0])), g.p)
  {
    hide IsLevel, RowClosed, InField, Kept, Ordered, AllOk, Watched, Sound;
    var s, q := g.q[0], g.q[1..];
    assert [] + g.q == g.q == [s] + q;
    HeadIsOk(f.m, g.p, seed, s, q);
    KeptBehind(f, level, seed, goal, g.p, s, q);
    AllFrom(level, g.q);
    forall c | c in f.m && level(c) <= level(First(s)) ensures c in g.p {
      PaintedUpTo(f.m, g.p, level, seed, g.q, level(First(s)), c);
    }
  }

  /** A round that takes a segment below the goal keeps what the queue keeps, and paints or makes
      the queue shorter. */
  lemma StepGoing(f: Field, level: Cell -> int, seed: Cell, goal: int, g: Progress)
    requires Going(f, level, seed, goal, g, []) && Ordered(level, g.q) && g.q != [] && level(First(g.q[0])) < goal
    ensures var g' := Step(Endless, f, g);
            && Going(f, level, seed, goal, g', []) && Ordered(level, g'.q)
            && g.p <= g'.p && (g.p == g'.p ==> |g'.q| < |g.q|)
  {
    hide Going, Look, IsLevel, Ordered, Grown;
    var s, g1 := g.q[0], g.(q := g.q[1..]);
    var g' := Look(Endless, f, g1, s);
    TakeFront(f, level, seed, goal, g);
    LookGoing(f, level, seed, goal, g1, s);
    assert [s] + g1.q == g.q;
    OrderedGrows(level, s, g1, g');
    GrownPainted(level, level(First(s)) + 1, g1, g');
    if g.p == g'.p {
      LookIdle(f, level, seed, goal, g1, s);
    }
  }

  // What paints nothing queues nothing.
  lemma LookIdle(f: Field, level: Cell -> int, seed: Cell, goal: int, g: Progress, s: Segment)
    requires Going(f, level, seed, goal, g, [s]) && Look(Endless, f, g, s).p == g.p
    ensures |Look(Endless, f, g, s).q| == |g.q|
  {
    LookBalanced(f, g, s);
  }

  lemma FirstGoing(f: Field, level: Cell -> int, seed: Cell, goal: int, l: nat, r: nat)
    requires InField(f) && IsLevel(f.m, level, seed) && f.m + {seed} == f.m
    requires MaximalRun(f.m + {seed}, {}, seed.y, l, seed.x, r)
    ensures var q := [Segment(seed.y, l, r, r + 1, r, 1)];
            Going(f, level, seed, goal, Progress(Run(seed.y, l, r), q, false), []) && Ordered(level, q)
  {
    hide IsLevel, InField, RowClosed, Searching, Counted, MaximalRun;
    var s := Segment(seed.y, l, r, r + 1, r, 1);
    FirstRun(f.m, seed, l, r);
    StartFill(f.m, seed, 2, l, r);
    forall c | c in Run(seed.y, l, r) ensures Covered([s], c) {
      assert s in [s] && Covers(s, c);
    }
    assert [] + [s] == [s];
  }

  lemma StartGoing(f: Field, level: Cell -> int, seed: Cell, goal: int)
    requires InField(f) && IsLevel(f.m, level, seed)
    ensures var g := Start(Endless, f, seed); Going(f, level, seed, goal, g, []) && Ordered(level, g.q)
  {
    hide LeftEnd, RightEnd, IsLevel, InField, Going, Ordered, MaximalRun;
    SeedInField(f, level, seed);
    SeedRun(f, seed);
    var l, r := LeftEnd(f.m, {}, seed.y, seed.x), RightEnd(f.m, {}, seed.y, seed.x, f.width);
    FirstGoing(f, level, seed, goal, l, r);
    var s := Segment(seed.y, l, r, r + 1, r, 1);
    assert [] + [s] == [s];
  }

  lemma SeedInField(f: Field, level: Cell -> int, seed: Cell)
    requires InField(f) && IsLevel(f.m, level, seed)
    ensures 0 <= seed.x < f.width && f.m + {seed} == f.m
  {
  }

  // ---- The bound ----

  lemma {:induction false} FirstsSize(q: seq<Segment>)
    ensures |set s | s in q :: First(s)| <= |q|
  {
    var firsts := set s | s in q :: First(s);
    if q == [] {
      assert firsts == {};
    } else {
      var n := |q| - 1;
      var rest := set s | s in q[..n] :: First(s);
      assert q == q[..n] + [q[n]];
      assert firsts == rest + {First(q[n])};
      FirstsSize(q[..n]);
    }
  }

  lemma StartCovered(m: set<Cell>, p: set<Cell>, s: Segment, c: Cell)
    requires SegmentOk(m, p, s) && p <= m && Covers(s, c) && Cell(c.x - 1, c.y) !in m
    ensures c == First(s)
  {
    assert !Covers(s, Cell(c.x - 1, c.y));
    assert c == Cell(c.x, c.y);
  }

  // Once no segment below the goal is queued, every run at the goal is.
  lemma GoalQueued(f: Field, level: Cell -> int, seed: Cell, goal: int, g: Progress)
    requires Going(f, level, seed, goal, g, []) && Ordered(level, g.q)
    requires g.q == [] || level(First(g.q[0])) >= goal
    ensures |g.q| >= |StartsAtLevel(f.m, level, goal)|
  {
    hide IsLevel, RowClosed, InField, SegmentOk, Watched, Sound, Ordered;
    assert [] + g.q == g.q;
    var firsts := set s | s in g.q :: First(s);
    if g.q != [] { AllFrom(level, g.q); }
    forall c | c in StartsAtLevel(f.m, level, goal) ensures c in firsts {
      PaintedUpTo(f.m, g.p, level, seed, g.q, goal, c);
      var s :| s in g.q && Covers(s, c);
      StartCovered(f.m, g.p, s, c);
    }
    FirstsSize(g.q);
    Smaller(StartsAtLevel(f.m, level, goal), firsts);
  }

  lemma {:induction false} GoOn(f: Field, level: Cell -> int, seed: Cell, goal: int, k: nat)
    requires var g := After(Endless, f, seed, k); Going(f, level, seed, goal, g, []) && Ordered(level, g.q)
    ensures Reaches(f, seed, |StartsAtLevel(f.m, level, goal)|)
    decreases f.m - After(Endless, f, seed, k).p, |After(Endless, f, seed, k).q|
  {
    hide Going, Ordered, Step;
    var g := After(Endless, f, seed, k);
    if g.q != [] && level(First(g.q[0])) < goal {
      StepGoing(f, level, seed, goal, g);
      var g' := After(Endless, f, seed, k + 1);
      assert g' == Step(Endless, f, g);
      PaintedInside(f, level, seed, goal, g');
      assert g.p != g'.p ==> f.m - g'.p < f.m - g.p by { LessLeft(f.m, g.p, g'.p); }
      GoOn(f, level, seed, goal, k + 1);
    } else {
      GoalQueued(f, level, seed, goal, g);
    }
  }

  lemma PaintedInside(f: Field, level: Cell -> int, seed: Cell, goal: int, g: Progress)
    requires Going(f, level, seed, goal, g, [])
    ensures g.p <= f.m
  {
  }

  lemma LessLeft(m: set<Cell>, p: set<Cell>, p': set<Cell>)
    requires p <= p' <= m
    ensures p != p' ==> m - p' < m - p
  {
    if p != p' {
      var c :| c in p' && c !in p;
      assert c in m - p;
    }
  }

  /** At some time the queue holds every run at one distance from the seed: a ring with no more
      slots than there are such runs overflows. */
  lemma LevelFillsQueue(f: Field, level: Cell -> int, seed: Cell, d: int, n: nat)
    requires InField(f) && IsLevel(f.m, level, seed) && n <= |StartsAtLevel(f.m, level, d)|
    ensures Reaches(f, seed, n)
  {
    StartGoing(f, level, seed, d);
    GoOn(f, level, seed, d, 0);
  }
}
