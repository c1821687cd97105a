/** The fill as a function of the image: its runs, its queue and when the ring overflows. */
module FillSteps {
  import opened Basics
  import opened Segments
  import opened Regions

  // The matching cells of an image of width by height words.
  datatype Field = Field(m: set<Cell>, width: nat, height: nat)

  // A ring with some number of slots, of which one stays free, or one without an end.
  datatype Ring = Slots(n: nat) | Endless

  // The painted cells, the queue, and whether the ring has overflowed.
  datatype Progress = Progress(p: set<Cell>, q: seq<Segment>, lost: bool)

  ghost function Put(ring: Ring, g: Progress, p: set<Cell>, s: Segment): Progress {
    if ring.Endless? || |g.q| + 1 < ring.n then Progress(p, g.q + [s], g.lost) else Progress(p, [], true)
  }

  // ---- Runs ----

  // The ends of the run of open cells around column i.
  ghost function LeftEnd(m: set<Cell>, p: set<Cell>, y: int, i: nat): (l: nat)
    ensures l <= i
  {
    if i > 0 && Open(m, p, Cell(i - 1, y)) then LeftEnd(m, p, y, i - 1) else i
  }

  ghost function RightEnd(m: set<Cell>, p: set<Cell>, y: int, i: nat, width: nat): (r: nat)
    ensures r >= i
    decreases width - i
  {
    if i + 1 < width && Open(m, p, Cell(i + 1, y)) then RightEnd(m, p, y, i + 1, width) else i
  }

  lemma {:induction false} LeftEndIs(m: set<Cell>, p: set<Cell>, y: int, l: nat, i: nat)
    requires l <= i && AllOpen(m, p, y, l, i - 1) && (l > 0 ==> !Open(m, p, Cell(l - 1, y)))
    ensures LeftEnd(m, p, y, i) == l
    decreases i
  {
    if l < i {
      assert Cell(i - 1, y) in Run(y, l, i - 1);
      assert AllOpen(m, p, y, l, i - 2);
      LeftEndIs(m, p, y, l, i - 1);
    }
  }

  lemma {:induction false} RightEndIs(m: set<Cell>, p: set<Cell>, y: int, i: nat, r: nat, width: nat)
    requires i <= r && AllOpen(m, p, y, i + 1, r) && (r + 1 < width ==> !Open(m, p, Cell(r + 1, y))) && r < width
    ensures RightEnd(m, p, y, i, width) == r
    decreases r - i
  {
    if i < r {
      assert Cell(i + 1, y) in Run(y, i + 1, r);
      assert AllOpen(m, p, y, i + 2, r);
      RightEndIs(m, p, y, i + 1, r, width);
    }
  }

  // The run painted around cell i is the one between the ends.
  lemma EndsOf(m: set<Cell>, p: set<Cell>, y: int, l: nat, i: nat, r: nat, width: nat)
    requires MaximalRun(m + {Cell(i, y)}, p, y, l, i, r) && r < width
    ensures LeftEnd(m, p, y, i) == l && RightEnd(m, p, y, i, width) == r
  {
    var c, m' := Cell(i, y), m + {Cell(i, y)};
    assert forall e :: e != c ==> (Open(m, p, e) <==> Open(m', p, e));
    LeftEndIs(m, p, y, l, i);
    RightEndIs(m, p, y, i, r, width);
  }

  // ---- Steps ----

  // Cell i of row y starts a run.
  ghost predicate StartsAt(f: Field, p: set<Cell>, y: int, i: int) {
    0 <= i < f.width && Open(f.m, p, Cell(i, y))
  }

  // The run at column i beside segment s painted and queued.
  ghost function Taken(ring: Ring, f: Field, g: Progress, s: Segment, d: int, i: nat): Progress {
    var y := s.y + d;
    var l, r := LeftEnd(f.m, g.p, y, i), RightEnd(f.m, g.p, y, i, f.width);
    Put(ring, g, g.p + Run(y, l, r), Segment(y, l, r, s.l, s.r, -d))
  }

  lemma TakenIs(ring: Ring, f: Field, g: Progress, s: Segment, d: int, l: nat, i: nat, r: nat)
    requires Cell(i, s.y + d) in f.m && MaximalRun(f.m, g.p, s.y + d, l, i, r) && r < f.width
    ensures Taken(ring, f, g, s, d, i)
            == Put(ring, g, g.p + Run(s.y + d, l, r), Segment(s.y + d, l, r, s.l, s.r, -d))
    ensures RightEnd(f.m, g.p, s.y + d, i, f.width) == r
  {
    hide LeftEnd, RightEnd, Put, MaximalRun;
    assert f.m + {Cell(i, s.y + d)} == f.m;
    EndsOf(f.m, g.p, s.y + d, l, i, r, f.width);
  }

  /** The scan of row s.y + d from column i to column right. */
  ghost function ScanFrom(ring: Ring, f: Field, g: Progress, s: Segment, d: int, i: int, right: int): Progress
    decreases if i <= right then right - i + 1 else 0
  {
    if i > right then g
    else if StartsAt(f, g.p, s.y + d, i) then
      ScanFrom(ring, f, Taken(ring, f, g, s, d, i), s, d, RightEnd(f.m, g.p, s.y + d, i, f.width) + 2, right)
    else ScanFrom(ring, f, g, s, d, i + 1, right)
  }

  // One step of the scan at column i leads to g' and looks at column i' last.
  ghost predicate ScanStep(ring: Ring, f: Field, g: Progress, s: Segment, d: int, i: int, g': Progress, i': int) {
    if StartsAt(f, g.p, s.y + d, i)
    then g' == Taken(ring, f, g, s, d, i) && i' == RightEnd(f.m, g.p, s.y + d, i, f.width) + 1
    else g' == g && i' == i
  }

  lemma ScanOn(ring: Ring, f: Field, g: Progress, s: Segment, d: int, i: int, g': Progress, i': int, right: int)
    requires i <= right && ScanStep(ring, f, g, s, d, i, g', i')
    ensures ScanFrom(ring, f, g, s, d, i, right) == ScanFrom(ring, f, g', s, d, i' + 1, right)
  {
    hide Taken, RightEnd;
  }

  lemma ScanOver(ring: Ring, f: Field, g: Progress, s: Segment, d: int, i: int, right: int)
    requires i > right
    ensures ScanFrom(ring, f, g, s, d, i, right) == g
  {
  }

  ghost function Scan(ring: Ring, f: Field, g: Progress, s: Segment, d: int, left: int, right: int): Progress {
    if 0 <= s.y + d < f.height then ScanFrom(ring, f, g, s, d, left, right) else g
  }

  /** The three scans of a segment. */
  ghost function Look(ring: Ring, f: Field, g: Progress, s: Segment): Progress {
    var g1 := Scan(ring, f, g, s, -s.dir, s.l - 1, s.r + 1);
    var g2 := Scan(ring, f, g1, s, s.dir, s.l - 1, s.prevl - 1);
    Scan(ring, f, g2, s, s.dir, s.prevr + 1, s.r + 1)
  }

  ghost function Step(ring: Ring, f: Field, g: Progress): Progress {
    if g.q == [] then g else Look(ring, f, g.(q := g.q[1..]), g.q[0])
  }

  ghost function Start(ring: Ring, f: Field, seed: Cell): Progress {
    if seed.x < 0 then Progress({}, [], false)
    else
      var l, r := LeftEnd(f.m, {}, seed.y, seed.x), RightEnd(f.m, {}, seed.y, seed.x, f.width);
      Put(ring, Progress({}, [], false), Run(seed.y, l, r), Segment(seed.y, l, r, r + 1, r, 1))
  }

  /** The fill after k rounds of its loop. */
  ghost function After(ring: Ring, f: Field, seed: Cell, k: nat): Progress {
    if k == 0 then Start(ring, f, seed) else Step(ring, f, After(ring, f, seed, k - 1))
  }

  // ---- The overflow ----

  // The queue of the fill on an endless ring reaches n segments.
  ghost predicate Reaches(f: Field, seed: Cell, n: nat) {
    exists k: nat :: |After(Endless, f, seed, k).q| >= n
  }

  // A bounded ring against an endless one: the same as long as the queue is short, lost once it
  // has been long within the round.
  ghost predicate Alike(n: nat, a: Progress, b: Progress) {
    && (|b.q| < n ==> a == b && !a.lost)
    && (|b.q| >= n ==> a.lost)
  }

  lemma {:induction false} ScanAlike(n: nat, f: Field, a: Progress, b: Progress, s: Segment, d: int, i: int, right: int)
    requires Alike(n, a, b)
    ensures var a', b' := ScanFrom(Slots(n), f, a, s, d, i, right), ScanFrom(Endless, f, b, s, d, i, right);
            Alike(n, a', b') && |b'.q| >= |b.q| && (a.lost ==> a'.lost)
    decreases if i <= right then right - i + 1 else 0
  {
    if |b.q| >= n {
      ScanKeeps(Slots(n), f, a, s, d, i, right);
      ScanKeeps(Endless, f, b, s, d, i, right);
    } else if i <= right {
      if StartsAt(f, a.p, s.y + d, i) {
        ScanAlike(n, f, Taken(Slots(n), f, a, s, d, i), Taken(Endless, f, b, s, d, i), s, d,
                  RightEnd(f.m, a.p, s.y + d, i, f.width) + 2, right);
      } else {
        ScanAlike(n, f, a, b, s, d, i + 1, right);
      }
    }
  }

  // What is lost stays lost, and an endless queue only grows in a scan.
  lemma {:induction false} ScanKeeps(ring: Ring, f: Field, g: Progress, s: Segment, d: int, i: int, right: int)
    ensures var g' := ScanFrom(ring, f, g, s, d, i, right);
            (g.lost ==> g'.lost) && (ring.Endless? ==> |g'.q| >= |g.q| && g'.lost == g.lost)
    decreases if i <= right then right - i + 1 else 0
  {
    if i <= right {
      if StartsAt(f, g.p, s.y + d, i) {
        ScanKeeps(ring, f, Taken(ring, f, g, s, d, i), s, d, RightEnd(f.m, g.p, s.y + d, i, f.width) + 2, right);
      } else {
        ScanKeeps(ring, f, g, s, d, i + 1, right);
      }
    }
  }

  lemma LookAlike(n: nat, f: Field, a: Progress, b: Progress, s: Segment)
    requires Alike(n, a, b)
    ensures Alike(n, Look(Slots(n), f, a, s), Look(Endless, f, b, s))
    ensures a.lost ==> Look(Slots(n), f, a, s).lost
  {
    ScanAlike(n, f, a, b, s, -s.dir, s.l - 1, s.r + 1);
    var a1, b1 := Scan(Slots(n), f, a, s, -s.dir, s.l - 1, s.r + 1), Scan(Endless, f, b, s, -s.dir, s.l - 1, s.r + 1);
    ScanAlike(n, f, a1, b1, s, s.dir, s.l - 1, s.prevl - 1);
    var a2, b2 := Scan(Slots(n), f, a1, s, s.dir, s.l - 1, s.prevl - 1), Scan(Endless, f, b1, s, s.dir, s.l - 1, s.prevl - 1);
    ScanAlike(n, f, a2, b2, s, s.dir, s.prevr + 1, s.r + 1);
  }

  lemma LookKeeps(ring: Ring, f: Field, g: Progress, s: Segment)
    ensures g.lost ==> Look(ring, f, g, s).lost
  {
    hide ScanFrom;
    var g1 := Scan(ring, f, g, s, -s.dir, s.l - 1, s.r + 1);
    var g2 := Scan(ring, f, g1, s, s.dir, s.l - 1, s.prevl - 1);
    ScanKeeps(ring, f, g, s, -s.dir, s.l - 1, s.r + 1);
    ScanKeeps(ring, f, g1, s, s.dir, s.l - 1, s.prevl - 1);
    ScanKeeps(ring, f, g2, s, s.dir, s.prevr + 1, s.r + 1);
  }

  // Until the endless queue reaches n segments both rings agree; from then on the bounded one is
  // lost.
  lemma {:induction false} AfterAlike(n: nat, f: Field, seed: Cell, k: nat)
    requires n > 0 && seed.x >= 0
    ensures var a, b := After(Slots(n), f, seed, k), After(Endless, f, seed, k);
            && ((forall j: nat :: j <= k ==> |After(Endless, f, seed, j).q| < n) ==> a == b && !a.lost)
            && (forall j: nat :: j <= k && |After(Endless, f, seed, j).q| >= n ==> a.lost)
  {
    hide Look;
    if k > 0 {
      AfterAlike(n, f, seed, k - 1);
      var a, b := After(Slots(n), f, seed, k - 1), After(Endless, f, seed, k - 1);
      if a.q != [] { LookKeeps(Slots(n), f, a.(q := a.q[1..]), a.q[0]); }
      if a == b && !a.lost && b.q != [] && |b.q| < n {
        LookAlike(n, f, a.(q := a.q[1..]), b.(q := b.q[1..]), a.q[0]);
      }
    }
  }

  lemma {:induction false} DoneStays(ring: Ring, f: Field, seed: Cell, k: nat, j: nat)
    requires After(ring, f, seed, k).q == [] && k <= j
    ensures After(ring, f, seed, j) == After(ring, f, seed, k)
    decreases j - k
  {
    if k < j { DoneStays(ring, f, seed, k, j - 1); }
  }

  /** When the fill is done, its ring of n slots has overflowed if and only if the queue of the
      fill on an endless ring reaches n segments. */
  lemma WhenLost(n: nat, f: Field, seed: Cell, k: nat)
    requires n > 0 && seed.x >= 0 && After(Slots(n), f, seed, k).q == []
    ensures After(Slots(n), f, seed, k).lost <==> Reaches(f, seed, n)
  {
    AfterAlike(n, f, seed, k);
    if !After(Slots(n), f, seed, k).lost && Reaches(f, seed, n) {
      var j: nat :| |After(Endless, f, seed, j).q| >= n;
      if j > k { DoneStays(Endless, f, seed, k, j); }
    }
  }

  // ---- Runs and the size of the queue ----

  // The first cells of the runs of a set.
  ghost function RunStarts(p: set<Cell>): set<Cell> {
    set c | c in p && Cell(c.x - 1, c.y) !in p
  }

  ghost predicate Beside(c: Cell, d: Cell) {
    c.y == d.y && (d.x == c.x + 1 || c.x == d.x + 1)
  }

  // Painted cells have no open cell beside them in their row.
  ghost predicate RowClosed(m: set<Cell>, p: set<Cell>) {
    forall c, d :: c in p && d in m && Beside(c, d) ==> d in p
  }

  ghost predicate InField(f: Field) {
    forall c :: c in f.m ==> 0 <= c.x < f.width && 0 <= c.y < f.height
  }

  lemma {:induction false} LeftEndOpen(m: set<Cell>, p: set<Cell>, y: int, i: nat)
    ensures var l := LeftEnd(m, p, y, i); AllOpen(m, p, y, l, i - 1) && (l > 0 ==> !Open(m, p, Cell(l - 1, y)))
  {
    if i > 0 && Open(m, p, Cell(i - 1, y)) { LeftEndOpen(m, p, y, i - 1); }
  }

  lemma {:induction false} RightEndOpen(m: set<Cell>, p: set<Cell>, y: int, i: nat, width: nat)
    ensures var r := RightEnd(m, p, y, i, width); AllOpen(m, p, y, i + 1, r) && (r + 1 < width ==> !Open(m, p, Cell(r + 1, y)))
    decreases width - i
  {
    if i + 1 < width && Open(m, p, Cell(i + 1, y)) { RightEndOpen(m, p, y, i + 1, width); }
  }

  // The run taken at an open cell is a maximal one.
  lemma EndsAreMaximal(f: Field, p: set<Cell>, y: int, i: nat)
    requires InField(f) && StartsAt(f, p, y, i)
    ensures MaximalRun(f.m, p, y, LeftEnd(f.m, p, y, i), i, RightEnd(f.m, p, y, i, f.width))
  {
    LeftEndOpen(f.m, p, y, i);
    RightEndOpen(f.m, p, y, i, f.width);
    var l, r := LeftEnd(f.m, p, y, i), RightEnd(f.m, p, y, i, f.width);
    forall c | c in Run(y, l, r) ensures Open(f.m, p, c) {
      assert c == Cell(c.x, c.y);
      assert c.x < i ==> c in Run(y, l, i - 1);
      assert c.x > i ==> c in Run(y, i + 1, r);
    }
  }

  /** Painting a maximal run adds one run. */
  lemma OneMoreRun(m: set<Cell>, p: set<Cell>, y: int, l: int, i: int, r: int)
    requires RowClosed(m, p) && MaximalRun(m, p, y, l, i, r)
    ensures RowClosed(m, p + Run(y, l, r)) && |RunStarts(p + Run(y, l, r))| == |RunStarts(p)| + 1
  {
    var p', first := p + Run(y, l, r), Cell(l, y);
    assert Open(m, p, first) && Open(m, p, Cell(r, y));
    forall c, d | c in p' && d in m && Beside(c, d) ensures d in p' {
      if c !in p && !(l <= d.x <= r) {
        assert d == Cell(l - 1, y) || d == Cell(r + 1, y);
      }
    }
    forall c ensures c in RunStarts(p') <==> c in RunStarts(p) || c == first {
      var left := Cell(c.x - 1, c.y);
      if c in p && left in Run(y, l, r) {
        assert Beside(c, left) && Open(m, p, left);
      }
      if c == first && left in p {
        assert Beside(left, first);
      }
      if c in Run(y, l, r) && c != first {
        assert c == Cell(c.x, c.y) && left in Run(y, l, r);
      }
    }
    assert first !in RunStarts(p);
    assert RunStarts(p') == RunStarts(p) + {first};
  }

  // Each segment queued is a run painted.
  ghost predicate Balanced(f: Field, g: Progress, g': Progress) {
    && RowClosed(f.m, g'.p) && g.p <= g'.p <= g.p + f.m
    && |g'.q| - |g.q| == |RunStarts(g'.p)| - |RunStarts(g.p)|
  }

  lemma TakenBalanced(f: Field, g: Progress, s: Segment, d: int, i: nat)
    requires InField(f) && RowClosed(f.m, g.p) && StartsAt(f, g.p, s.y + d, i)
    ensures Balanced(f, g, Taken(Endless, f, g, s, d, i))
  {
    hide RowClosed, RunStarts, LeftEnd, RightEnd;
    EndsAreMaximal(f, g.p, s.y + d, i);
    var l, r := LeftEnd(f.m, g.p, s.y + d, i), RightEnd(f.m, g.p, s.y + d, i, f.width);
    OneMoreRun(f.m, g.p, s.y + d, l, i, r);
    forall c | c in Run(s.y + d, l, r) ensures c in f.m {
      assert Open(f.m, g.p, c);
    }
  }

  lemma {:induction false} ScanBalanced(f: Field, g: Progress, s: Segment, d: int, i: int, right: int)
    requires InField(f) && RowClosed(f.m, g.p)
    ensures Balanced(f, g, ScanFrom(Endless, f, g, s, d, i, right))
    decreases if i <= right then right - i + 1 else 0
  {
    hide RowClosed, RunStarts, InField, Taken, RightEnd, LeftEnd;
    if i <= right {
      if StartsAt(f, g.p, s.y + d, i) {
        TakenBalanced(f, g, s, d, i);
        ScanBalanced(f, Taken(Endless, f, g, s, d, i), s, d, RightEnd(f.m, g.p, s.y + d, i, f.width) + 2, right);
      } else {
        ScanBalanced(f, g, s, d, i + 1, right);
      }
    }
  }

  lemma LookBalanced(f: Field, g: Progress, s: Segment)
    requires InField(f) && RowClosed(f.m, g.p)
    ensures Balanced(f, g, Look(Endless, f, g, s))
  {
    hide RowClosed, RunStarts, ScanFrom;
    ScanBalanced(f, g, s, -s.dir, s.l - 1, s.r + 1);
    var g1 := Scan(Endless, f, g, s, -s.dir, s.l - 1, s.r + 1);
    ScanBalanced(f, g1, s, s.dir, s.l - 1, s.prevl - 1);
    var g2 := Scan(Endless, f, g1, s, s.dir, s.l - 1, s.prevl - 1);
    ScanBalanced(f, g2, s, s.dir, s.prevr + 1, s.r + 1);
  }

  /** The queue never holds more segments than runs are painted, and after the first round one
      less, since each was queued once. */
  lemma {:induction false} QueueBelowRuns(f: Field, seed: Cell, k: nat)
    requires InField(f) && 0 <= seed.x < f.width
    ensures var g := After(Endless, f, seed, k);
            && RowClosed(f.m, g.p) && seed in g.p && g.p <= f.m + {seed}
            && |g.q| <= (if k == 0 then 1 else |RunStarts(g.p)| - 1) <= |RunStarts(g.p)|
  {
    if k == 0 {
      StartBalanced(f, seed);
    } else {
      hide RowClosed, RunStarts, Look;
      QueueBelowRuns(f, seed, k - 1);
      var g := After(Endless, f, seed, k - 1);
      if g.q != [] { LookBalanced(f, g.(q := g.q[1..]), g.q[0]); }
      SomeRun(f, seed, g.p);
    }
  }

  lemma SomeRun(f: Field, seed: Cell, p: set<Cell>)
    requires seed in p
    ensures |RunStarts(p)| >= 1
  {
    var x := seed.x;
    while Cell(x - 1, seed.y) in p
      invariant Cell(x, seed.y) in p
      decreases p - (set c | c in p && c.x > x)
    {
      assert Cell(x, seed.y) in p - (set c | c in p && c.x > x);
      x := x - 1;
      assert Cell(x + 1, seed.y) !in p - (set c | c in p && c.x > x);
    }
    assert Cell(x, seed.y) in RunStarts(p);
  }

  // The run around the seed, as if the seed itself matched.
  lemma SeedRun(f: Field, seed: Cell)
    requires InField(f) && 0 <= seed.x < f.width
    ensures var l, r := LeftEnd(f.m, {}, seed.y, seed.x), RightEnd(f.m, {}, seed.y, seed.x, f.width);
            MaximalRun(f.m + {seed}, {}, seed.y, l, seed.x, r)
  {
    hide LeftEnd, RightEnd;
    LeftEndOpen(f.m, {}, seed.y, seed.x);
    RightEndOpen(f.m, {}, seed.y, seed.x, f.width);
    var l, r := LeftEnd(f.m, {}, seed.y, seed.x), RightEnd(f.m, {}, seed.y, seed.x, f.width);
    forall c | c in Run(seed.y, l, r) ensures Open(f.m + {seed}, {}, c) {
      assert c == Cell(c.x, c.y) && seed == Cell(seed.x, seed.y);
      assert c.x < seed.x ==> c in Run(seed.y, l, seed.x - 1);
      assert c.x > seed.x ==> c in Run(seed.y, seed.x + 1, r);
    }
  }

  lemma FirstRun(m: set<Cell>, seed: Cell, l: int, r: int)
    requires MaximalRun(m + {seed}, {}, seed.y, l, seed.x, r)
    ensures var p := Run(seed.y, l, r);
            RowClosed(m + {seed}, p) && RowClosed(m, p) && seed in p && p <= m + {seed} && |RunStarts(p)| == 1
  {
    OneMoreRun(m + {seed}, {}, seed.y, l, seed.x, r);
    assert {} + Run(seed.y, l, r) == Run(seed.y, l, r);
    assert RunStarts({}) == {};
    assert seed in Run(seed.y, l, r);
    forall c | c in Run(seed.y, l, r) ensures c in m + {seed} {
      assert Open(m + {seed}, {}, c);
    }
  }

  lemma StartBalanced(f: Field, seed: Cell)
    requires InField(f) && 0 <= seed.x < f.width
    ensures var g := Start(Endless, f, seed);
            RowClosed(f.m, g.p) && seed in g.p && g.p <= f.m + {seed} && |g.q| == 1 == |RunStarts(g.p)|
  {
    hide RowClosed, RunStarts, MaximalRun, LeftEnd, RightEnd, InField;
    SeedRun(f, seed);
    FirstRun(f.m, seed, LeftEnd(f.m, {}, seed.y, seed.x), RightEnd(f.m, {}, seed.y, seed.x, f.width));
  }

  // ---- A ring that is large enough ----

  // Runs are maximal, so the runs painted are runs of all that matches.
  lemma RunsOfAll(m: set<Cell>, p: set<Cell>, seed: Cell)
    requires RowClosed(m, p) && seed in p && p <= m + {seed}
    ensures |RunStarts(p)| <= |RunStarts(m + {seed})|
  {
    forall c | c in RunStarts(p) ensures c in RunStarts(m + {seed}) {
      assert Beside(c, Cell(c.x - 1, c.y));
    }
    Smaller(RunStarts(p), RunStarts(m + {seed}));
  }

  /** A ring with as many slots as there are runs, and two at least, does not overflow. */
  lemma RunsFit(n: nat, f: Field, seed: Cell)
    requires InField(f) && 0 <= seed.x < f.width
    requires n >= 2 && n >= |RunStarts(f.m + {seed})|
    ensures !Reaches(f, seed, n)
  {
    forall k: nat ensures |After(Endless, f, seed, k).q| < n {
      QueueBelowRuns(f, seed, k);
      RunsOfAll(f.m, After(Endless, f, seed, k).p, seed);
    }
  }

  function Half(c: Cell): Cell {
    Cell(c.x / 2, c.y)
  }

  // Cells of which no two lie side by side.
  ghost predicate Spaced(p: set<Cell>) {
    forall c :: c in p ==> Cell(c.x - 1, c.y) !in p
  }

  lemma {:induction false} HalfSize(p: set<Cell>)
    requires Spaced(p)
    ensures |p| <= |set c | c in p :: Half(c)|
  {
    if p != {} {
      var c :| c in p;
      var halves, rest := (set e | e in p :: Half(e)), (set e | e in p - {c} :: Half(e));
      forall e | e in p - {c} ensures Half(e) != Half(c) {
        assert e != Cell(c.x - 1, c.y) && c != Cell(e.x - 1, e.y) && e != c;
      }
      assert halves == rest + {Half(c)};
      HalfSize(p - {c});
    }
  }

  lemma RowSize(p: set<Cell>, y: int, width: nat)
    requires forall c :: c in p ==> 0 <= c.x < width && c.y == y
    ensures |p| <= width
  {
    RunSize({}, y, 0, width - 1);
    assert {} + Run(y, 0, width - 1) == Run(y, 0, width - 1);
    Smaller(p, Run(y, 0, width - 1));
  }

  // A slot for every other word of each row.
  ghost function EveryOther(width: nat, height: nat): int {
    Rows(height, (width + 1) / 2)
  }

  ghost predicate InGrid(p: set<Cell>, width: nat, height: nat) {
    forall c :: c in p ==> 0 <= c.x < width && 0 <= c.y < height
  }

  // A set of cells is its last row and the rest.
  lemma LastRow(p: set<Cell>, width: nat, height: nat) returns (last: set<Cell>, rest: set<Cell>)
    requires InGrid(p, width, height + 1)
    ensures last <= p && rest <= p && |p| == |rest| + |last|
    ensures InGrid(rest, width, height) && |last| <= width
  {
    last := set c | c in p && c.y == height;
    rest := p - last;
    assert p == rest + last;
    RowSize(last, height, width);
  }

  lemma {:induction false} GridSize(p: set<Cell>, width: nat, height: nat)
    requires InGrid(p, width, height)
    ensures |p| <= Rows(height, width)
  {
    if height > 0 {
      hide InGrid;
      var last, rest := LastRow(p, width, height - 1);
      GridSize(rest, width, height - 1);
    } else {
      assert p == {};
    }
  }

  lemma HalvesInside(p: set<Cell>, width: nat, height: nat)
    requires InGrid(p, width, height)
    ensures InGrid(set c | c in p :: Half(c), (width + 1) / 2, height)
  {
    forall c | c in p ensures 0 <= Half(c).x < (width + 1) / 2 {
      assert c.x < width;
    }
  }

  /** A row of width words has half as many runs at most, rounded up. */
  lemma RunsBound(f: Field)
    requires InField(f)
    ensures |RunStarts(f.m)| <= EveryOther(f.width, f.height)
  {
    hide Rows, Half;
    var starts := RunStarts(f.m);
    assert InGrid(starts, f.width, f.height);
    HalfSize(starts);
    HalvesInside(starts, f.width, f.height);
    GridSize(set c | c in starts :: Half(c), (f.width + 1) / 2, f.height);
  }

  /** No image of that size overflows a ring of two slots or more that has one for every other
      word of each row. */
  lemma SizeFits(n: nat, f: Field, seed: Cell)
    requires InField(f) && 0 <= seed.x < f.width && 0 <= seed.y < f.height
    requires n >= 2 && n >= EveryOther(f.width, f.height)
    ensures !Reaches(f, seed, n)
  {
    RunsBound(Field(f.m + {seed}, f.width, f.height));
    RunsFit(n, f, seed);
  }

  lemma LargeEnough(n: nat, f: Field, seed: Cell)
    requires InField(f) && 0 <= seed.x < f.width && 0 <= seed.y < f.height
    ensures n >= 2 && n >= |RunStarts(f.m + {seed})| ==> !Reaches(f, seed, n)
    ensures n >= 2 && n >= EveryOther(f.width, f.height) ==> !Reaches(f, seed, n)
  {
    if n >= 2 && n >= |RunStarts(f.m + {seed})| { RunsFit(n, f, seed); }
    if n >= 2 && n >= EveryOther(f.width, f.height) { SizeFits(n, f, seed); }
  }

  /** The program makes its ring twice as long as the longer side of the image in pixels, two to
      a word: enough for six rows, or for four words to the row, whatever the image shows. */
  lemma SmallRegionFits(n: nat, f: Field, seed: Cell)
    requires InField(f) && 0 <= seed.x < f.width && 0 <= seed.y < f.height
    requires n >= 2 * Max(2 * f.width, f.height) && (f.height <= 6 || f.width <= 4)
    ensures !Reaches(f, seed, n)
  {
    RowsIsProduct(f.height, (f.width + 1) / 2);
    var w := (f.width + 1) / 2;
    if f.width <= 4 {
      assert w == 1 || w == 2;
    }
    SizeFits(n, f, seed);
  }

  // ---- A ring that is too small ----

  // Two columns joined by the middle row.
  function Bridge(): Field {
    Field(set x: int, y: int | 0 <= x < 3 && 0 <= y < 3 && (x != 1 || y == 1) :: Cell(x, y), 3, 3)
  }

  // A run of one cell of the bridge, above or below the middle row.
  lemma TakePier(g: Progress, s: Segment, d: int, x: nat)
    requires (d == 1 || d == -1) && (x == 0 || x == 2) && s.y == 1 && Cell(x, 1 + d) !in g.p
    ensures StartsAt(Bridge(), g.p, s.y + d, x) && RightEnd(Bridge().m, g.p, s.y + d, x, 3) == x
    ensures Taken(Endless, Bridge(), g, s, d, x)
            == Progress(g.p + {Cell(x, 1 + d)}, g.q + [Segment(1 + d, x, x, s.l, s.r, -d)], g.lost)
  {
    hide Taken, LeftEnd, RightEnd;
    var m, y := Bridge().m, 1 + d;
    assert Run(y, x, x) == {Cell(x, y)};
    assert MaximalRun(m, g.p, y, x, x, x) by {
      assert Cell(x, y) in m && Cell(x - 1, y) !in m && Cell(x + 1, y) !in m;
    }
    TakenIs(Endless, Bridge(), g, s, d, x, x, x);
  }

  lemma ScanPiers(g: Progress, s: Segment, d: int, right: int)
    requires (d == 1 || d == -1) && s.y == 1 && s.l == 0 && s.r == 2 && Cell(0, 1 + d) !in g.p && Cell(2, 1 + d) !in g.p
    requires right == 2 || right == 3
    ensures Scan(Endless, Bridge(), g, s, d, -1, right)
            == Progress(g.p + {Cell(0, 1 + d)} + {Cell(2, 1 + d)},
                        g.q + [Segment(1 + d, 0, 0, 0, 2, -d)] + [Segment(1 + d, 2, 2, 0, 2, -d)], g.lost)
  {
    hide Taken, RightEnd, ScanFrom;
    var ring, f := Endless, Bridge();
    PassOver(ring, f, g, s, d, -1, 0, right);
    TakePier(g, s, d, 0);
    var g1 := Taken(ring, f, g, s, d, 0);
    ScanOn(ring, f, g, s, d, 0, g1, 1, right);
    TakePier(g1, s, d, 2);
    var g2 := Taken(ring, f, g1, s, d, 2);
    ScanOn(ring, f, g1, s, d, 2, g2, 3, right);
    ScanOver(ring, f, g2, s, d, 4, right);
  }

  lemma BridgeStart()
    ensures Start(Endless, Bridge(), Cell(1, 1)) == Progress(Run(1, 0, 2), [Segment(1, 0, 2, 3, 2, 1)], false)
  {
    var m := Bridge().m;
    assert MaximalRun(m + {Cell(1, 1)}, {}, 1, 0, 1, 2);
    EndsOf(m, {}, 1, 0, 1, 2, 3);
    assert [] + [Segment(1, 0, 2, 3, 2, 1)] == [Segment(1, 0, 2, 3, 2, 1)];
  }

  /** The order in which the fill goes: from the row of the seed it queues the runs of the row above,
      from left to right, and then those of the row below. */
  lemma BridgeOrder()
    ensures After(Endless, Bridge(), Cell(1, 1), 1).q
            == [Segment(0, 0, 0, 0, 2, 1), Segment(0, 2, 2, 0, 2, 1), Segment(2, 0, 0, 0, 2, -1), Segment(2, 2, 2, 0, 2, -1)]
  {
    hide Scan, Start, ScanFrom;
    var ring, f, s, g := Endless, Bridge(), Segment(1, 0, 2, 3, 2, 1), Progress(Run(1, 0, 2), [], false);
    BridgeStart();
    var g0 := After(ring, f, Cell(1, 1), 0);
    assert g0.q[1..] == [] && g0.(q := []) == g;
    ScanPiers(g, s, -1, 3);
    var g1 := Scan(ring, f, g, s, -1, -1, 3);
    ScanPiers(g1, s, 1, 2);
    var g2 := Scan(ring, f, g1, s, 1, -1, 2);
    NoThird(g2, s);
    assert After(ring, f, Cell(1, 1), 1) == Step(ring, f, g0) == Look(ring, f, g, s);
  }

  lemma NoThird(g: Progress, s: Segment)
    ensures Scan(Endless, Bridge(), g, s, 1, 3, 3) == g
  {
    ScanOn(Endless, Bridge(), g, s, 1, 3, g, 3, 3);
    ScanOver(Endless, Bridge(), g, s, 1, 4, 3);
  }

  // A comb: the top row, and the two outer columns in the rows below it.
  function Comb(rows: nat): Field {
    Field(set x: int, y: int | 0 <= x < 5 && 0 <= y < rows && (y == 0 || x == 0 || x == 4) :: Cell(x, y), 5, rows)
  }

  // The columns of a row that start no run are passed over.
  lemma {:induction false} PassOver(ring: Ring, f: Field, g: Progress, s: Segment, d: int, i: int, k: int, right: int)
    requires i <= k <= right + 1
    requires var y := s.y + d; forall x :: i <= x < k ==> !StartsAt(f, g.p, y, x)
    ensures ScanFrom(ring, f, g, s, d, i, right) == ScanFrom(ring, f, g, s, d, k, right)
    decreases k - i
  {
    hide ScanFrom, StartsAt;
    if i < k {
      ScanOn(ring, f, g, s, d, i, g, i, right);
      PassOver(ring, f, g, s, d, i + 1, k, right);
    }
  }

  // A tooth of the comb: a run of one cell.
  lemma TakeTooth(rows: nat, ring: Ring, g: Progress, s: Segment, x: nat)
    requires rows >= 2 && (x == 0 || x == 4) && s.y == 0 && Cell(x, 1) !in g.p
    ensures StartsAt(Comb(rows), g.p, 1, x) && RightEnd(Comb(rows).m, g.p, 1, x, 5) == x
    ensures Taken(ring, Comb(rows), g, s, 1, x) == Put(ring, g, g.p + {Cell(x, 1)}, Segment(1, x, x, s.l, s.r, -1))
  {
    hide Taken, Put, LeftEnd, RightEnd;
    var m := Comb(rows).m;
    assert Run(1, x, x) == {Cell(x, 1)};
    assert MaximalRun(m, g.p, 1, x, x, x) by {
      assert Cell(x, 1) in m && Cell(x - 1, 1) !in m && Cell(x + 1, 1) !in m;
    }
    TakenIs(ring, Comb(rows), g, s, 1, x, x, x);
  }

  lemma CombStart(rows: nat)
    requires rows >= 2
    ensures Start(Slots(2), Comb(rows), Cell(0, 0)) == Progress(Run(0, 0, 4), [Segment(0, 0, 4, 5, 4, 1)], false)
  {
    var m := Comb(rows).m;
    assert MaximalRun(m + {Cell(0, 0)}, {}, 0, 0, 0, 4);
    EndsOf(m, {}, 0, 0, 0, 4, 5);
  }

  lemma CombLook(rows: nat, g: Progress, s: Segment)
    requires rows >= 2 && g == Progress(Run(0, 0, 4), [], false) && s == Segment(0, 0, 4, 5, 4, 1)
    ensures Look(Slots(2), Comb(rows), g, s) == Progress(Run(0, 0, 4) + {Cell(0, 1)} + {Cell(4, 1)}, [], true)
  {
    hide Taken, RightEnd, ScanFrom;
    var ring, f := Slots(2), Comb(rows);
    PassOver(ring, f, g, s, 1, -1, 0, 4);
    TakeTooth(rows, ring, g, s, 0);
    var g1 := Taken(ring, f, g, s, 1, 0);
    ScanOn(ring, f, g, s, 1, 0, g1, 1, 4);
    PassOver(ring, f, g1, s, 1, 2, 4, 4);
    TakeTooth(rows, ring, g1, s, 4);
    var g2 := Taken(ring, f, g1, s, 1, 4);
    ScanOn(ring, f, g1, s, 1, 4, g2, 5, 4);
    ScanOver(ring, f, g2, s, 1, 6, 4);
    PassOver(ring, f, g2, s, 1, 5, 6, 5);
    ScanOver(ring, f, g2, s, 1, 6, 5);
  }

  /** In a ring of two slots the fill of the comb overflows and paints its first two rows only:
      it is complete if and only if there are no more. */
  lemma CombFill(rows: nat, k: nat)
    requires rows >= 2 && After(Slots(2), Comb(rows), Cell(0, 0), k).q == []
    ensures var g := After(Slots(2), Comb(rows), Cell(0, 0), k);
            g.lost && g.p == Comb(2).m && (g.p == Comb(rows).m <==> rows == 2)
  {
    CombStart(rows);
    var g := After(Slots(2), Comb(rows), Cell(0, 0), 0);
    assert k > 0;
    CombLook(rows, g.(q := []), g.q[0]);
    assert After(Slots(2), Comb(rows), Cell(0, 0), 1) == Step(Slots(2), Comb(rows), g);
    assert g.q[1..] == [];
    DoneStays(Slots(2), Comb(rows), Cell(0, 0), 1, k);
    CombRows(rows);
  }

  lemma CombRows(rows: nat)
    requires rows >= 2
    ensures Run(0, 0, 4) + {Cell(0, 1)} + {Cell(4, 1)} == Comb(2).m
    ensures Comb(2).m == Comb(rows).m <==> rows == 2
  {
    forall c ensures c in Run(0, 0, 4) + {Cell(0, 1)} + {Cell(4, 1)} <==> c in Comb(2).m {
      assert c == Cell(c.x, c.y);
    }
    if rows > 2 {
      assert Cell(0, 2) in Comb(rows).m && Cell(0, 2) !in Comb(2).m;
    }
  }

  lemma {:induction false} ToothConnected(rows: nat, y: nat)
    requires y < rows
    ensures Connected(Comb(rows).m, Cell(0, 0), Cell(0, y))
  {
    if y == 0 {
      ConnectedSelf(Comb(rows).m, Cell(0, 0));
    } else {
      ToothConnected(rows, y - 1);
      ConnectedStep(Comb(rows).m, Cell(0, 0), Cell(0, y - 1), Cell(0, y));
    }
  }
}
