/** icvFloodFill: the scan-line fill of one region of an image. */
module FloodFill {
  import Basics
  import Division
  import opened FillSteps
  import opened FillTree
  import opened Regions
  import opened Segments

  /** The pixel pairs of an image in rows of offset words, of which width are in use. */
  class Canvas {
    const data: array<int>
    const offset: nat
    const width: nat
    const height: nat

    constructor (data: array<int>, offset: nat, width: nat, height: nat)
      ensures this.data == data && this.offset == offset && this.width == width && this.height == height
    {
      this.data, this.offset, this.width, this.height := data, offset, width, height;
    }

    ghost predicate Valid() {
      0 < width <= offset && height * offset <= data.Length
    }

    predicate In(c: Cell) {
      0 <= c.x < width && 0 <= c.y < height
    }

    function Index(c: Cell): int {
      c.y * offset + c.x
    }

    // The cell of a word of the image; a word of the row padding has x >= width.
    function CellOf(k: nat): Cell
      requires 0 < offset
    {
      Cell(k % offset, k / offset)
    }

    /** The word of a cell: row by row, offset words to a row. */
    lemma WordOfCell(x: nat, y: nat)
      requires x < offset
      ensures CellOf(y * offset + x) == Cell(x, y)
    {
      Basics.RowsIsProduct(y, offset);
      Division.Divide(y * offset + x, offset, y, x);
    }

    lemma IndexIsUnique(c: Cell, k: nat)
      requires Valid() && In(c)
      ensures 0 <= Index(c) < data.Length
      ensures CellOf(k) == c <==> k == Index(c)
    {
      Basics.RowsIsProduct(c.y, offset);
      Basics.RowsIsProduct(height, offset);
      Basics.RowsApart(c.y, height, offset);
      if k == Index(c) {
        Division.Divide(k, offset, c.y, c.x);
      } else if CellOf(k) == c {
        Division.Split(k, offset);
      }
    }

    method Get(c: Cell) returns (v: int)
      requires Valid() && In(c)
      ensures 0 <= Index(c) < data.Length && v == data[Index(c)]
    {
      IndexIsUnique(c, 0);
      v := data[c.y * offset + c.x];
    }

    method Put(c: Cell, v: int)
      requires Valid() && In(c)
      modifies data
      ensures forall k :: 0 <= k < data.Length ==> data[k] == if CellOf(k) == c then v else old(data[k])
    {
      IndexIsUnique(c, 0);
      data[c.y * offset + c.x] := v;
      forall k | 0 <= k < data.Length
        ensures data[k] == if CellOf(k) == c then v else old(data[k])
      {
        IndexIsUnique(c, k);
      }
    }
  }

  // ---- The fill itself ----

  // Every word of the image holds v if its cell is in p, and what it held before otherwise.
  ghost predicate Shows(cv: Canvas, before: seq<int>, p: set<Cell>, v: int)
    reads cv.data
    requires cv.Valid()
  {
    && |before| == cv.data.Length
    && forall k :: 0 <= k < cv.data.Length ==> cv.data[k] == if cv.CellOf(k) in p then v else before[k]
  }

  // The cells in use whose word the match function accepts.
  ghost predicate IsMatchSet(cv: Canvas, before: seq<int>, matches: int -> bool, m: set<Cell>)
    requires cv.Valid()
  {
    && (forall c :: c in m ==> cv.In(c))
    && forall k :: 0 <= k < |before| ==> (cv.CellOf(k) in m <==> cv.In(cv.CellOf(k)) && matches(before[k]))
  }

  /** A cell is in the set if and only if it is in use and its word matches. */
  lemma MatchIs(cv: Canvas, before: seq<int>, matches: int -> bool, m: set<Cell>, x: nat, y: nat)
    requires cv.Valid() && |before| == cv.data.Length && IsMatchSet(cv, before, matches, m)
    ensures x < cv.width && y < cv.height ==> y * cv.offset + x < |before|
    ensures Cell(x, y) in m <==> x < cv.width && y < cv.height && matches(before[y * cv.offset + x])
  {
    if x < cv.width && y < cv.height {
      cv.WordOfCell(x, y);
      cv.IndexIsUnique(Cell(x, y), y * cv.offset + x);
    }
  }

  lemma MatchSet(cv: Canvas, before: seq<int>, matches: int -> bool) returns (m: set<Cell>)
    requires cv.Valid() && |before| == cv.data.Length
    ensures IsMatchSet(cv, before, matches, m)
  {
    m := set k | 0 <= k < |before| && cv.In(cv.CellOf(k)) && matches(before[k]) :: cv.CellOf(k);
    forall k | 0 <= k < |before|
      ensures cv.CellOf(k) in m ==> cv.In(cv.CellOf(k)) && matches(before[k])
    {
      if cv.CellOf(k) in m {
        var j :| 0 <= j < |before| && cv.In(cv.CellOf(j)) && matches(before[j]) && cv.CellOf(j) == cv.CellOf(k);
        cv.IndexIsUnique(cv.CellOf(k), k);
        cv.IndexIsUnique(cv.CellOf(k), j);
      }
    }
  }

  // The image shows the painted cells p; m matched at first, and the value painted does not.
  ghost predicate State(cv: Canvas, before: seq<int>, matches: int -> bool, v: int, m: set<Cell>, p: set<Cell>)
    reads cv.data
  {
    cv.Valid() && Shows(cv, before, p, v) && !matches(v) && IsMatchSet(cv, before, matches, m)
  }

  ghost function FieldOf(cv: Canvas, m: set<Cell>): Field {
    Field(m, cv.width, cv.height)
  }

  // How far the fill has come.
  ghost function Now(queue: SegmentQueue, p: set<Cell>): Progress
    reads queue, queue.buffer
    requires queue.Valid()
  {
    Progress(p, queue.Pending(), queue.lost)
  }

  ghost function RingOf(queue: SegmentQueue): Ring {
    Slots(queue.buffer.Length)
  }

  method Probe(cv: Canvas, c: Cell, matches: int -> bool, v: int, ghost before: seq<int>, ghost m: set<Cell>, ghost p: set<Cell>)
    returns (b: bool)
    requires State(cv, before, matches, v, m, p) && cv.In(c)
    ensures b <==> Open(m, p, c)
  {
    var w := cv.Get(c);
    ghost var k := cv.Index(c);
    cv.IndexIsUnique(c, k);
    assert cv.CellOf(k) == c;
    b := matches(w);
  }

  method Paint(cv: Canvas, c: Cell, matches: int -> bool, v: int, ghost before: seq<int>, ghost m: set<Cell>, ghost p: set<Cell>)
    requires State(cv, before, matches, v, m, p) && cv.In(c)
    modifies cv.data
    ensures State(cv, before, matches, v, m, p + {c})
  {
    cv.Put(c, v);
  }

  // Paints the open cells to the left of cell i; j comes back as the first column not painted.
  method PaintLeft(cv: Canvas, i: int, y: int, matches: int -> bool, v: int, ghost before: seq<int>, ghost m: set<Cell>, ghost p: set<Cell>)
    returns (j: int)
    requires State(cv, before, matches, v, m, p) && cv.In(Cell(i, y))
    modifies cv.data
    ensures -1 <= j < i
    ensures State(cv, before, matches, v, m, p + Run(y, j + 1, i - 1))
    ensures AllOpen(m, p, y, j + 1, i - 1)
    ensures !Open(m, p, Cell(j, y))
  {
    j := i - 1;
    assert p + Run(y, i, i - 1) == p;
    while j >= 0
      invariant -1 <= j < i
      invariant State(cv, before, matches, v, m, p + Run(y, j + 1, i - 1))
      invariant AllOpen(m, p, y, j + 1, i - 1)
    {
      var b := Probe(cv, Cell(j, y), matches, v, before, m, p + Run(y, j + 1, i - 1));
      if !b {
        return;
      }
      Paint(cv, Cell(j, y), matches, v, before, m, p + Run(y, j + 1, i - 1));
      assert p + Run(y, j + 1, i - 1) + {Cell(j, y)} == p + Run(y, j, i - 1);
      j := j - 1;
    }
  }

  // Paints the open cells to its right, up to column k.
  method PaintRight(cv: Canvas, i: int, y: int, matches: int -> bool, v: int, ghost before: seq<int>, ghost m: set<Cell>, ghost p: set<Cell>)
    returns (k: int)
    requires State(cv, before, matches, v, m, p) && cv.In(Cell(i, y))
    modifies cv.data
    ensures i < k <= cv.width
    ensures State(cv, before, matches, v, m, p + Run(y, i + 1, k - 1))
    ensures AllOpen(m, p, y, i + 1, k - 1)
    ensures !Open(m, p, Cell(k, y))
  {
    k := i + 1;
    assert p + Run(y, i + 1, i) == p;
    while k < cv.width
      invariant i < k <= cv.width
      invariant State(cv, before, matches, v, m, p + Run(y, i + 1, k - 1))
      invariant AllOpen(m, p, y, i + 1, k - 1)
    {
      var b := Probe(cv, Cell(k, y), matches, v, before, m, p + Run(y, i + 1, k - 1));
      if !b {
        return;
      }
      Paint(cv, Cell(k, y), matches, v, before, m, p + Run(y, i + 1, k - 1));
      assert p + Run(y, i + 1, k - 1) + {Cell(k, y)} == p + Run(y, i + 1, k);
      k := k + 1;
    }
  }

  // Paints the whole run of open cells around cell i of row y.
  method PaintRun(cv: Canvas, i: int, y: int, matches: int -> bool, v: int, ghost before: seq<int>, ghost m: set<Cell>, ghost p: set<Cell>)
    returns (j: int, k: int)
    requires State(cv, before, matches, v, m, p) && cv.In(Cell(i, y))
    modifies cv.data
    ensures -1 <= j < i < k <= cv.width
    ensures State(cv, before, matches, v, m, p + Run(y, j + 1, k - 1))
    ensures Cell(i, y) !in p ==> MaximalRun(m + {Cell(i, y)}, p, y, j + 1, i, k - 1)
  {
    ghost var p1 := p + {Cell(i, y)};
    Paint(cv, Cell(i, y), matches, v, before, m, p);
    j := PaintLeft(cv, i, y, matches, v, before, m, p1);
    k := PaintRight(cv, i, y, matches, v, before, m, p1 + Run(y, j + 1, i - 1));
    RunAround(p, y, j, i, k);
    OpenAround(m, p, y, j, i, k);
  }

  // One of the three row scans of a segment: paints and queues every run of open cells that
  // begins in columns left..right of the row above or below it.
  method ScanRow(cv: Canvas, queue: SegmentQueue, s: Segment, d: int, left: int, right: int,
                 matches: int -> bool, v: int, ghost before: seq<int>, ghost m: set<Cell>, ghost seed: Cell,
                 ghost done: int, ghost box: Box, ghost p: set<Cell>)
    returns (ghost p': set<Cell>)
    requires State(cv, before, matches, v, m, p) && queue.Valid() && cv.data != queue.buffer as object
    requires Filling(m, p, seed, queue.buffer.Length, queue.lost, done, box, [s] + queue.Pending())
    requires (d == 1 || d == -1) && s.l - 1 <= left && right <= s.r + 1
    modifies cv.data, queue`tail, queue`lost, queue.buffer
    ensures State(cv, before, matches, v, m, p') && queue.Valid()
    ensures Filling(m, p', seed, queue.buffer.Length, queue.lost, done, box, [s] + queue.Pending())
    ensures p <= p' && Clear(m, p', s.y + d, left, right)
    ensures p' == p ==> queue.Pending() == old(queue.Pending())
    ensures Now(queue, p') == Scan(RingOf(queue), FieldOf(cv, m), old(Now(queue, p)), s, d, left, right)
  {
    hide Filling, SegmentQueue.Valid, SegmentQueue.Pending, SegmentQueue.Stored, State, Clear, ScanStep, ScanFrom;
    ghost var ring, f, g := RingOf(queue), FieldOf(cv, m), Now(queue, p);
    p' := p;
    var y := s.y + d;
    if y < 0 || y >= cv.height {
      ClearOutside(cv, before, matches, v, m, p, y, left, right);
      return;
    }
    ClearNone(m, p, y, left);
    var i := left;
    while i <= right
      invariant left <= i
      invariant State(cv, before, matches, v, m, p') && queue.Valid()
      invariant Filling(m, p', seed, queue.buffer.Length, queue.lost, done, box, [s] + queue.Pending())
      invariant p <= p' && Clear(m, p', y, left, i - 1)
      invariant p' == p ==> queue.Pending() == old(queue.Pending())
      invariant ScanFrom(ring, f, g, s, d, left, right) == ScanFrom(ring, f, Now(queue, p'), s, d, i, right)
      decreases right - i
    {
      ghost var was, g0 := i, Now(queue, p');
      i, p' := ScanCell(cv, queue, s, d, i, matches, v, before, m, seed, done, box, p');
      ClearMore(m, g0.p, p', y, left, was, i);
      ScanOn(ring, f, g0, s, d, was, Now(queue, p'), i, right);
      i := i + 1;
    }
    ClearLess(m, p', y, left, right, i - 1);
    ScanOver(ring, f, Now(queue, p'), s, d, i, right);
  }

  // The body of the scan: i comes back as the last column looked at.
  method ScanCell(cv: Canvas, queue: SegmentQueue, s: Segment, d: int, i: int,
                  matches: int -> bool, v: int, ghost before: seq<int>, ghost m: set<Cell>, ghost seed: Cell,
                 ghost done: int, ghost box: Box, ghost p: set<Cell>)
    returns (i': int, ghost p': set<Cell>)
    requires State(cv, before, matches, v, m, p) && queue.Valid() && cv.data != queue.buffer as object
    requires Filling(m, p, seed, queue.buffer.Length, queue.lost, done, box, [s] + queue.Pending())
    requires (d == 1 || d == -1) && 0 <= s.y + d < cv.height && s.l - 1 <= i <= s.r + 1
    modifies cv.data, queue`tail, queue`lost, queue.buffer
    ensures State(cv, before, matches, v, m, p') && queue.Valid()
    ensures Filling(m, p', seed, queue.buffer.Length, queue.lost, done, box, [s] + queue.Pending())
    ensures i <= i' && p <= p' && Clear(m, p', s.y + d, i, i')
    ensures p' == p ==> queue.Pending() == old(queue.Pending())
    ensures ScanStep(RingOf(queue), FieldOf(cv, m), old(Now(queue, p)), s, d, i, Now(queue, p'), i')
  {
    hide Filling, SegmentQueue.Stored, Taken, RightEnd;
    i', p' := i, p;
    var b := Starts(cv, Cell(i, s.y + d), matches, v, before, m, p);
    if b {
      i', p' := TakeRun(cv, queue, s, d, i, matches, v, before, m, seed, done, box, p);
    }
  }

  lemma ClearOutside(cv: Canvas, before: seq<int>, matches: int -> bool, v: int, m: set<Cell>, p: set<Cell>,
                     y: int, l: int, r: int)
    requires State(cv, before, matches, v, m, p) && !(0 <= y < cv.height)
    ensures Clear(m, p, y, l, r)
  {
  }

  // Whether a run starts at a cell: its column is in use and its word matches.
  method Starts(cv: Canvas, c: Cell, matches: int -> bool, v: int, ghost before: seq<int>, ghost m: set<Cell>, ghost p: set<Cell>)
    returns (b: bool)
    requires State(cv, before, matches, v, m, p) && 0 <= c.y < cv.height
    ensures b ==> cv.In(c) && Open(m, p, c)
    ensures !b ==> Clear(m, p, c.y, c.x, c.x)
  {
    b := false;
    if 0 <= c.x < cv.width {
      b := Probe(cv, c, matches, v, before, m, p);
    }
    assert forall e: Cell :: e.y == c.y && c.x <= e.x <= c.x ==> e == c;
  }

  method TakeRun(cv: Canvas, queue: SegmentQueue, s: Segment, d: int, i: int,
                 matches: int -> bool, v: int, ghost before: seq<int>, ghost m: set<Cell>, ghost seed: Cell,
                 ghost done: int, ghost box: Box, ghost p: set<Cell>)
    returns (k: int, ghost p': set<Cell>)
    requires State(cv, before, matches, v, m, p) && queue.Valid() && cv.data != queue.buffer as object
    requires Filling(m, p, seed, queue.buffer.Length, queue.lost, done, box, [s] + queue.Pending())
    requires (d == 1 || d == -1) && s.l - 1 <= i <= s.r + 1
    requires cv.In(Cell(i, s.y + d)) && Open(m, p, Cell(i, s.y + d))
    modifies cv.data, queue`tail, queue`lost, queue.buffer
    ensures State(cv, before, matches, v, m, p') && queue.Valid()
    ensures Filling(m, p', seed, queue.buffer.Length, queue.lost, done, box, [s] + queue.Pending())
    ensures i < k && p <= p' && Cell(i, s.y + d) in p' && Clear(m, p', s.y + d, i, k)
    ensures Now(queue, p') == Taken(RingOf(queue), FieldOf(cv, m), old(Now(queue, p)), s, d, i)
    ensures k == RightEnd(m, p, s.y + d, i, cv.width) + 1
  {
    hide Filling, SegmentQueue.Valid, SegmentQueue.Pending, SegmentQueue.Stored, Taken, Put, LeftEnd, RightEnd;
    ghost var g := Now(queue, p);
    var y := s.y + d;
    var j;
    j, k := PaintRun(cv, i, y, matches, v, before, m, p);
    p' := p + Run(y, j + 1, k - 1);
    assert m + {Cell(i, y)} == m;
    ClearAfter(m, p, y, j + 1, i, k - 1);
    assert Now(queue, p) == g;
    TakenIs(RingOf(queue), FieldOf(cv, m), g, s, d, j + 1, i, k - 1);
    PushFound(queue, s, d, j + 1, i, k - 1, m, seed, done, box, p, p');
  }

  method PushFound(queue: SegmentQueue, s: Segment, d: int, l: int, ghost i: int, r: int,
                   ghost m: set<Cell>, ghost seed: Cell,
                 ghost done: int, ghost box: Box, ghost p: set<Cell>, ghost p': set<Cell>)
    requires queue.Valid() && Filling(m, p, seed, queue.buffer.Length, queue.lost, done, box, [s] + queue.Pending())
    requires FoundRun(m, p, s, d, l, i, r) && p' == p + Run(s.y + d, l, r)
    modifies queue`tail, queue`lost, queue.buffer
    ensures queue.Valid() && Filling(m, p', seed, queue.buffer.Length, queue.lost, done, box, [s] + queue.Pending())
    ensures Now(queue, p') == Put(RingOf(queue), old(Now(queue, p)), p', Segment(s.y + d, l, r, s.l, s.r, -d))
  {
    hide Filling, SegmentQueue.Stored;
    FillFound(m, p, seed, queue.buffer.Length, queue.lost, done, box, s, queue.Pending(), d, l, i, r);
    queue.Push(Segment(s.y + d, l, r, s.l, s.r, -d));
    assert [s] + [] == [s];
  }

  // The three scans of one segment.
  method LookAround(cv: Canvas, queue: SegmentQueue, s: Segment,
                    matches: int -> bool, v: int, ghost before: seq<int>, ghost m: set<Cell>, ghost seed: Cell,
                    ghost done: int, ghost box: Box, ghost p: set<Cell>)
    returns (ghost p': set<Cell>)
    requires State(cv, before, matches, v, m, p) && queue.Valid() && cv.data != queue.buffer as object
    requires Filling(m, p, seed, queue.buffer.Length, queue.lost, done, box, [s] + queue.Pending())
    modifies cv.data, queue`tail, queue`lost, queue.buffer
    ensures State(cv, before, matches, v, m, p') && queue.Valid()
    ensures Filling(m, p', seed, queue.buffer.Length, queue.lost, done, box, [s] + queue.Pending())
    ensures p <= p' && LookedAround(m, p', s)
    ensures p' == p ==> queue.Pending() == old(queue.Pending())
    ensures Now(queue, p') == Look(RingOf(queue), FieldOf(cv, m), old(Now(queue, p)), s)
  {
    hide Filling, State, Scan, Clear, LookedAround, SegmentQueue.Valid, SegmentQueue.Pending;
    HeadOk(m, p, seed, queue.buffer.Length, queue.lost, done, box, s, queue.Pending());
    ghost var p1 := ScanRow(cv, queue, s, -s.dir, s.l - 1, s.r + 1, matches, v, before, m, seed, done, box, p);
    ghost var p2 := ScanRow(cv, queue, s, s.dir, s.l - 1, s.prevl - 1, matches, v, before, m, seed, done, box, p1);
    p' := ScanRow(cv, queue, s, s.dir, s.prevr + 1, s.r + 1, matches, v, before, m, seed, done, box, p2);
    AllClear(m, p1, p2, p', s);
  }

  lemma StateAtFirst(cv: Canvas, before: seq<int>, matches: int -> bool, v: int, m: set<Cell>)
    requires cv.Valid() && !matches(v) && before == cv.data[..] && IsMatchSet(cv, before, matches, m)
    ensures State(cv, before, matches, v, m, {})
  {
  }

  lemma StateShows(cv: Canvas, before: seq<int>, matches: int -> bool, v: int, m: set<Cell>, p: set<Cell>)
    requires State(cv, before, matches, v, m, p)
    ensures cv.Valid() && |before| == cv.data.Length
    ensures forall k :: 0 <= k < cv.data.Length ==> cv.data[k] == if cv.CellOf(k) in p then v else before[k]
  {
  }

  // What icvFloodFill reports of a region, in pixels: two to a word.
  datatype Report = Report(area: int, left: int, top: int, right: int, bottom: int)

  // Starts the fill at the seed, which is painted whether it matches or not.
  method PaintSeed(cv: Canvas, queue: SegmentQueue, seed: Cell, matches: int -> bool, v: int,
                   ghost before: seq<int>, ghost m: set<Cell>)
    returns (box: Box, ghost p: set<Cell>)
    requires State(cv, before, matches, v, m, {}) && cv.In(seed)
    requires queue.Valid() && queue.Pending() == [] && !queue.lost && cv.data != queue.buffer as object
    modifies cv.data, queue`tail, queue`lost, queue.buffer
    ensures State(cv, before, matches, v, m, p) && queue.Valid() && seed in p
    ensures Filling(m, p, seed, queue.buffer.Length, queue.lost, 0, box, queue.Pending())
    ensures Now(queue, p) == Start(RingOf(queue), FieldOf(cv, m), seed)
  {
    hide Filling, State, MaximalRun, SegmentQueue.Pending, SegmentQueue.Stored, LeftEnd, RightEnd;
    var j, k := PaintRun(cv, seed.x, seed.y, matches, v, before, m, {});
    p := Run(seed.y, j + 1, k - 1);
    assert {} + p == p;
    assert Cell(seed.x, seed.y) == seed;
    StartFill(m, seed, queue.buffer.Length, j + 1, k - 1);
    EndsOf(m, {}, seed.y, j + 1, seed.x, k - 1, cv.width);
    box := Box(j + 1, k - 1, seed.y, seed.y);
    PushFirst(queue, Segment(seed.y, j + 1, k - 1, k, k - 1, 1));
  }

  method PushFirst(queue: SegmentQueue, s: Segment)
    requires queue.Valid() && queue.Pending() == [] && !queue.lost
    modifies queue`tail, queue`lost, queue.buffer
    ensures queue.Valid()
    ensures queue.buffer.Length > 1 ==> queue.Pending() == [s] && !queue.lost
    ensures queue.buffer.Length <= 1 ==> queue.Pending() == [] && queue.lost
  {
    queue.Push(s);
    assert [] + [s] == [s];
  }

  // Takes the next segment and looks around it.
  method NextSegment(cv: Canvas, queue: SegmentQueue, area: int, box: Box, matches: int -> bool, v: int,
                     ghost before: seq<int>, ghost m: set<Cell>, ghost seed: Cell, ghost p: set<Cell>)
    returns (area': int, box': Box, ghost p': set<Cell>)
    requires State(cv, before, matches, v, m, p) && queue.Valid() && cv.data != queue.buffer as object
    requires Filling(m, p, seed, queue.buffer.Length, queue.lost, area, box, queue.Pending()) && queue.Pending() != []
    modifies cv.data, queue`head, queue`tail, queue`lost, queue.buffer
    ensures State(cv, before, matches, v, m, p') && queue.Valid()
    ensures Filling(m, p', seed, queue.buffer.Length, queue.lost, area', box', queue.Pending())
    ensures p <= p' && (p' == p ==> |queue.Pending()| < |old(queue.Pending())|)
    ensures Now(queue, p') == Step(RingOf(queue), FieldOf(cv, m), old(Now(queue, p)))
  {
    hide Filling, SegmentQueue.Valid, SegmentQueue.Pending, SegmentQueue.Stored, Look, State;
    ghost var q := queue.Pending();
    var s := queue.Pop();
    assert [s] + queue.Pending() == q;
    TakeSegment(m, p, seed, queue.buffer.Length, queue.lost, area, box, s, queue.Pending());
    area' := area + (s.r - s.l + 1);
    box' := Grow(box, s);
    p' := LookAround(cv, queue, s, matches, v, before, m, seed, area, box', p);
    FinishSegment(m, p', seed, queue.buffer.Length, queue.lost, area, box, s, queue.Pending());
  }

  // The whole fill, up to the report.
  method PaintRegion(cv: Canvas, queue: SegmentQueue, seed: Cell, matches: int -> bool, v: int,
                     ghost before: seq<int>, ghost m: set<Cell>)
    returns (area: int, box: Box, ghost p: set<Cell>, ghost rounds: nat)
    requires State(cv, before, matches, v, m, {}) && cv.In(seed)
    requires queue.Valid() && queue.Pending() == [] && !queue.lost && cv.data != queue.buffer as object
    modifies cv.data, queue, queue.buffer
    ensures State(cv, before, matches, v, m, p) && seed in p
    ensures Filling(m, p, seed, queue.buffer.Length, queue.lost, area, box, [])
    ensures After(RingOf(queue), FieldOf(cv, m), seed, rounds) == Progress(p, [], queue.lost)
  {
    hide Filling, State, Step, Start, SegmentQueue.Valid, SegmentQueue.Pending;
    box, p := PaintSeed(cv, queue, seed, matches, v, before, m);
    area, rounds := 0, 0;
    var empty := queue.IsEmpty();
    while !empty
      invariant State(cv, before, matches, v, m, p) && queue.Valid() && seed in p
      invariant Filling(m, p, seed, queue.buffer.Length, queue.lost, area, box, queue.Pending())
      invariant empty <==> queue.Pending() == []
      invariant Now(queue, p) == After(RingOf(queue), FieldOf(cv, m), seed, rounds)
      decreases m - p, |queue.Pending()|
    {
      ghost var was := p;
      area, box, p := NextSegment(cv, queue, area, box, matches, v, before, m, seed, p);
      empty := queue.IsEmpty();
      rounds := rounds + 1;
      if p != was {
        FillShrinks(m, was, p, seed, queue.buffer.Length, queue.lost, area, box, queue.Pending());
      }
    }
  }

  // What is known of the ring of a finished fill.
  lemma LostWhen(cv: Canvas, before: seq<int>, matches: int -> bool, m: set<Cell>, seed: Cell,
                 n: nat, rounds: nat, p: set<Cell>, lost: bool)
    requires cv.Valid() && cv.In(seed) && IsMatchSet(cv, before, matches, m) && n > 0
    requires After(Slots(n), FieldOf(cv, m), seed, rounds) == Progress(p, [], lost)
    ensures lost <==> Reaches(FieldOf(cv, m), seed, n)
    ensures n > 1 && n >= |RunStarts(m + {seed})| ==> !lost
    ensures n > 1 && n >= EveryOther(cv.width, cv.height) ==> !lost
  {
    hide After, Reaches, RunStarts, EveryOther;
    WhenLost(n, FieldOf(cv, m), seed, rounds);
    LargeEnough(n, FieldOf(cv, m), seed);
  }

  /** icvFloodFill: paints exactly the cells that are eight-connected to the seed through
      matching cells, and reports their number and extent, if the ring does not overflow. It
      overflows if and only if the queue of the fill on an endless ring reaches its size, which
      is never so with a slot for every run or for every other word. The number reported is right
      if and only if it does not overflow, and else too small, even where all cells are painted;
      what is painted is connected in any case. */
  method Fill(cv: Canvas, seed: Cell, v: int, matches: int -> bool, storage: array<Segment>)
    returns (region: Report, ghost m: set<Cell>, ghost p: set<Cell>, ghost box: Box, ghost lost: bool,
             ghost rounds: nat)
    requires cv.Valid() && cv.In(seed) && !matches(v)
    requires storage.Length > 0 && cv.data != storage as object
    modifies cv.data, storage
    ensures IsMatchSet(cv, old(cv.data[..]), matches, m)
    ensures forall k :: 0 <= k < cv.data.Length ==> cv.data[k] == if cv.CellOf(k) in p then v else old(cv.data[k])
    ensures seed in p && forall c :: c in p ==> Connected(m, seed, c)
    ensures !lost ==> forall c :: c in p <==> Connected(m, seed, c)
    ensures !lost ==> Tight(p, box) && forall c :: c in p ==> InBox(box, c)
    ensures !lost ==> region == Report(2 * |p|, 2 * box.xMin, box.yMin, 2 * box.xMax, box.yMax)
    ensures !lost ==> forall c :: c in p ==>
              region.left <= 2 * c.x <= region.right && region.top <= c.y <= region.bottom
    ensures !lost ==> (exists c :: c in p && 2 * c.x == region.left) && (exists c :: c in p && 2 * c.x == region.right)
    ensures !lost ==> (exists c :: c in p && c.y == region.top) && (exists c :: c in p && c.y == region.bottom)
    ensures region.area <= 2 * |p| && (region.area == 2 * |p| <==> !lost)
    ensures forall comp :: IsComponent(m, seed, comp) ==>
              region.area <= 2 * |comp| && (region.area == 2 * |comp| <==> !lost)
    ensures storage.Length > |m| + 1 ==> !lost
    ensures lost <==> Reaches(FieldOf(cv, m), seed, storage.Length)
    ensures After(Slots(storage.Length), FieldOf(cv, m), seed, rounds) == Progress(p, [], lost)
    ensures storage.Length > 1 && storage.Length >= |RunStarts(m + {seed})| ==> !lost
    ensures storage.Length > 1 && storage.Length >= EveryOther(cv.width, cv.height) ==> !lost
  {
    hide Filling, State, Tight, IsMatchSet, After, Reaches, RunStarts, EveryOther;
    var queue := new SegmentQueue(storage);
    ghost var before := cv.data[..];
    m := MatchSet(cv, before, matches);
    StateAtFirst(cv, before, matches, v, m);
    var area, b;
    area, b, p, rounds := PaintRegion(cv, queue, seed, matches, v, before, m);
    lost, box := queue.lost, b;
    StateShows(cv, before, matches, v, m, p);
    FillIsDone(m, p, seed, storage.Length, lost, area, b);
    LostWhen(cv, before, matches, m, seed, storage.Length, rounds, p, lost);
    PaintedOfComponent(m, seed, p);
    region := Report(2 * area, 2 * b.xMin, b.yMin, 2 * b.xMax, b.yMax);
    if !lost { FrameIs(p, b, region); }
  }

  // The sides of the report.
  lemma FrameIs(p: set<Cell>, b: Box, region: Report)
    requires Tight(p, b) && forall c :: c in p ==> InBox(b, c)
    requires region.left == 2 * b.xMin && region.right == 2 * b.xMax && region.top == b.yMin && region.bottom == b.yMax
    ensures forall c :: c in p ==> region.left <= 2 * c.x <= region.right && region.top <= c.y <= region.bottom
    ensures (exists c :: c in p && 2 * c.x == region.left) && (exists c :: c in p && 2 * c.x == region.right)
    ensures (exists c :: c in p && c.y == region.top) && (exists c :: c in p && c.y == region.bottom)
  {
    var l :| l in p && l.x == b.xMin;
    var r :| r in p && r.x == b.xMax;
    var t :| t in p && t.y == b.yMin;
    var u :| u in p && u.y == b.yMax;
    assert 2 * l.x == region.left && 2 * r.x == region.right && t.y == region.top && u.y == region.bottom;
  }

  // The comb as words of an image: 1 matches.
  method CombImage() returns (data: array<int>)
    ensures fresh(data) && data.Length == 15
    ensures forall k :: 0 <= k < 15 ==> (data[k] == 1 <==> k <= 5 || k == 9 || k == 10 || k == 14)
  {
    data := new int[15] [1, 1, 1, 1, 1, 1, 0, 0, 0, 1, 1, 0, 0, 0, 1];
  }

  lemma CombMatches(cv: Canvas, before: seq<int>, matches: int -> bool, m: set<Cell>)
    requires cv.Valid() && cv.width == cv.offset == 5 && cv.height == 3 && |before| == cv.data.Length == 15
    requires forall k :: 0 <= k < 15 ==> (matches(before[k]) <==> k <= 5 || k == 9 || k == 10 || k == 14)
    requires IsMatchSet(cv, before, matches, m)
    ensures FieldOf(cv, m) == Comb(3)
  {
    forall c | cv.In(c) ensures c in m <==> c.y == 0 || c.x == 0 || c.x == 4 {
      cv.IndexIsUnique(c, cv.Index(c));
      assert cv.CellOf(cv.Index(c)) == c;
    }
    forall c ensures c in m <==> c in Comb(3).m {
      assert c == Cell(c.x, c.y);
    }
  }

  /** The fill of that image in a ring of two slots leaves a word that matches and is connected
      to the seed as it was. */
  method FillComb() returns (data: array<int>, ghost m: set<Cell>)
    ensures fresh(data) && data.Length == 15 && data[10] == 1
    ensures Cell(0, 2) in m && Connected(m, Cell(0, 0), Cell(0, 2))
  {
    hide IsMatchSet, After, Reaches, RunStarts, EveryOther, Tight;
    data := CombImage();
    var storage := new Segment[2](_ => Segment(0, 0, 0, 0, 0, 0));
    var cv := new Canvas(data, 5, 5, 3);
    var matches := (w: int) => w == 1;
    ghost var before := data[..];
    ghost var p, box, lost, rounds;
    var region;
    region, m, p, box, lost, rounds := Fill(cv, Cell(0, 0), 2, matches, storage);
    CombMatches(cv, before, matches, m);
    CombFill(3, rounds);
    ToothConnected(3, 2);
    assert cv.CellOf(10) == Cell(0, 2);
  }

  lemma OneMatchSet(cv: Canvas, before: seq<int>, matches: int -> bool, m: set<Cell>, m': set<Cell>)
    requires cv.Valid() && |before| == cv.data.Length
    requires IsMatchSet(cv, before, matches, m) && IsMatchSet(cv, before, matches, m')
    ensures m == m'
  {
    forall c | cv.In(c) ensures c in m <==> c in m' {
      cv.IndexIsUnique(c, cv.Index(c));
      assert cv.CellOf(cv.Index(c)) == c;
    }
  }

  /** On the tree the number reported is too small, in a ring of the size that the program makes. */
  method FillTheTree(cv: Canvas, v: int, matches: int -> bool, storage: array<Segment>) returns (region: Report)
    requires cv.Valid() && cv.width == 13 && cv.height == 31 && !matches(v)
    requires IsMatchSet(cv, cv.data[..], matches, Tree().m)
    requires storage.Length == 2 * Basics.Max(2 * cv.width, cv.height) && cv.data != storage as object
    modifies cv.data, storage
    ensures forall comp :: IsComponent(Tree().m, ROOT, comp) ==> region.area < 2 * |comp|
  {
    hide IsMatchSet, After, Reaches, RunStarts, EveryOther, Tight, IsComponent, Connected;
    ghost var before, m, p, box, lost, rounds := cv.data[..], {}, {}, Box(0, 0, 0, 0), false, 0;
    region, m, p, box, lost, rounds := Fill(cv, ROOT, v, matches, storage);
    OneMatchSet(cv, before, matches, m, Tree().m);
    TreeOverflows();
    assert FieldOf(cv, m) == Tree();
  }
}
