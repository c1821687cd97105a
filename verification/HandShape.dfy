/** The pixels of the hands: how they turn and mirror, and where their tips are. */
module HandShape {
  import opened Basics
  import opened HandTable
  import opened SecondHand

  // The loops there are: the length of the long end depends on the table.
  function TipCount(table: nat): nat {
    match table
    case 0 => 182
    case 1 => 180
    case 2 => 175
    case 3 => 170
    case 4 => 165
    case 5 => 160
    case 6 => 150
    case _ => 135
  }

  ghost predicate Tidy(s: Stroke) {
    && s.table <= 7 && s.count <= XL && (s.sx == 1 || s.sx == -1) && (s.sy == 1 || s.sy == -1)
    && (s.table == 0 ==> (if s.turned then s.sy else s.sx) == 1)
  }

  ghost predicate TidyHand(h: Hand) {
    && HandOk(h) && h.tip.turned == h.tail.turned && h.tip.count == TipCount(h.tip.table)
    && (h.tip.sx == 1 || h.tip.sx == -1) && (h.tip.sy == 1 || h.tip.sy == -1)
    && (h.tail.sx == 1 || h.tail.sx == -1) && (h.tail.sy == 1 || h.tail.sy == -1)
    && Tidy(h.tip) && Tidy(h.tail)
  }

  // The second whose hand has that long end.
  function SecondOf(s: Stroke): int {
    var m := if s.turned then 15 - s.table else s.table;
    if s.table == 0 then (if s.turned then (if s.sx == 1 then 15 else 45) else if s.sy == -1 then 0 else 30)
    else if s.sy == -1 then (if s.sx == 1 then m else if s.turned then 45 + s.table else 60 - s.table)
    else if s.sx == 1 then (if s.turned then 15 + s.table else 30 - s.table)
    else if s.turned then 45 - s.table else 30 + s.table
  }

  lemma Tidy0(index: nat)
    requires index < 15
    ensures TidyHand(Painted0(index)) && SecondOf(Painted0(index).tip) == index
  {
  }

  lemma Tidy1(index: nat)
    requires index < 15
    ensures TidyHand(Painted1(index)) && SecondOf(Painted1(index).tip) == 15 + index
  {
  }

  lemma Tidy2(index: nat)
    requires index < 15
    ensures TidyHand(Painted2(index)) && SecondOf(Painted2(index).tip) == 30 + index
  {
  }

  lemma Tidy3(index: nat)
    requires index < 15
    ensures TidyHand(Painted3(index)) && SecondOf(Painted3(index).tip) == 45 + index
  {
  }

  /** No two seconds have the same hand. */
  lemma HandIsTidy(k: Second)
    ensures TidyHand(HandOf(k)) && SecondOf(HandOf(k).tip) == k
  {
    hide TidyHand, SecondOf, Painted0, Painted1, Painted2, Painted3;
    match k / 15
    case 0 => Tidy0(k % 15);
    case 1 => Tidy1(k % 15);
    case 2 => Tidy2(k % 15);
    case 3 => Tidy3(k % 15);
  }

  // ---- Pixels by their offset from the centre ----

  // What the tables hold: row i of a Y table is i, and an X table lies below it.
  ghost predicate RowsAre(t: Tables)
    requires TablesOk(t)
  {
    forall j, i :: 0 <= j < 7 && 0 <= i < XL ==> t.redY[j][i] == i && t.redX[j][i] <= i
  }

  // So far from both ends of the 16-bit coordinates that no sum wraps.
  ghost predicate Roomy(x: word, y: word) {
    XL <= x < U16 - XL && XL <= y < U16 - XL
  }

  lemma BrushAt(t: Tables, x: word, y: word, s: Stroke, i: nat, dx: int, dy: int)
    requires TablesOk(t) && RowsAre(t) && Tidy(s) && i < XL && Roomy(x, y)
    ensures InBrush(t, x, y, s, i, x + dx, y + dy)
            <==> && 0 <= dx - Dx(s, X(t, s, i), Y(t, s, i)) < BrushX(s)
                 && 0 <= dy - Dy(s, X(t, s, i), Y(t, s, i)) < BrushY(s)
  {
    var a, b := X(t, s, i), Y(t, s, i);
    assert 0 <= a < XL && 0 <= b < XL;
    assert -XL < Dx(s, a, b) < XL && -XL < Dy(s, a, b) < XL;
    assert StartX(t, x, s, i) == x + Dx(s, a, b) && StartY(t, y, s, i) == y + Dy(s, a, b);
  }

  // Where an offset of a stroke goes when the stroke turns by a quarter, clockwise on the screen
  // and about the centre or half a pixel beside it, and when it is mirrored at the diagonal.
  function AcrossX(s: Stroke, dy: int): int { if s.turned then 1 - dy else -dy }

  function AcrossY(s: Stroke, dx: int): int { if s.turned then -dx else 1 - dx }

  lemma SameEntries(t: Tables, s: Stroke, u: Stroke, i: nat)
    requires TablesOk(t) && s.table == u.table <= 7 && i < XL
    ensures X(t, s, i) == X(t, u, i) && Y(t, s, i) == Y(t, u, i) && (s.table == 0 ==> X(t, s, i) == 0)
  {
  }

  lemma TurnedBrush(t: Tables, x: word, y: word, s: Stroke, u: Stroke, i: nat, dx: int, dy: int)
    requires TablesOk(t) && RowsAre(t) && Tidy(s) && Tidy(u) && i < XL && Roomy(x, y) && QuarterTurn(s, u)
    ensures InBrush(t, x, y, s, i, x + dx, y + dy) <==> InBrush(t, x, y, u, i, x + AcrossX(s, dy), y + dx)
  {
    hide RowsAre, InBrush, X, Y;
    BrushAt(t, x, y, s, i, dx, dy);
    BrushAt(t, x, y, u, i, AcrossX(s, dy), dx);
    SameEntries(t, s, u, i);
    QuarterTurnPoint(s, u, X(t, s, i), Y(t, s, i));
  }

  lemma MirroredBrush(t: Tables, x: word, y: word, s: Stroke, u: Stroke, i: nat, dx: int, dy: int)
    requires TablesOk(t) && RowsAre(t) && Tidy(s) && Tidy(u) && i < XL && Roomy(x, y) && Mirrored(s, u)
    ensures InBrush(t, x, y, s, i, x + dx, y + dy)
            <==> InBrush(t, x, y, u, i, x + AcrossX(s, dy), y + AcrossY(s, dx))
  {
    hide RowsAre, InBrush, X, Y;
    BrushAt(t, x, y, s, i, dx, dy);
    BrushAt(t, x, y, u, i, AcrossX(s, dy), AcrossY(s, dx));
    SameEntries(t, s, u, i);
    MirroredPoint(s, u, X(t, s, i), Y(t, s, i));
  }

  // Two strokes that match brush by brush hold matching pixels.
  lemma SameOnStroke(t: Tables, x: word, y: word, s: Stroke, u: Stroke, px: int, py: int, qx: int, qy: int)
    requires TablesOk(t) && Tidy(s) && Tidy(u) && s.count == u.count
    requires forall i :: 0 <= i < s.count ==> (InBrush(t, x, y, s, i, px, py) <==> InBrush(t, x, y, u, i, qx, qy))
    ensures OnStroke(t, x, y, s, s.count, px, py) <==> OnStroke(t, x, y, u, u.count, qx, qy)
  {
    hide RowsAre, InBrush;
  }

  lemma TurnedStroke(t: Tables, x: word, y: word, s: Stroke, u: Stroke, dx: int, dy: int)
    requires TablesOk(t) && RowsAre(t) && Tidy(s) && Tidy(u) && Roomy(x, y) && QuarterTurn(s, u)
    ensures OnStroke(t, x, y, s, s.count, x + dx, y + dy) <==> OnStroke(t, x, y, u, u.count, x + AcrossX(s, dy), y + dx)
  {
    hide RowsAre, InBrush, OnStroke;
    var px, py, qx, qy := x + dx, y + dy, x + AcrossX(s, dy), y + dx;
    forall i: nat | i < s.count
      ensures InBrush(t, x, y, s, i, px, py) <==> InBrush(t, x, y, u, i, qx, qy)
    {
      TurnedBrush(t, x, y, s, u, i, dx, dy);
    }
    SameOnStroke(t, x, y, s, u, px, py, qx, qy);
  }

  lemma MirroredStroke(t: Tables, x: word, y: word, s: Stroke, u: Stroke, dx: int, dy: int)
    requires TablesOk(t) && RowsAre(t) && Tidy(s) && Tidy(u) && Roomy(x, y) && Mirrored(s, u)
    ensures OnStroke(t, x, y, s, s.count, x + dx, y + dy)
            <==> OnStroke(t, x, y, u, u.count, x + AcrossX(s, dy), y + AcrossY(s, dx))
  {
    hide RowsAre, InBrush, OnStroke;
    var px, py, qx, qy := x + dx, y + dy, x + AcrossX(s, dy), y + AcrossY(s, dx);
    forall i: nat | i < s.count
      ensures InBrush(t, x, y, s, i, px, py) <==> InBrush(t, x, y, u, i, qx, qy)
    {
      MirroredBrush(t, x, y, s, u, i, dx, dy);
    }
    SameOnStroke(t, x, y, s, u, px, py, qx, qy);
  }

  lemma TurnedHand(t: Tables, x: word, y: word, h: Hand, g: Hand, dx: int, dy: int)
    requires TablesOk(t) && RowsAre(t) && Roomy(x, y) && TidyHand(h) && TidyHand(g) && HandTurned(h, g)
    ensures OnHand(t, x, y, h, x + dx, y + dy) <==> OnHand(t, x, y, g, x + AcrossX(h.tip, dy), y + dx)
  {
    hide RowsAre, OnStroke, QuarterTurn;
    TurnedStroke(t, x, y, h.tip, g.tip, dx, dy);
    TurnedStroke(t, x, y, h.tail, g.tail, dx, dy);
  }

  function QuarterLater(k: Second): Second { if k < 45 then k + 15 else k - 45 }

  /** Fifteen seconds on, the pixels of the hand are the same ones turned by a quarter. */
  lemma QuarterTurnPixels(t: Tables, x: word, y: word, k: Second, dx: int, dy: int)
    requires TablesOk(t) && RowsAre(t) && Roomy(x, y)
    ensures HandOk(HandOf(k)) && HandOk(HandOf(QuarterLater(k)))
    ensures OnHand(t, x, y, HandOf(k), x + dx, y + dy)
            <==> OnHand(t, x, y, HandOf(QuarterLater(k)), x + (if HandOf(k).tip.turned then 1 - dy else -dy), y + dx)
  {
    hide RowsAre, Painted, OnHand, HandTurned, SecondOf;
    HandIsTidy(k);
    HandIsTidy(QuarterLater(k));
    QuadrantTurns(k / 15, k % 15);
    assert QuarterLater(k) % 15 == k % 15;
    TurnedHand(t, x, y, HandOf(k), HandOf(QuarterLater(k)), dx, dy);
  }

  /** In the first quadrant the pixels of the hand mirror those of the hand as many seconds from
      its other end; with the quarter turns, eight hands determine all sixty. */
  lemma MirrorPixels(t: Tables, x: word, y: word, k: Second, dx: int, dy: int)
    requires TablesOk(t) && RowsAre(t) && Roomy(x, y) && 0 < k < 15
    ensures HandOk(HandOf(k)) && HandOk(HandOf(15 - k))
    ensures OnHand(t, x, y, HandOf(k), x + dx, y + dy)
            <==> var turned := HandOf(k).tip.turned;
                 OnHand(t, x, y, HandOf(15 - k), x + (if turned then 1 - dy else -dy), y + (if turned then -dx else 1 - dx))
  {
    hide RowsAre, Painted0, OnStroke, Mirrored, SecondOf;
    var h, g := HandOf(k), HandOf(15 - k);
    HandIsTidy(k);
    HandIsTidy(15 - k);
    QuadrantMirrors(k);
    MirroredStroke(t, x, y, h.tip, g.tip, dx, dy);
    MirroredStroke(t, x, y, h.tail, g.tail, dx, dy);
  }

  // ---- The tips ----

  // The entries of the X tables, the first ones first, in the row where a hand ends.
  ghost predicate EndsAre(t: Tables, row: nat, ends: seq<nat>)
    requires TablesOk(t)
  {
    row < XL && |ends| <= 7 && forall j :: 0 <= j < |ends| ==> t.redX[j][row] == ends[j]
  }

  /** The tables as far as the tips of the hands depend on them. */
  ghost predicate TablesAre(t: Tables) {
    && TablesOk(t) && RowsAre(t)
    && EndsAre(t, 179, [17]) && EndsAre(t, 174, [17, 34]) && EndsAre(t, 169, [16, 33, 54])
    && EndsAre(t, 164, [16, 32, 53, 70]) && EndsAre(t, 159, [15, 31, 51, 68, 91])
    && EndsAre(t, 149, [14, 29, 48, 64, 85, 104]) && EndsAre(t, 134, [13, 26, 43, 57, 77, 93, 121])
  }

  function Entry(t: Tables, table: nat, i: nat): int
    requires TablesOk(t) && table <= 7 && i < XL
  {
    if table == 0 then 0 else t.redX[table - 1][i]
  }

  // In the row where the hand of table m ends, a steeper hand is two pixels off at least.
  lemma EndsApart(t: Tables, m: nat, n: nat)
    requires TablesAre(t) && n < m <= 7
    ensures Entry(t, n, TipCount(m) - 1) + 2 <= Entry(t, m, TipCount(m) - 1)
    ensures Entry(t, m, TipCount(m) - 1) + 2 <= TipCount(m) - 1
  {
  }

  // The offset of the first pixel of the last brush of a stroke.
  function TipX(t: Tables, s: Stroke): int
    requires TablesOk(t) && Tidy(s) && s.count > 0
  {
    Dx(s, X(t, s, s.count - 1), Y(t, s, s.count - 1))
  }

  function TipY(t: Tables, s: Stroke): int
    requires TablesOk(t) && Tidy(s) && s.count > 0
  {
    Dy(s, X(t, s, s.count - 1), Y(t, s, s.count - 1))
  }

  ghost predicate LongEnd(s: Stroke) {
    Tidy(s) && s.count == TipCount(s.table)
  }

  // The entries used for a stroke.
  lemma EntriesAre(t: Tables, s: Stroke, i: nat)
    requires TablesAre(t) && Tidy(s) && i < XL
    ensures X(t, s, i) == Entry(t, s.table, i) && Y(t, s, i) == i && 0 <= Entry(t, s.table, i) <= i
  {
  }

  /** A long end holds its tip. */
  lemma TipIsOn(t: Tables, x: word, y: word, s: Stroke)
    requires TablesAre(t) && LongEnd(s) && Roomy(x, y)
    ensures s.count > 0 && OnStroke(t, x, y, s, s.count, x + TipX(t, s), y + TipY(t, s))
  {
    BrushAt(t, x, y, s, s.count - 1, TipX(t, s), TipY(t, s));
  }

  // A tip is far from the centre in one direction, and a short end is not.
  lemma TipIsFar(t: Tables, x: word, y: word, s: Stroke, u: Stroke)
    requires TablesAre(t) && LongEnd(s) && Tidy(u) && u.count == TL && Roomy(x, y)
    ensures -XL < TipX(t, s) < XL && -XL < TipY(t, s) < XL
    ensures TipX(t, s) <= -134 || TipX(t, s) >= 134 || TipY(t, s) <= -134 || TipY(t, s) >= 134
    ensures !OnStroke(t, x, y, u, TL, x + TipX(t, s), y + TipY(t, s))
  {
    hide RowsAre, EndsAre, X, Y, InBrush;
    EntriesAre(t, s, s.count - 1);
    var px, py := x + TipX(t, s), y + TipY(t, s);
    forall i | 0 <= i < TL
      ensures !InBrush(t, x, y, u, i, px, py)
    {
      EntriesAre(t, u, i);
      BrushAt(t, x, y, u, i, TipX(t, s), TipY(t, s));
    }
  }

  // The brushes of a long end with the same brush shape.
  lemma OffAlike(t: Tables, x: word, y: word, s: Stroke, u: Stroke, i: nat)
    requires TablesAre(t) && LongEnd(s) && LongEnd(u) && s != u && s.turned == u.turned && i < u.count && Roomy(x, y)
    ensures !InBrush(t, x, y, u, i, x + TipX(t, s), y + TipY(t, s))
  {
    hide RowsAre, EndsAre, X, Y, InBrush, TipCount;
    Counts(s.table, u.table);
    EntriesAre(t, s, s.count - 1);
    EntriesAre(t, u, i);
    BrushAt(t, x, y, u, i, TipX(t, s), TipY(t, s));
    if u.table < s.table {
      EndsApart(t, s.table, u.table);
    }
    if u.table == s.table && s.table > 0 {
      EndsApart(t, s.table, 0);
    }
  }

  lemma Counts(m: nat, n: nat)
    requires m <= 7 && n <= 7
    ensures 135 <= TipCount(m) <= XL && (m < n ==> TipCount(n) <= TipCount(m) - 2)
  {
  }

  // The brushes of a long end with the other brush shape.
  lemma OffAcross(t: Tables, x: word, y: word, s: Stroke, u: Stroke, i: nat)
    requires TablesAre(t) && LongEnd(s) && LongEnd(u) && s.turned != u.turned && i < u.count && Roomy(x, y)
    ensures !InBrush(t, x, y, u, i, x + TipX(t, s), y + TipY(t, s))
  {
    hide RowsAre, EndsAre, X, Y, InBrush, TipCount;
    Counts(s.table, u.table);
    EntriesAre(t, s, s.count - 1);
    EntriesAre(t, u, i);
    BrushAt(t, x, y, u, i, TipX(t, s), TipY(t, s));
    if s.table > 0 {
      EndsApart(t, s.table, 0);
    }
  }

  // The offset of the tip of the hand of second k.
  ghost function Tip(t: Tables, k: Second): (int, int)
    requires TablesOk(t)
  {
    HandIsTidy(k);
    (TipX(t, HandOf(k).tip), TipY(t, HandOf(k).tip))
  }

  /** The tip of a hand lies on that hand and on no other, and not near the centre. */
  lemma TipIsOnItsHand(t: Tables, x: word, y: word, j: Second, k: Second)
    requires TablesAre(t) && Roomy(x, y)
    ensures HandOk(HandOf(k)) && (OnHand(t, x, y, HandOf(k), x + Tip(t, j).0, y + Tip(t, j).1) <==> j == k)
    ensures var (dx, dy) := Tip(t, j); -XL < dx < XL && -XL < dy < XL
    ensures var (dx, dy) := Tip(t, j); dx <= -134 || dx >= 134 || dy <= -134 || dy >= 134
  {
    hide RowsAre, EndsAre, OnStroke, TipX, TipY, HandOf, SecondOf;
    HandIsTidy(j);
    HandIsTidy(k);
    var s, h := HandOf(j).tip, HandOf(k);
    TipIsFar(t, x, y, s, h.tail);
    if j == k {
      TipIsOn(t, x, y, s);
    } else {
      NotOnLongEnd(t, x, y, s, h.tip);
    }
  }

  lemma NotOnLongEnd(t: Tables, x: word, y: word, s: Stroke, u: Stroke)
    requires TablesAre(t) && LongEnd(s) && LongEnd(u) && s != u && Roomy(x, y)
    ensures !OnStroke(t, x, y, u, u.count, x + TipX(t, s), y + TipY(t, s))
  {
    hide RowsAre, EndsAre, InBrush, TipX, TipY;
    var px, py := x + TipX(t, s), y + TipY(t, s);
    forall i | 0 <= i < u.count
      ensures !InBrush(t, x, y, u, i, px, py)
    {
      if s.turned == u.turned {
        OffAlike(t, x, y, s, u, i);
      } else {
        OffAcross(t, x, y, s, u, i);
      }
    }
  }

  // ---- Where the hands point ----

  // The length of the hand of table k.
  predicate Length(k: int, n: int) {
    (k, n) in {(1, 180), (2, 175), (3, 170), (4, 165), (5, 160), (6, 150), (7, 135)}
  }

  lemma FirstHands(k: nat, n: nat)
    requires Length(k, n)
    ensures Painted0(k) == Hand(U(n, k, 1, -1), U(40, k, -1, 1)) && n <= XL && k <= 7
  {
  }

  // The pixels of a stroke that is not turned: for each row a brush two pixels wide.
  lemma StrokePixels(t: Tables, x: word, y: word, s: Stroke, dx: int, dy: int, row: int)
    requires TablesOk(t) && RowsAre(t) && Roomy(x, y) && Tidy(s) && !s.turned && s.table > 0 && row == s.sy * dy
    ensures OnStroke(t, x, y, s, s.count, x + dx, y + dy)
            <==> 0 <= row < s.count && 0 <= dx - s.sx * t.redX[s.table - 1][row] <= 1
  {
    hide RowsAre, InBrush;
    var px, py := x + dx, y + dy;
    forall i | 0 <= i < s.count
      ensures InBrush(t, x, y, s, i, px, py) <==> i == row && 0 <= dx - s.sx * t.redX[s.table - 1][i] <= 1
    {
      BrushAt(t, x, y, s, i, dx, dy);
      RowIs(t, s.table - 1, i);
    }
    if 0 <= row < s.count { assert InBrush(t, x, y, s, row, px, py) <==> 0 <= dx - s.sx * t.redX[s.table - 1][row] <= 1; }
  }

  lemma RowIs(t: Tables, j: nat, i: nat)
    requires TablesOk(t) && RowsAre(t) && j < 7 && i < XL
    ensures t.redY[j][i] == i && 0 <= t.redX[j][i] <= i
  {
  }

  /** The hands of seconds 1 to 7, pixel by pixel: the long end to the upper right, as many rows as
      the hand is long, and the short one to the lower left, forty rows. */
  lemma HandPixels(t: Tables, x: word, y: word, k: Second, n: int, dx: int, dy: int)
    requires TablesOk(t) && RowsAre(t) && Roomy(x, y) && Length(k, n)
    ensures HandOk(HandOf(k)) && 1 <= k <= 7 && 0 <= n <= XL
    ensures OnHand(t, x, y, HandOf(k), x + dx, y + dy)
            <==> || (-n < dy <= 0 && 0 <= dx - t.redX[k - 1][-dy] <= 1)
                 || (0 <= dy < 40 && 0 <= dx + t.redX[k - 1][dy] <= 1)
  {
    hide RowsAre, OnStroke, Painted0;
    FirstHands(k, n);
    HandIsTidy(k);
    var h := HandOf(k);
    assert h == Painted0(k);
    StrokePixels(t, x, y, h.tip, dx, dy, -dy);
    StrokePixels(t, x, y, h.tail, dx, dy, dy);
  }

  /** At second 0 the hand stands upright, two pixels wide. */
  lemma UprightHand(t: Tables, x: word, y: word, dx: int, dy: int)
    requires TablesOk(t) && RowsAre(t) && Roomy(x, y)
    ensures HandOk(HandOf(0))
    ensures OnHand(t, x, y, HandOf(0), x + dx, y + dy) <==> 0 <= dx <= 1 && -181 <= dy <= 39
  {
    hide RowsAre, InBrush;
    HandIsTidy(0);
    var h := HandOf(0);
    assert h == Hand(U(182, 0, 1, -1), U(40, 0, 1, 1));
    var px, py := x + dx, y + dy;
    forall i | 0 <= i < 182
      ensures InBrush(t, x, y, h.tip, i, px, py) <==> 0 <= dx <= 1 && dy == -i
      ensures InBrush(t, x, y, h.tail, i, px, py) <==> 0 <= dx <= 1 && dy == i
    {
      BrushAt(t, x, y, h.tip, i, dx, dy);
      BrushAt(t, x, y, h.tail, i, dx, dy);
    }
    if 0 <= dx <= 1 && -181 <= dy <= 0 { assert InBrush(t, x, y, h.tip, -dy, px, py); }
    if 0 <= dx <= 1 && 0 <= dy <= 39 { assert InBrush(t, x, y, h.tail, dy, px, py); }
  }

  /** A quarter of a minute turns the tip clockwise by a quarter. */
  lemma TipTurns(t: Tables, k: Second)
    requires TablesAre(t)
    ensures Tip(t, QuarterLater(k)) == (-Tip(t, k).1, Tip(t, k).0)
  {
    hide RowsAre, EndsAre, Painted;
    HandIsTidy(k);
    HandIsTidy(QuarterLater(k));
    QuadrantTurns(k / 15, k % 15);
    assert QuarterLater(k) % 15 == k % 15;
    var s, u := HandOf(k).tip, HandOf(QuarterLater(k)).tip;
    SameEntries(t, s, u, s.count - 1);
    QuarterTurnPoint(s, u, X(t, s, s.count - 1), Y(t, s, s.count - 1));
  }

  // Of table k: the length of its hand, and the entry in its last row.
  predicate EndOf(k: int, n: int, e: int) {
    (k, n, e) in {(1, 179, 17), (2, 174, 34), (3, 169, 54), (4, 164, 70), (5, 159, 91), (6, 149, 104), (7, 134, 121)}
  }

  /** In the first quadrant the tips go from straight above the centre to the right of it. */
  lemma FirstTips(t: Tables, k: Second, n: int, e: int)
    requires TablesAre(t) && EndOf(k, n, e)
    ensures Tip(t, 0) == (0, -181) && Tip(t, k) == (e, -n) && 8 <= 15 - k < 15 && Tip(t, 15 - k) == (n, -e)
  {
    hide RowsAre, EndsAre;
    TableEnds(t, k, n, e);
    assert Painted0(0).tip == U(182, 0, 1, -1);
    assert Painted0(k).tip == U(n + 1, k, 1, -1) && Painted0(15 - k).tip == T(n + 1, k, 1, -1);
    HandIsTidy(0);
    HandIsTidy(k);
    HandIsTidy(15 - k);
  }

  lemma TableEnds(t: Tables, k: int, n: int, e: int)
    requires TablesAre(t) && EndOf(k, n, e)
    ensures 1 <= k <= 7 && 0 <= n < XL && t.redX[k - 1][n] == e && t.redY[k - 1][n] == n
  {
  }
}
