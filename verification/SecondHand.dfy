/** The second hand of the clock: each second erases the hand before and paints its own. */
module SecondHand {
  import opened Basics
  import opened Osd
  import opened HandTable

  const SECPIXEL: word := 2

  // The tables Red1X, Red1Y to Red7X, Red7Y; most results hold whatever the entries are.
  datatype Tables = Tables(redX: seq<seq<byte>>, redY: seq<seq<byte>>)

  ghost predicate TablesOk(t: Tables) {
    && |t.redX| == |t.redY| == 7
    && forall j :: 0 <= j < 7 ==> |t.redX[j]| == XL && |t.redY[j]| == XL
  }

  // ---- The cells of a hand around the centre (x, y) ----

  function X(t: Tables, s: Stroke, i: nat): int
    requires TablesOk(t) && s.table <= 7 && i < XL
  {
    if s.table == 0 then 0 else t.redX[s.table - 1][i]
  }

  function Y(t: Tables, s: Stroke, i: nat): int
    requires TablesOk(t) && s.table <= 7 && i < XL
  {
    if s.table == 0 then i else t.redY[s.table - 1][i]
  }

  // The start of the area painted for point i, as it reaches the 16-bit parameter.
  function StartX(t: Tables, x: word, s: Stroke, i: nat): word
    requires TablesOk(t) && s.table <= 7 && i < XL
  {
    (x + Dx(s, X(t, s, i), Y(t, s, i))) % 65536
  }

  function StartY(t: Tables, y: word, s: Stroke, i: nat): word
    requires TablesOk(t) && s.table <= 7 && i < XL
  {
    (y + Dy(s, X(t, s, i), Y(t, s, i))) % 65536
  }

  function BrushX(s: Stroke): word { if s.turned then 1 else SECPIXEL }

  function BrushY(s: Stroke): word { if s.turned then SECPIXEL else 1 }

  ghost predicate InBrush(t: Tables, x: word, y: word, s: Stroke, i: nat, px: int, py: int)
    requires TablesOk(t) && s.table <= 7 && i < XL
  {
    && StartX(t, x, s, i) <= px < StartX(t, x, s, i) + BrushX(s)
    && StartY(t, y, s, i) <= py < StartY(t, y, s, i) + BrushY(s)
  }

  ghost predicate OnStroke(t: Tables, x: word, y: word, s: Stroke, n: nat, px: int, py: int)
    requires TablesOk(t) && s.table <= 7 && n <= XL
  {
    exists i :: 0 <= i < n && InBrush(t, x, y, s, i, px, py)
  }

  /** The pixel belongs to the hand. */
  ghost predicate OnHand(t: Tables, x: word, y: word, h: Hand, px: int, py: int)
    requires TablesOk(t) && HandOk(h)
  {
    OnStroke(t, x, y, h.tip, h.tip.count, px, py) || OnStroke(t, x, y, h.tail, h.tail.count, px, py)
  }

  // ---- The painting ----

  method PaintStroke(win: OsdWin, t: Tables, x: word, y: word, s: Stroke, color: byte)
    requires win.Valid() && TablesOk(t) && s.table <= 7 && s.count <= XL && color < 16
    modifies win.data
    ensures forall px, py {:trigger win.Px(px, py)} :: win.In(px, py) ==>
              win.Px(px, py) == if OnStroke(t, x, y, s, s.count, px, py) then color else old(win.Px(px, py))
  {
    for i := 0 to s.count
      invariant forall px, py {:trigger win.Px(px, py)} :: win.In(px, py) ==>
                  win.Px(px, py) == if OnStroke(t, x, y, s, i, px, py) then color else old(win.Px(px, py))
    {
      PaintPoint(win, t, x, y, s, i, color);
      forall px, py | win.In(px, py)
        ensures OnStroke(t, x, y, s, i + 1, px, py) <==> OnStroke(t, x, y, s, i, px, py) || InBrush(t, x, y, s, i, px, py)
      {
        OneMore(t, x, y, s, i, px, py);
      }
    }
  }

  method PaintPoint(win: OsdWin, t: Tables, x: word, y: word, s: Stroke, i: nat, color: byte)
    requires win.Valid() && TablesOk(t) && s.table <= 7 && i < XL && color < 16
    modifies win.data
    ensures forall px, py {:trigger win.Px(px, py)} :: win.In(px, py) ==>
              win.Px(px, py) == if InBrush(t, x, y, s, i, px, py) then color else old(win.Px(px, py))
  {
    win.PaintArea(StartX(t, x, s, i), StartY(t, y, s, i), BrushX(s), BrushY(s), color);
  }

  lemma OneMore(t: Tables, x: word, y: word, s: Stroke, i: nat, px: int, py: int)
    requires TablesOk(t) && s.table <= 7 && i < XL
    ensures OnStroke(t, x, y, s, i + 1, px, py) <==> OnStroke(t, x, y, s, i, px, py) || InBrush(t, x, y, s, i, px, py)
  {
    if OnStroke(t, x, y, s, i, px, py) {
      var j :| 0 <= j < i && InBrush(t, x, y, s, j, px, py);
      assert 0 <= j < i + 1 && InBrush(t, x, y, s, j, px, py);
    }
  }

  method PaintHand(win: OsdWin, t: Tables, x: word, y: word, h: Hand, color: byte)
    requires win.Valid() && TablesOk(t) && HandOk(h) && color < 16
    modifies win.data
    ensures forall px, py {:trigger win.Px(px, py)} :: win.In(px, py) ==>
              win.Px(px, py) == if OnHand(t, x, y, h, px, py) then color else old(win.Px(px, py))
  {
    hide OnStroke;
    PaintStroke(win, t, x, y, h.tip, color);
    PaintStroke(win, t, x, y, h.tail, color);
  }

  /** DrawSecondRed: dispatches to the function of second 15 * rotate + index, which erases
      one hand and paints another; other arguments draw nothing. */
  method DrawSecondRed(win: OsdWin, t: Tables, x: word, y: word, rotate: byte, index: byte)
    requires win.Valid() && TablesOk(t)
    modifies win.data
    ensures rotate < 4 && index < 15 ==>
              HandOk(Erased(rotate, index)) && HandOk(Painted(rotate, index)) &&
              forall px, py {:trigger win.Px(px, py)} :: win.In(px, py) ==>
                win.Px(px, py) == if OnHand(t, x, y, Painted(rotate, index), px, py) then 6
                                  else if OnHand(t, x, y, Erased(rotate, index), px, py) then 0
                                  else old(win.Px(px, py))
    ensures rotate >= 4 || index >= 15 ==> win.data[..] == old(win.data[..])
  {
    hide OnHand, Erased, Painted;
    if rotate < 4 && index < 15 {
      ErasesPrevious(rotate, index);
      PaintHand(win, t, x, y, Erased(rotate, index), 0);
      PaintHand(win, t, x, y, Painted(rotate, index), 6);
    }
  }

  // ---- Runs of the clock ----

  type Second = k: nat | k < 60

  function HandOf(k: Second): Hand { Painted(k / 15, k % 15) }

  function Before(k: Second): Second { (k + 59) % 60 }

  lemma HandsOk(k: Second)
    ensures HandOk(HandOf(k)) && HandOk(Erased(k / 15, k % 15))
    ensures Erased(k / 15, k % 15) == HandOf(Before(k))
  {
    hide Erased, Painted;
    ErasesPrevious(k / 15, k % 15);
    if k % 15 > 0 {
      assert Before(k) / 15 == k / 15 && Before(k) % 15 == k % 15 - 1;
    }
  }

  type Pixels = set<(int, int)>

  /** The pixels of the hand of second k that lie on the screen. */
  ghost function Cells(win: OsdWin, t: Tables, x: word, y: word, k: Second): (c: Pixels)
    requires TablesOk(t)
    ensures HandOk(HandOf(k))
    ensures forall px, py :: (px, py) in c <==> win.In(px, py) && OnHand(t, x, y, HandOf(k), px, py)
  {
    HandsOk(k);
    set px, py | 0 <= px < win.width && 0 <= py < win.height && OnHand(t, x, y, HandOf(k), px, py) :: (px, py)
  }

  // The pixels in colour 6 are those of r.
  ghost predicate RedIs(win: OsdWin, r: Pixels)
    requires win.Valid()
    reads win.data
  {
    forall px, py :: win.In(px, py) ==> (win.Px(px, py) == 6 <==> (px, py) in r)
  }

  /** What the tick of second k makes of the red pixels, whatever they were. */
  ghost function AfterTick(win: OsdWin, t: Tables, x: word, y: word, red: Pixels, k: Second): Pixels
    requires TablesOk(t)
  {
    Cells(win, t, x, y, k) + (red - Cells(win, t, x, y, Before(k)))
  }

  method Tick(win: OsdWin, t: Tables, x: word, y: word, second: Second, ghost red: Pixels)
    requires win.Valid() && TablesOk(t) && RedIs(win, red)
    modifies win.data
    ensures RedIs(win, AfterTick(win, t, x, y, red, second))
  {
    hide OnHand, HandOf, Erased, Painted, HandOk;
    HandsOk(second);
    assert HandOf(second) == Painted(second / 15, second % 15) by { HandOfIsPainted(second); }
    DrawSecondRed(win, t, x, y, second / 15, second % 15);
  }

  lemma HandOfIsPainted(k: Second)
    ensures HandOf(k) == Painted(k / 15, k % 15)
  {
  }
}
