/** The running clock: it is polled for the second and redraws when the second has changed. */
module ClockFace {
  import opened Basics
  import opened Osd
  import opened HandTable
  import opened SecondHand
  import opened HandShape

  // The side of the square around the centre that is erased before and filled after the hand.
  const SIDE := 12

  class Clock {
    const win: OsdWin
    const t: Tables
    const x: word
    const y: word
    const circle: seq<byte>   // centerCircle
    var secondLast: int

    constructor (win: OsdWin, t: Tables, x: word, y: word, circle: seq<byte>)
      requires win.Valid() && win.width <= U16 && win.height <= U16 && TablesOk(t) && |circle| == SIDE * SIDE
      ensures this.win == win && this.t == t && this.x == x && this.y == y && this.circle == circle
      ensures Valid() && secondLast == -1
    {
      this.win, this.t, this.x, this.y, this.circle := win, t, x, y, circle;
      secondLast := -1;
    }

    // The sides of the display are 16-bit numbers.
    ghost predicate Valid() {
      win.Valid() && win.width <= U16 && win.height <= U16 && TablesOk(t) && |circle| == SIDE * SIDE
    }

    function Left(): word { (x - SIDE / 2) % U16 }

    function Top(): word { (y - SIDE / 2) % U16 }

    predicate InCentre(px: int, py: int) {
      Left() <= px < Left() + SIDE && Top() <= py < Top() + SIDE
    }

    // The pixels of the square on the screen, and those that the circle makes red.
    ghost function Centre(): (c: Pixels)
      ensures forall px, py :: (px, py) in c <==> win.In(px, py) && InCentre(px, py)
    {
      set px, py | 0 <= px < win.width && 0 <= py < win.height && InCentre(px, py) :: (px, py)
    }

    function CircleAt(px: int, py: int): byte
      requires |circle| == SIDE * SIDE && InCentre(px, py)
    {
      circle[SIDE * (py - Top()) + (px - Left())] % 16
    }

    ghost function CircleRed(): (c: Pixels)
      requires |circle| == SIDE * SIDE
      ensures forall px, py :: (px, py) in c <==> win.In(px, py) && InCentre(px, py) && CircleAt(px, py) == 6
    {
      set px, py | 0 <= px < win.width && 0 <= py < win.height && InCentre(px, py) && CircleAt(px, py) == 6 :: (px, py)
    }

    /** Red pixels with the square replaced by the circle. */
    ghost function WithCircle(red: Pixels): Pixels
      requires |circle| == SIDE * SIDE
    {
      (red - Centre()) + CircleRed()
    }

    // One row of the circle.
    method PaintCircleRow(j: nat)
      requires Valid() && j < SIDE
      modifies win.data
      ensures forall px, py {:trigger win.Px(px, py)} :: win.In(px, py) ==>
                win.Px(px, py) == if InCentre(px, py) && py == Top() + j then CircleAt(px, py) else old(win.Px(px, py))
    {
      for i := 0 to SIDE
        invariant forall px, py {:trigger win.Px(px, py)} :: win.In(px, py) ==>
                    win.Px(px, py) == if InCentre(px, py) && py == Top() + j && px < Left() + i then CircleAt(px, py)
                                      else old(win.Px(px, py))
      {
        if Left() + i < U16 && Top() + j < U16 {
          win.PaintArea(Left() + i, Top() + j, 1, 1, circle[SIDE * j + i]);
        }
      }
    }

    // Idu_OsdPaintData for the circle.
    method PaintCircle()
      requires Valid()
      modifies win.data
      ensures forall px, py {:trigger win.Px(px, py)} :: win.In(px, py) ==>
                win.Px(px, py) == if InCentre(px, py) then CircleAt(px, py) else old(win.Px(px, py))
    {
      for j := 0 to SIDE
        invariant forall px, py {:trigger win.Px(px, py)} :: win.In(px, py) ==>
                    win.Px(px, py) == if InCentre(px, py) && py < Top() + j then CircleAt(px, py)
                                      else old(win.Px(px, py))
      {
        PaintCircleRow(j);
      }
    }

    /** What a poll that sees second k makes of the red pixels, whatever they were. */
    ghost function AfterPoll(last: int, red: Pixels, k: Second): Pixels
      requires Valid()
    {
      if k == last then red else WithCircle(AfterTick(win, t, x, y, red - Centre(), k))
    }

    /** The end of FlashClockBlackProcess: erase the centre, move the hand, paint the circle. */
    method Poll(second: Second, ghost red: Pixels)
      requires Valid() && RedIs(win, red)
      modifies `secondLast, win.data
      ensures RedIs(win, AfterPoll(old(secondLast), red, second))
      ensures secondLast == second
      ensures second == old(secondLast) ==> win.data[..] == old(win.data[..])
    {
      if second != secondLast {
        secondLast := second;
        EraseCentre(red);
        Tick(win, t, x, y, second, red - Centre());
        FillCentre(AfterTick(win, t, x, y, red - Centre(), second));
      }
    }

    method EraseCentre(ghost red: Pixels)
      requires Valid() && RedIs(win, red)
      modifies win.data
      ensures RedIs(win, red - Centre())
    {
      win.PaintArea(Left(), Top(), SIDE, SIDE, 0);
    }

    method FillCentre(ghost red: Pixels)
      requires Valid() && RedIs(win, red)
      modifies win.data
      ensures RedIs(win, WithCircle(red))
    {
      PaintCircle();
    }

    // ---- Runs ----

    function LastOf(last: int, run: seq<Second>): int {
      if run == [] then last else run[|run| - 1]
    }

    ghost function AfterRun(last: int, red: Pixels, run: seq<Second>): Pixels
      requires Valid()
    {
      if run == [] then red
      else
        var n := |run| - 1;
        AfterPoll(LastOf(last, run[..n]), AfterRun(last, red, run[..n]), run[n])
    }

    /** The clock over any sequence of polls, in order or not. */
    method Run(run: seq<Second>, ghost red: Pixels)
      requires Valid() && RedIs(win, red)
      modifies `secondLast, win.data
      ensures RedIs(win, AfterRun(old(secondLast), red, run))
    {
      hide RedIs, AfterPoll;
      for i := 0 to |run|
        invariant secondLast == LastOf(old(secondLast), run[..i])
        invariant RedIs(win, AfterRun(old(secondLast), red, run[..i]))
      {
        assert run[..i + 1][..i] == run[..i];
        Poll(run[i], AfterRun(old(secondLast), red, run[..i]));
      }
      assert run[..|run|] == run;
    }

    // Every poll sees the second of the poll before, or the one after it.
    ghost predicate Steady(run: seq<Second>) {
      forall i :: 0 < i < |run| ==> run[i] == run[i - 1] || run[i - 1] == Before(run[i])
    }

    /** What the display shows while second k lasts. */
    ghost function Face(k: Second): Pixels
      requires Valid()
    {
      WithCircle(Cells(win, t, x, y, k))
    }

    /** The square lies around the centre, and the circle in it row by row. */
    lemma CentreIs(dx: int, dy: int)
      requires |circle| == SIDE * SIDE && 6 <= x < U16 - 6 && 6 <= y < U16 - 6
      ensures InCentre(x + dx, y + dy) <==> -6 <= dx < 6 && -6 <= dy < 6
      ensures InCentre(x + dx, y + dy) ==> CircleAt(x + dx, y + dy) == circle[12 * (dy + 6) + (dx + 6)] % 16
    {
    }

    /** The face, pixel by pixel: the circle in the square around the centre, and outside it the
        hand. */
    lemma FacePixel(k: Second, dx: int, dy: int)
      requires Valid() && 6 <= x < U16 - 6 && 6 <= y < U16 - 6 && win.In(x + dx, y + dy)
      ensures HandOk(HandOf(k))
      ensures (x + dx, y + dy) in Face(k)
              <==> if -6 <= dx < 6 && -6 <= dy < 6 then circle[12 * (dy + 6) + (dx + 6)] % 16 == 6
                   else OnHand(t, x, y, HandOf(k), x + dx, y + dy)
    {
      hide OnHand, HandOf;
      HandsOk(k);
      CentreIs(dx, dy);
    }

    // Outside the centre nothing is red but what the tick of second k erases: so on an erased
    // display, and while the second before it lasts.
    ghost predicate Ready(red: Pixels, k: Second)
      requires Valid()
    {
      red - Centre() <= Cells(win, t, x, y, Before(k))
    }

    lemma PollShows(last: int, red: Pixels, k: Second)
      requires Valid() && k != last && Ready(red, k)
      ensures AfterPoll(last, red, k) == Face(k)
    {
      hide Cells;
    }

    lemma FaceIsReady(k: Second)
      requires Valid()
      ensures Ready(Face(Before(k)), k)
    {
      hide Cells;
    }

    /** A steady run of polls, however often each second is seen, that starts ready, ends with
        exactly the hand of the last second and the circle, and no residue. */
    lemma {:induction false} SteadyRun(last: int, red: Pixels, run: seq<Second>)
      requires Valid() && run != [] && Steady(run) && last != run[0] && Ready(red, run[0])
      ensures AfterRun(last, red, run) == Face(run[|run| - 1])
      decreases |run|
    {
      hide Face, Ready;
      var n := |run| - 1;
      if n > 0 {
        SteadyRun(last, red, run[..n]);
        FaceIsReady(run[n]);
        if run[n] != run[n - 1] {
          PollShows(run[n - 1], Face(run[n - 1]), run[n]);
        }
      } else {
        assert AfterRun(last, red, run[..0]) == red;
        PollShows(last, red, run[0]);
      }
    }

    // ---- Skipped seconds ----

    // The display contains all hands.
    ghost predicate HoldsHands() {
      Valid() && TablesAre(t) && XL <= x < win.width - XL && XL <= y < win.height - XL
    }

    // The first pixel of the last brush of the long end of a hand.
    ghost function TipOf(k: Second): (int, int)
      requires TablesOk(t)
    {
      (x + Tip(t, k).0, y + Tip(t, k).1)
    }

    lemma TipInside(i: Second)
      requires HoldsHands()
      ensures win.In(TipOf(i).0, TipOf(i).1) && TipOf(i) !in Centre()
    {
      hide RowsAre, EndsAre, Tip;
      TipIsOnItsHand(t, x, y, i, i);
    }

    lemma TipInCells(i: Second, k: Second)
      requires HoldsHands()
      ensures TipOf(i) in Cells(win, t, x, y, k) <==> i == k
    {
      hide RowsAre, EndsAre, Tip, OnHand, HandOf;
      TipInside(i);
      TipIsOnItsHand(t, x, y, i, k);
    }

    lemma TipOnFace(i: Second, k: Second)
      requires HoldsHands()
      ensures TipOf(i) in Face(k) <==> i == k
    {
      hide RowsAre, EndsAre, TipOf, Cells;
      TipInside(i);
      TipInCells(i, k);
    }

    /** A poll that draws paints the tip of its own hand and erases that of the hand before,
        and no other tip. */
    lemma TipAfterPoll(last: int, red: Pixels, k: Second, i: Second)
      requires HoldsHands() && k != last
      ensures TipOf(i) in AfterPoll(last, red, k) <==> i == k || (i != Before(k) && TipOf(i) in red)
    {
      hide RowsAre, EndsAre, TipOf, Cells;
      TipInside(i);
      TipInCells(i, k);
      TipInCells(i, Before(k));
    }

    /** From the face of second j a poll of second k leads to the face of k only if k is j or the
        second after it: after any other jump the tip of the old hand stays red. */
    lemma SkippedSeconds(j: Second, k: Second)
      requires HoldsHands()
      ensures AfterPoll(j, Face(j), k) == Face(k) <==> k == j || j == Before(k)
      ensures k != j && j != Before(k) ==> TipOf(j) in AfterPoll(j, Face(j), k) && TipOf(j) !in Face(k)
    {
      hide Face, RowsAre, EndsAre, TipOf, Ready;
      if k != j {
        TipAfterPoll(j, Face(j), k, j);
        TipOnFace(j, j);
        TipOnFace(j, k);
        if j == Before(k) {
          FaceIsReady(k);
          PollShows(j, Face(j), k);
        }
      }
    }

    // Second i has been seen, and not the second after it since.
    ghost predicate NotErased(run: seq<Second>, i: Second) {
      exists p :: 0 <= p < |run| && run[p] == i && forall q :: p < q < |run| ==> Before(run[q]) != i
    }

    lemma NotErasedNow(run: seq<Second>, i: Second)
      requires run != []
      ensures var n := |run| - 1;
              NotErased(run, i) <==> run[n] == i || (Before(run[n]) != i && NotErased(run[..n], i))
    {
      var n := |run| - 1;
      if Before(run[n]) != i && NotErased(run[..n], i) {
        var p :| 0 <= p < n && run[..n][p] == i && forall q :: p < q < n ==> Before(run[..n][q]) != i;
        assert forall q :: p < q < n ==> run[..n][q] == run[q];
        assert run[p] == i;
      }
      if NotErased(run, i) && run[n] != i {
        var p :| 0 <= p < |run| && run[p] == i && forall q :: p < q < |run| ==> Before(run[q]) != i;
        assert run[..n][p] == i;
      }
    }

    /** After any run of polls on a clean display, in whatever order, the tip of a hand is red if
        and only if its second has been seen and the second after it has not been seen since. */
    lemma {:induction false} HandsLeft(red: Pixels, run: seq<Second>, i: Second)
      requires HoldsHands() && TipOf(i) !in red
      ensures TipOf(i) in AfterRun(-1, red, run) <==> NotErased(run, i)
      decreases |run|
    {
      hide RowsAre, EndsAre, TipOf, Before, WithCircle, AfterTick, NotErased;
      if run == [] {
        assert !NotErased(run, i) by { NoneYet(i); }
      } else {
        var n := |run| - 1;
        HandsLeft(red, run[..n], i);
        NotErasedNow(run, i);
        if n == 0 || run[n - 1] != run[n] {
          TipAfterPoll(LastOf(-1, run[..n]), AfterRun(-1, red, run[..n]), run[n], i);
        } else {
          NotErasedNow(run[..n], i);
        }
      }
    }

    lemma NoneYet(i: Second)
      ensures !NotErased([], i)
    {
    }
  }
}
