/** The sixty functions DrawSecondRed0 to DrawSecondRed59, one loop to a stroke. */
module HandTable {
  const XL := 182
  const TL := 40

  // One loop over the first count entries of a table; table 0 stands for the axis, x offset
  // 0 and y offset i. The signs say to which side of the centre the offsets go; a turned
  // loop takes the y offsets for x and paints with the brush turned.
  datatype Stroke = Stroke(count: nat, table: nat, sx: int, sy: int, turned: bool)

  // The long and the short end of a hand.
  datatype Hand = Hand(tip: Stroke, tail: Stroke)

  function U(count: nat, table: nat, sx: int, sy: int): Stroke { Stroke(count, table, sx, sy, false) }

  function T(count: nat, table: nat, sx: int, sy: int): Stroke { Stroke(count, table, sx, sy, true) }

  // The first two loops of DrawSecondRed0 to DrawSecondRed59, in colour 0, by quadrant.
  function Erased0(index: nat): Hand
    requires index < 15
  {
    match index
    case 0 => Hand(U(180, 1, -1, -1), U(40, 1, 1, 1))
    case 1 => Hand(U(182, 0, 1, -1), U(40, 0, 1, 1))
    case 2 => Hand(U(180, 1, 1, -1), U(40, 1, -1, 1))
    case 3 => Hand(U(175, 2, 1, -1), U(40, 2, -1, 1))
    case 4 => Hand(U(170, 3, 1, -1), U(40, 3, -1, 1))
    case 5 => Hand(U(165, 4, 1, -1), U(40, 4, -1, 1))
    case 6 => Hand(U(160, 5, 1, -1), U(40, 5, -1, 1))
    case 7 => Hand(U(150, 6, 1, -1), U(40, 6, -1, 1))
    case 8 => Hand(U(135, 7, 1, -1), U(40, 7, -1, 1))
    case 9 => Hand(T(135, 7, 1, -1), T(40, 7, -1, 1))
    case 10 => Hand(T(150, 6, 1, -1), T(40, 6, -1, 1))
    case 11 => Hand(T(160, 5, 1, -1), T(40, 5, -1, 1))
    case 12 => Hand(T(165, 4, 1, -1), T(40, 4, -1, 1))
    case 13 => Hand(T(170, 3, 1, -1), T(40, 3, -1, 1))
    case 14 => Hand(T(175, 2, 1, -1), T(40, 2, -1, 1))
  }

  function Erased1(index: nat): Hand
    requires index < 15
  {
    match index
    case 0 => Hand(T(180, 1, 1, -1), T(40, 1, -1, 1))
    case 1 => Hand(T(182, 0, 1, 1), T(40, 0, -1, 1))
    case 2 => Hand(T(180, 1, 1, 1), T(40, 1, -1, -1))
    case 3 => Hand(T(175, 2, 1, 1), T(40, 2, -1, -1))
    case 4 => Hand(T(170, 3, 1, 1), T(40, 3, -1, -1))
    case 5 => Hand(T(165, 4, 1, 1), T(40, 4, -1, -1))
    case 6 => Hand(T(160, 5, 1, 1), T(40, 5, -1, -1))
    case 7 => Hand(T(150, 6, 1, 1), T(40, 6, -1, -1))
    case 8 => Hand(T(135, 7, 1, 1), T(40, 7, -1, -1))
    case 9 => Hand(U(135, 7, 1, 1), U(40, 7, -1, -1))
    case 10 => Hand(U(150, 6, 1, 1), U(40, 6, -1, -1))
    case 11 => Hand(U(160, 5, 1, 1), U(40, 5, -1, -1))
    case 12 => Hand(U(165, 4, 1, 1), U(40, 4, -1, -1))
    case 13 => Hand(U(170, 3, 1, 1), U(40, 3, -1, -1))
    case 14 => Hand(U(175, 2, 1, 1), U(40, 2, -1, -1))
  }

  function Erased2(index: nat): Hand
    requires index < 15
  {
    match index
    case 0 => Hand(U(180, 1, 1, 1), U(40, 1, -1, -1))
    case 1 => Hand(U(182, 0, 1, 1), U(40, 0, 1, -1))
    case 2 => Hand(U(180, 1, -1, 1), U(40, 1, 1, -1))
    case 3 => Hand(U(175, 2, -1, 1), U(40, 2, 1, -1))
    case 4 => Hand(U(170, 3, -1, 1), U(40, 3, 1, -1))
    case 5 => Hand(U(165, 4, -1, 1), U(40, 4, 1, -1))
    case 6 => Hand(U(160, 5, -1, 1), U(40, 5, 1, -1))
    case 7 => Hand(U(150, 6, -1, 1), U(40, 6, 1, -1))
    case 8 => Hand(U(135, 7, -1, 1), U(40, 7, 1, -1))
    case 9 => Hand(T(135, 7, -1, 1), T(40, 7, 1, -1))
    case 10 => Hand(T(150, 6, -1, 1), T(40, 6, 1, -1))
    case 11 => Hand(T(160, 5, -1, 1), T(40, 5, 1, -1))
    case 12 => Hand(T(165, 4, -1, 1), T(40, 4, 1, -1))
    case 13 => Hand(T(170, 3, -1, 1), T(40, 3, 1, -1))
    case 14 => Hand(T(175, 2, -1, 1), T(40, 2, 1, -1))
  }

  function Erased3(index: nat): Hand
    requires index < 15
  {
    match index
    case 0 => Hand(T(180, 1, -1, 1), T(40, 1, 1, -1))
    case 1 => Hand(T(182, 0, -1, 1), T(40, 0, 1, 1))
    case 2 => Hand(T(180, 1, -1, -1), T(40, 1, 1, 1))
    case 3 => Hand(T(175, 2, -1, -1), T(40, 2, 1, 1))
    case 4 => Hand(T(170, 3, -1, -1), T(40, 3, 1, 1))
    case 5 => Hand(T(165, 4, -1, -1), T(40, 4, 1, 1))
    case 6 => Hand(T(160, 5, -1, -1), T(40, 5, 1, 1))
    case 7 => Hand(T(150, 6, -1, -1), T(40, 6, 1, 1))
    case 8 => Hand(T(135, 7, -1, -1), T(40, 7, 1, 1))
    case 9 => Hand(U(135, 7, -1, -1), U(40, 7, 1, 1))
    case 10 => Hand(U(150, 6, -1, -1), U(40, 6, 1, 1))
    case 11 => Hand(U(160, 5, -1, -1), U(40, 5, 1, 1))
    case 12 => Hand(U(165, 4, -1, -1), U(40, 4, 1, 1))
    case 13 => Hand(U(170, 3, -1, -1), U(40, 3, 1, 1))
    case 14 => Hand(U(175, 2, -1, -1), U(40, 2, 1, 1))
  }

  // The last two loops of DrawSecondRed0 to DrawSecondRed59, in colour 6, by quadrant.
  function Painted0(index: nat): Hand
    requires index < 15
  {
    match index
    case 0 => Hand(U(182, 0, 1, -1), U(40, 0, 1, 1))
    case 1 => Hand(U(180, 1, 1, -1), U(40, 1, -1, 1))
    case 2 => Hand(U(175, 2, 1, -1), U(40, 2, -1, 1))
    case 3 => Hand(U(170, 3, 1, -1), U(40, 3, -1, 1))
    case 4 => Hand(U(165, 4, 1, -1), U(40, 4, -1, 1))
    case 5 => Hand(U(160, 5, 1, -1), U(40, 5, -1, 1))
    case 6 => Hand(U(150, 6, 1, -1), U(40, 6, -1, 1))
    case 7 => Hand(U(135, 7, 1, -1), U(40, 7, -1, 1))
    case 8 => Hand(T(135, 7, 1, -1), T(40, 7, -1, 1))
    case 9 => Hand(T(150, 6, 1, -1), T(40, 6, -1, 1))
    case 10 => Hand(T(160, 5, 1, -1), T(40, 5, -1, 1))
    case 11 => Hand(T(165, 4, 1, -1), T(40, 4, -1, 1))
    case 12 => Hand(T(170, 3, 1, -1), T(40, 3, -1, 1))
    case 13 => Hand(T(175, 2, 1, -1), T(40, 2, -1, 1))
    case 14 => Hand(T(180, 1, 1, -1), T(40, 1, -1, 1))
  }

  function Painted1(index: nat): Hand
    requires index < 15
  {
    match index
    case 0 => Hand(T(182, 0, 1, 1), T(40, 0, -1, 1))
    case 1 => Hand(T(180, 1, 1, 1), T(40, 1, -1, -1))
    case 2 => Hand(T(175, 2, 1, 1), T(40, 2, -1, -1))
    case 3 => Hand(T(170, 3, 1, 1), T(40, 3, -1, -1))
    case 4 => Hand(T(165, 4, 1, 1), T(40, 4, -1, -1))
    case 5 => Hand(T(160, 5, 1, 1), T(40, 5, -1, -1))
    case 6 => Hand(T(150, 6, 1, 1), T(40, 6, -1, -1))
    case 7 => Hand(T(135, 7, 1, 1), T(40, 7, -1, -1))
    case 8 => Hand(U(135, 7, 1, 1), U(40, 7, -1, -1))
    case 9 => Hand(U(150, 6, 1, 1), U(40, 6, -1, -1))
    case 10 => Hand(U(160, 5, 1, 1), U(40, 5, -1, -1))
    case 11 => Hand(U(165, 4, 1, 1), U(40, 4, -1, -1))
    case 12 => Hand(U(170, 3, 1, 1), U(40, 3, -1, -1))
    case 13 => Hand(U(175, 2, 1, 1), U(40, 2, -1, -1))
    case 14 => Hand(U(180, 1, 1, 1), U(40, 1, -1, -1))
  }

  function Painted2(index: nat): Hand
    requires index < 15
  {
    match index
    case 0 => Hand(U(182, 0, 1, 1), U(40, 0, 1, -1))
    case 1 => Hand(U(180, 1, -1, 1), U(40, 1, 1, -1))
    case 2 => Hand(U(175, 2, -1, 1), U(40, 2, 1, -1))
    case 3 => Hand(U(170, 3, -1, 1), U(40, 3, 1, -1))
    case 4 => Hand(U(165, 4, -1, 1), U(40, 4, 1, -1))
    case 5 => Hand(U(160, 5, -1, 1), U(40, 5, 1, -1))
    case 6 => Hand(U(150, 6, -1, 1), U(40, 6, 1, -1))
    case 7 => Hand(U(135, 7, -1, 1), U(40, 7, 1, -1))
    case 8 => Hand(T(135, 7, -1, 1), T(40, 7, 1, -1))
    case 9 => Hand(T(150, 6, -1, 1), T(40, 6, 1, -1))
    case 10 => Hand(T(160, 5, -1, 1), T(40, 5, 1, -1))
    case 11 => Hand(T(165, 4, -1, 1), T(40, 4, 1, -1))
    case 12 => Hand(T(170, 3, -1, 1), T(40, 3, 1, -1))
    case 13 => Hand(T(175, 2, -1, 1), T(40, 2, 1, -1))
    case 14 => Hand(T(180, 1, -1, 1), T(40, 1, 1, -1))
  }

  function Painted3(index: nat): Hand
    requires index < 15
  {
    match index
    case 0 => Hand(T(182, 0, -1, 1), T(40, 0, 1, 1))
    case 1 => Hand(T(180, 1, -1, -1), T(40, 1, 1, 1))
    case 2 => Hand(T(175, 2, -1, -1), T(40, 2, 1, 1))
    case 3 => Hand(T(170, 3, -1, -1), T(40, 3, 1, 1))
    case 4 => Hand(T(165, 4, -1, -1), T(40, 4, 1, 1))
    case 5 => Hand(T(160, 5, -1, -1), T(40, 5, 1, 1))
    case 6 => Hand(T(150, 6, -1, -1), T(40, 6, 1, 1))
    case 7 => Hand(T(135, 7, -1, -1), T(40, 7, 1, 1))
    case 8 => Hand(U(135, 7, -1, -1), U(40, 7, 1, 1))
    case 9 => Hand(U(150, 6, -1, -1), U(40, 6, 1, 1))
    case 10 => Hand(U(160, 5, -1, -1), U(40, 5, 1, 1))
    case 11 => Hand(U(165, 4, -1, -1), U(40, 4, 1, 1))
    case 12 => Hand(U(170, 3, -1, -1), U(40, 3, 1, 1))
    case 13 => Hand(U(175, 2, -1, -1), U(40, 2, 1, 1))
    case 14 => Hand(U(180, 1, -1, -1), U(40, 1, 1, 1))
  }

  /** What second 15 * rotate + index erases. */
  function Erased(rotate: nat, index: nat): Hand
    requires rotate < 4 && index < 15
  {
    match rotate
    case 0 => Erased0(index)
    case 1 => Erased1(index)
    case 2 => Erased2(index)
    case 3 => Erased3(index)
  }

  /** What second 15 * rotate + index paints. */
  function Painted(rotate: nat, index: nat): Hand
    requires rotate < 4 && index < 15
  {
    match rotate
    case 0 => Painted0(index)
    case 1 => Painted1(index)
    case 2 => Painted2(index)
    case 3 => Painted3(index)
  }

  ghost predicate HandOk(h: Hand) {
    h.tip.count <= XL && h.tip.table <= 7 && h.tail.count == TL && h.tail.table == h.tip.table
  }

  lemma ErasesPrevious0(index: nat)
    requires index < 15
    ensures Erased0(index) == if index > 0 then Painted0(index - 1) else Painted3(14)
    ensures HandOk(Erased0(index)) && HandOk(Painted0(index))
  {
  }

  lemma ErasesPrevious1(index: nat)
    requires index < 15
    ensures Erased1(index) == if index > 0 then Painted1(index - 1) else Painted0(14)
    ensures HandOk(Erased1(index)) && HandOk(Painted1(index))
  {
  }

  lemma ErasesPrevious2(index: nat)
    requires index < 15
    ensures Erased2(index) == if index > 0 then Painted2(index - 1) else Painted1(14)
    ensures HandOk(Erased2(index)) && HandOk(Painted2(index))
  {
  }

  lemma ErasesPrevious3(index: nat)
    requires index < 15
    ensures Erased3(index) == if index > 0 then Painted3(index - 1) else Painted2(14)
    ensures HandOk(Erased3(index)) && HandOk(Painted3(index))
  {
  }

  /** What a second erases is what the second before it has painted, loop by loop, across the
      changes of quadrant and of brush and from second 59 to second 0. */
  lemma ErasesPrevious(rotate: nat, index: nat)
    requires rotate < 4 && index < 15
    ensures Erased(rotate, index)
            == if index > 0 then Painted(rotate, index - 1) else Painted(if rotate > 0 then rotate - 1 else 3, 14)
    ensures HandOk(Erased(rotate, index)) && HandOk(Painted(rotate, index))
  {
    match rotate
    case 0 => ErasesPrevious0(index);
    case 1 => ErasesPrevious1(index);
    case 2 => ErasesPrevious2(index);
    case 3 => ErasesPrevious3(index);
  }

  // ---- The shape of the table ----

  // The offsets of point i of a stroke from the centre, given the table entries a and b.
  function Dx(s: Stroke, a: int, b: int): int {
    s.sx * (if s.turned then b else a)
  }

  function Dy(s: Stroke, a: int, b: int): int {
    s.sy * (if s.turned then a else b)
  }

  // The stroke turned by ninety degrees clockwise on the screen, up to the sign of a zero.
  ghost predicate QuarterTurn(s: Stroke, t: Stroke) {
    && t.count == s.count && t.table == s.table && t.turned == !s.turned
    && (s.table != 0 ==> t.sx == -s.sy && t.sy == s.sx)
    && (s.table == 0 ==> if s.turned then t.sy == s.sx else t.sx == -s.sy)
  }

  // The stroke mirrored at the diagonal from bottom left to top right.
  ghost predicate Mirrored(s: Stroke, t: Stroke) {
    && t.count == s.count && t.table == s.table && t.turned == !s.turned
    && (s.table != 0 ==> t.sx == -s.sy && t.sy == -s.sx)
    && (s.table == 0 ==> if s.turned then t.sy == -s.sx else t.sx == -s.sy)
  }

  lemma QuarterTurnPoint(s: Stroke, t: Stroke, a: int, b: int)
    requires QuarterTurn(s, t) && (s.table == 0 ==> a == 0)
    ensures Dx(t, a, b) == -Dy(s, a, b) && Dy(t, a, b) == Dx(s, a, b)
  {
  }

  lemma MirroredPoint(s: Stroke, t: Stroke, a: int, b: int)
    requires Mirrored(s, t) && (s.table == 0 ==> a == 0)
    ensures Dx(t, a, b) == -Dy(s, a, b) && Dy(t, a, b) == -Dx(s, a, b)
  {
  }

  ghost predicate HandTurned(h: Hand, g: Hand) {
    QuarterTurn(h.tip, g.tip) && QuarterTurn(h.tail, g.tail)
  }

  lemma QuadrantTurns0(index: nat)
    requires index < 15
    ensures HandTurned(Painted0(index), Painted1(index))
  {
  }

  lemma QuadrantTurns1(index: nat)
    requires index < 15
    ensures HandTurned(Painted1(index), Painted2(index))
  {
  }

  lemma QuadrantTurns2(index: nat)
    requires index < 15
    ensures HandTurned(Painted2(index), Painted3(index))
  {
  }

  lemma QuadrantTurns3(index: nat)
    requires index < 15
    ensures HandTurned(Painted3(index), Painted0(index))
  {
  }

  /** Fifteen seconds on, the hand is the same one turned by a quarter. */
  lemma QuadrantTurns(rotate: nat, index: nat)
    requires rotate < 4 && index < 15
    ensures HandTurned(Painted(rotate, index), Painted(if rotate < 3 then rotate + 1 else 0, index))
  {
    match rotate
    case 0 => QuadrantTurns0(index);
    case 1 => QuadrantTurns1(index);
    case 2 => QuadrantTurns2(index);
    case 3 => QuadrantTurns3(index);
  }

  /** Within a quadrant the hands mirror each other, so hands 0 to 7 determine all sixty. */
  lemma QuadrantMirrors(index: nat)
    requires 0 < index < 15
    ensures Mirrored(Painted0(index).tip, Painted0(15 - index).tip)
    ensures Mirrored(Painted0(index).tail, Painted0(15 - index).tail)
  {
  }
}
