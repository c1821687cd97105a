/** A region for which the program's own ring is too short. */
module FillTree {
  import opened Basics
  import opened Regions
  import opened FillSteps
  import opened FillLevels

  // Distances of a row from the middle row, from the two rows 8 off it, and so on.
  function Abs(a: int): int { if a < 0 then -a else a }

  function A(y: int): int { Abs(y - 15) }

  function B(y: int): int { Abs(A(y) - 8) }

  function C(y: int): int { Abs(B(y) - 4) }

  // A tree of 13 by 31 words: three forks in columns 0, 2 and 4, eight bars, and on every bar
  // four teeth above and four below.
  predicate InTree(x: int, y: int) {
    && 0 <= y < 31 && 0 <= x < 13
    && if x == 0 then A(y) <= 8
       else if x == 1 then A(y) == 8
       else if x == 2 then B(y) <= 4
       else if x == 3 then B(y) == 4
       else if x == 4 then C(y) <= 2
       else y % 4 == 1 || (x % 2 == 0 && y % 2 == 0)
  }

  function Tree(): (f: Field)
    ensures f.width == 13 && f.height == 31
    ensures forall c :: c in f.m <==> InTree(c.x, c.y)
  {
    var f := Field(set x: int, y: int | 0 <= x < 13 && 0 <= y < 31 && InTree(x, y) :: Cell(x, y), 13, 31);
    assert forall c: Cell :: c == Cell(c.x, c.y);
    f
  }

  function Depth(x: int, y: int): int {
    if x == 0 then A(y) else if x == 1 then 8 else if x == 2 then 8 + B(y) else if x == 3 then 12
    else if x == 4 then 12 + C(y) else if y % 4 == 1 then 14 else 15
  }

  const ROOT := Cell(0, 15)

  function TreeLevel(c: Cell): int { Depth(c.x, c.y) }

  // The bars lie in the rows where the third fork ends.
  lemma BarRows(y: int)
    requires 0 <= y < 31
    ensures C(y) == 2 <==> y % 4 == 1
  {
  }

  lemma DepthNear(x: int, y: int, x': int, y': int)
    requires InTree(x, y) && InTree(x', y') && -1 <= x - x' <= 1 && -1 <= y - y' <= 1
    ensures Depth(x', y') <= Depth(x, y) + 1
    ensures y == y' ==> Depth(x', y') == Depth(x, y)
  {
    BarRows(y);
    BarRows(y');
  }

  // One row nearer to where the fork began.
  lemma ForkBack(y: int)
    ensures A(y) > 0 ==> A(y - 1) == A(y) - 1 || A(y + 1) == A(y) - 1
    ensures 0 < B(y) <= 4 ==> B(y - 1) == B(y) - 1 || B(y + 1) == B(y) - 1
    ensures 0 < C(y) <= 2 ==> C(y - 1) == C(y) - 1 || C(y + 1) == C(y) - 1
  {
  }

  lemma Joined(x: int, x': int, y: int)
    requires x <= x' && forall z :: x <= z <= x' ==> InTree(z, y)
    ensures SameRun(Tree().m, Cell(x, y), Cell(x', y))
  {
    forall c: Cell | c.y == y && (x <= c.x <= x' || x' <= c.x <= x) ensures c in Tree().m {
      assert InTree(c.x, y);
    }
  }

  // The cell before (x, y) on the way from the root, in the column x' where its run begins.
  lemma FollowsRun(x: int, x': int, y: int, y': int)
    requires x' <= x && forall z :: x' <= z <= x ==> InTree(z, y)
    requires InTree(x', y') && (y' == y - 1 || y' == y + 1) && Depth(x', y') == Depth(x, y) - 1 && Depth(x, y) > 0
    ensures Follows(Tree().m, TreeLevel, ROOT, Cell(x, y))
  {
    Joined(x', x, y);
    var e, a, c := Cell(x', y'), Cell(x', y), Cell(x, y);
    assert e in Tree().m && Near(e, a) && TreeLevel(e) == TreeLevel(c) - 1 && SameRun(Tree().m, a, c);
  }

  lemma FollowsTrunk(x: int, y: int)
    requires InTree(x, y) && (x == 0 || x == 1 || (x == 2 && B(y) == 0)) && Depth(x, y) > 0
    ensures Follows(Tree().m, TreeLevel, ROOT, Cell(x, y))
  {
    ForkBack(y);
    FollowsRun(x, 0, y, if A(y - 1) < A(y) then y - 1 else y + 1);
  }

  lemma FollowsBranch(x: int, y: int)
    requires InTree(x, y) && ((x == 2 && B(y) > 0) || x == 3 || (x == 4 && C(y) == 0))
    ensures Follows(Tree().m, TreeLevel, ROOT, Cell(x, y))
  {
    ForkBack(y);
    FollowsRun(x, 2, y, if B(y - 1) < B(y) then y - 1 else y + 1);
  }

  lemma FollowsTwig(x: int, y: int)
    requires InTree(x, y) && ((x == 4 && C(y) > 0) || (x > 4 && y % 4 == 1))
    ensures Follows(Tree().m, TreeLevel, ROOT, Cell(x, y))
  {
    BarRows(y);
    ForkBack(y);
    FollowsRun(x, 4, y, if C(y - 1) < C(y) then y - 1 else y + 1);
  }

  lemma FollowsBar(x: int, y: int)
    requires InTree(x, y) && x > 4 && y % 4 != 1
    ensures Follows(Tree().m, TreeLevel, ROOT, Cell(x, y))
  {
    FollowsRun(x, x, y, if y % 4 == 0 then y + 1 else y - 1);
  }

  lemma TreeFollows(c: Cell)
    requires c in Tree().m
    ensures Follows(Tree().m, TreeLevel, ROOT, c)
  {
    hide Follows, A, B, C;
    var x, y := c.x, c.y;
    assert c == Cell(x, y);
    if x == 0 && y == 15 {
      RootFollows();
    } else if x == 0 || x == 1 || (x == 2 && B(y) == 0) {
      TrunkDepth(x, y);
      FollowsTrunk(x, y);
    } else if x == 2 || x == 3 || (x == 4 && C(y) == 0) {
      AtLeastZero(y);
      FollowsBranch(x, y);
    } else if x == 4 || y % 4 == 1 {
      AtLeastZero(y);
      FollowsTwig(x, y);
    } else {
      FollowsBar(x, y);
    }
  }

  lemma RootFollows()
    ensures ROOT in Tree().m && TreeLevel(ROOT) == 0 && Follows(Tree().m, TreeLevel, ROOT, ROOT)
  {
    Joined(0, 0, 15);
  }

  lemma TrunkDepth(x: int, y: int)
    requires InTree(x, y) && (x == 0 || x == 1 || x == 2) && !(x == 0 && y == 15)
    ensures Depth(x, y) > 0
  {
  }

  lemma AtLeastZero(y: int)
    ensures A(y) >= 0 && B(y) >= 0 && C(y) >= 0
  {
  }

  lemma TreeHasLevels()
    ensures IsLevel(Tree().m, TreeLevel, ROOT)
  {
    hide Follows, Depth, InTree;
    var m := Tree().m;
    RootFollows();
    forall c | c in m ensures TreeLevel(c) >= 0 && Follows(m, TreeLevel, ROOT, c) {
      TreeFollows(c);
      DepthIsNat(c.x, c.y);
    }
    forall c, e | c in m && e in m && Near(c, e)
      ensures TreeLevel(e) <= TreeLevel(c) + 1 && (Beside(c, e) ==> TreeLevel(e) == TreeLevel(c))
    {
      DepthNear(c.x, c.y, e.x, e.y);
    }
    assert forall c, e :: Beside(c, e) ==> Near(c, e);
  }

  lemma DepthIsNat(x: int, y: int)
    ensures Depth(x, y) >= 0
  {
  }

  // ---- The teeth ----

  ghost function RowOfTeeth(y: int): set<Cell> {
    {Cell(6, y), Cell(8, y), Cell(10, y), Cell(12, y)}
  }

  // The teeth in the first n even rows.
  ghost function Teeth(n: nat): set<Cell> {
    if n == 0 then {} else Teeth(n - 1) + RowOfTeeth(2 * (n - 1))
  }

  lemma RowSize(y: int)
    requires 0 <= y < 31 && y % 2 == 0
    ensures |RowOfTeeth(y)| == 4
    ensures forall c :: c in RowOfTeeth(y) ==> c.y == y && c in StartsAtLevel(Tree().m, TreeLevel, 15)
  {
    forall c | c in RowOfTeeth(y) ensures c in StartsAtLevel(Tree().m, TreeLevel, 15) {
      ToothStarts(c.x, y);
    }
  }

  lemma {:induction false} TeethSize(n: nat)
    requires n <= 16
    ensures |Teeth(n)| == 4 * n
    ensures forall c :: c in Teeth(n) ==> c.y < 2 * n && c in StartsAtLevel(Tree().m, TreeLevel, 15)
  {
    hide RowOfTeeth, StartsAtLevel, Tree;
    if n > 0 {
      TeethSize(n - 1);
      RowSize(2 * (n - 1));
      assert Teeth(n - 1) !! RowOfTeeth(2 * (n - 1));
    }
  }

  lemma ToothStarts(x: int, y: int)
    requires 6 <= x < 13 && x % 2 == 0 && 0 <= y < 31 && y % 2 == 0
    ensures Cell(x, y) in StartsAtLevel(Tree().m, TreeLevel, 15)
  {
    assert !InTree(x - 1, y);
  }

  /** The ring that the program makes for a region of 26 by 31 pixels, with twice as many slots as
      the longer side has pixels, overflows on the tree. */
  lemma TreeOverflows()
    ensures Reaches(Tree(), ROOT, 2 * Max(2 * Tree().width, Tree().height))
  {
    hide IsLevel, Teeth, StartsAtLevel, Reaches, InTree;
    TreeHasLevels();
    TeethSize(16);
    Smaller(Teeth(16), StartsAtLevel(Tree().m, TreeLevel, 15));
    LevelFillsQueue(Tree(), TreeLevel, ROOT, 15, 62);
  }
}
