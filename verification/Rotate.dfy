/** The rotations of packed YUV 4:2:2 images: two neighbouring pixels share four bytes. */
module Rotate {
  import opened Basics

  // ST_PIXEL: the lumas of two neighbouring pixels and the chroma they share.
  datatype Quad = Quad(y0: byte, y1: byte, cb: byte, cr: byte)

  /** ST_IMGWIN: an image in a buffer with stride quads (dwOffset / 4) to a row. */
  class ImgWin {
    const pixels: array<Quad>
    const width: nat
    const height: nat
    const stride: nat

    constructor (pixels: array<Quad>, width: nat, height: nat, stride: nat)
      ensures this.pixels == pixels && this.width == width && this.height == height && this.stride == stride
    {
      this.pixels, this.width, this.height, this.stride := pixels, width, height, stride;
    }

    // Widths are even, and the image lies inside its buffer.
    predicate Valid() {
      width % 2 == 0 && width / 2 <= stride && Rows(height, stride) <= pixels.Length
    }

    // A place in the buffer; one in the row padding has p >= width / 2.
    predicate In(p: int, y: int) {
      0 <= p < stride && 0 <= y < height
    }

    lemma IndexInside(p: int, y: int)
      requires Valid() && In(p, y)
      ensures 0 <= Rows(y, stride) && Rows(y, stride) + stride <= pixels.Length
    {
      RowsApart(y, height, stride);
    }

    lemma OtherRow(p: int, y: int, y': int)
      requires Valid() && In(p, y) && 0 <= y' < height && y != y'
      ensures Rows(y, stride) + p < Rows(y', stride) || Rows(y', stride) + stride <= Rows(y, stride) + p
    {
      if y < y' { RowsApart(y, y', stride); } else { RowsApart(y', y, stride); }
    }

    ghost function At(p: int, y: int): Quad
      requires Valid() && In(p, y)
      reads pixels
    {
      IndexInside(p, y);
      pixels[Rows(y, stride) + p]
    }

    // Writes the quad at an index of the buffer, which is place (p, y).
    method Write(op: int, q: Quad, ghost p: int, ghost y: int)
      requires Valid() && In(p, y) && op == Rows(y, stride) + p
      modifies pixels
      ensures forall p', y' {:trigger At(p', y')} :: In(p', y') ==>
                At(p', y') == if p' == p && y' == y then q else old(At(p', y'))
    {
      IndexInside(p, y);
      pixels[op] := q;
      forall p', y' | In(p', y')
        ensures At(p', y') == if p' == p && y' == y then q else old(At(p', y'))
      {
        IndexInside(p', y');
        if y' != y { OtherRow(p', y', y); }
      }
    }

    // The luma of pixel (x, y).
    ghost function Luma(x: int, y: int): byte
      requires Valid() && 0 <= x < width && 0 <= y < height
      reads pixels
    {
      if x % 2 == 0 then At(x / 2, y).y0 else At(x / 2, y).y1
    }

    // The chroma of pixel (x, y).
    ghost function Chroma(x: int, y: int): (byte, byte)
      requires Valid() && 0 <= x < width && 0 <= y < height
      reads pixels
    {
      (At(x / 2, y).cb, At(x / 2, y).cr)
    }
  }

  // ---- Half a turn ----

  function Mirror(q: Quad): Quad {
    Quad(q.y1, q.y0, q.cb, q.cr)
  }

  // Whether place (p, y) of the target receives a quad: the last columns and rows do.
  predicate Receives(target: ImgWin, source: ImgWin, p: int, y: int) {
    target.width / 2 - source.width / 2 <= p < target.width / 2 && target.height - source.height <= y
  }

  // The inner loop of My_Img_Rotate180: one line, from its first quad on, written backwards.
  method ReflectQuads(target: array<Quad>, source: array<Quad>, start: nat, end: int, width: nat)
    requires target != source && width % 2 == 0
    requires start + width / 2 <= source.Length && width / 2 - 1 <= end < target.Length
    modifies target
    ensures forall k {:trigger target[k]} :: 0 <= k < target.Length ==>
              target[k] == if end - width / 2 < k <= end then Mirror(source[start + end - k]) else old(target[k])
  {
    var ip, op, pixel := start, end, width;
    while pixel > 0
      invariant 0 <= pixel <= width && pixel % 2 == 0
      invariant ip == start + (width - pixel) / 2 && op == end - (width - pixel) / 2
      invariant forall k {:trigger target[k]} :: 0 <= k < target.Length ==>
                  target[k] == if op < k <= end then Mirror(source[start + end - k]) else old(target[k])
    {
      var q := source[ip];
      target[op] := Quad(q.y1, q.y0, q.cb, q.cr);
      ip, op, pixel := ip + 1, op - 1, pixel - 2;
    }
  }

  // The same in terms of places: line of the source fills row of the target.
  method ReflectLine(target: ImgWin, source: ImgWin, line: nat)
    requires target.Valid() && source.Valid() && target.pixels != source.pixels
    requires source.width <= target.width && source.height <= target.height && line < source.height
    modifies target.pixels
    ensures forall p, y {:trigger target.At(p, y)} :: target.In(p, y) ==>
              target.At(p, y) == if y == target.height - 1 - line && target.width / 2 - source.width / 2 <= p < target.width / 2
                                 then Mirror(source.At(target.width / 2 - 1 - p, line))
                                 else old(target.At(p, y))
  {
    var row := target.height - line - 1;
    RowsApart(line, source.height, source.stride);
    RowsApart(row, target.height, target.stride);
    var start, end := Rows(line, source.stride), Rows(row, target.stride) + target.width / 2 - 1;
    ReflectQuads(target.pixels, source.pixels, start, end, source.width);
    forall p, y | target.In(p, y)
      ensures target.At(p, y) == if y == row && target.width / 2 - source.width / 2 <= p < target.width / 2
                                 then Mirror(source.At(target.width / 2 - 1 - p, line))
                                 else old(target.At(p, y))
    {
      target.IndexInside(p, y);
      if y != row { target.OtherRow(p, y, row); }
    }
  }

  /** My_Img_Rotate180: fills the last columns and rows of the target with the source turned
      by half a turn, and nothing else. */
  method Rotate180(target: ImgWin, source: ImgWin)
    requires target.Valid() && source.Valid() && target.pixels != source.pixels
    requires source.width <= target.width && source.height <= target.height
    modifies target.pixels
    ensures forall p, y {:trigger target.At(p, y)} :: target.In(p, y) ==>
              target.At(p, y) == if Receives(target, source, p, y)
                                 then Mirror(source.At(target.width / 2 - 1 - p, target.height - 1 - y))
                                 else old(target.At(p, y))
    ensures Corner180(target, source)
  {
    var line := 0;
    while line < source.height
      invariant 0 <= line <= source.height
      invariant forall p, y {:trigger target.At(p, y)} :: target.In(p, y) ==>
                  target.At(p, y) == if Receives(target, source, p, y) && y >= target.height - line
                                     then Mirror(source.At(target.width / 2 - 1 - p, target.height - 1 - y))
                                     else old(target.At(p, y))
    {
      ReflectLine(target, source, line);
      line := line + 1;
    }
  }

  // ---- A quarter of a turn ----

  // Two quads one above the other share the mean of their chroma after a quarter turn.
  function Mean(a: byte, b: byte): byte {
    (a + b) / 2
  }

  // The quad that the library's quarter turn clockwise makes of the pixels in column x of two
  // neighbouring rows, upper and lower.
  function Clockwise(upper: Quad, lower: Quad, x: int): Quad {
    Quad(if x % 2 == 0 then lower.y0 else lower.y1, if x % 2 == 0 then upper.y0 else upper.y1,
         Mean(upper.cb, lower.cb), Mean(upper.cr, lower.cr))
  }

  // The same for the quarter turn counter-clockwise.
  function CounterClockwise(upper: Quad, lower: Quad, x: int): Quad {
    Quad(if x % 2 == 0 then upper.y0 else upper.y1, if x % 2 == 0 then lower.y0 else lower.y1,
         Mean(upper.cb, lower.cb), Mean(upper.cr, lower.cr))
  }

  // The target has room for the source standing on its side.
  predicate FitsTurned(target: ImgWin, source: ImgWin) {
    && target.Valid() && source.Valid() && target.pixels != source.pixels && source.height % 2 == 0
    && source.height / 2 <= target.stride && source.width <= target.height
  }

  // The inner loop of Img_Rotate90: rows 2 * r and 2 * r + 1 of the source become a column.
  method TurnRows(target: ImgWin, source: ImgWin, ip: int, col: nat, ghost r: nat)
    requires FitsTurned(target, source) && 2 * r + 1 < source.height && col < source.height / 2
    requires ip == Rows(2 * r, source.stride)
    modifies target.pixels
    ensures forall p, y {:trigger target.At(p, y)} :: target.In(p, y) ==>
              target.At(p, y) == if p == col && y < source.width
                                 then Clockwise(source.At(y / 2, 2 * r), source.At(y / 2, 2 * r + 1), y)
                                 else old(target.At(p, y))
  {
    var line := source.width;
    var ip0: int := ip;
    var ip1 := ip0 + source.stride;
    var op := col;
    ghost var n := 0;
    while line > 0
      invariant 0 <= line == source.width - 2 * n && 0 <= n
      invariant ip0 == Rows(2 * r, source.stride) + n && ip1 == Rows(2 * r + 1, source.stride) + n
      invariant op == Rows(2 * n, target.stride) + col
      invariant forall p, y {:trigger target.At(p, y)} :: target.In(p, y) ==>
                  target.At(p, y) == if p == col && y < 2 * n
                                     then Clockwise(source.At(y / 2, 2 * r), source.At(y / 2, 2 * r + 1), y)
                                     else old(target.At(p, y))
    {
      source.IndexInside(n, 2 * r);
      source.IndexInside(n, 2 * r + 1);
      var q0, q1 := source.pixels[ip0], source.pixels[ip1];
      assert q0 == source.At(n, 2 * r) && q1 == source.At(n, 2 * r + 1);
      var cb, cr := (q0.cb + q1.cb) / 2, (q0.cr + q1.cr) / 2;
      target.Write(op, Quad(q1.y0, q0.y0, cb, cr), col, 2 * n);
      op := op + target.stride;
      target.Write(op, Quad(q1.y1, q0.y1, cb, cr), col, 2 * n + 1);
      op := op + target.stride;
      ip0, ip1, line := ip0 + 1, ip1 + 1, line - 2;
      n := n + 1;
    }
  }

  /** Img_Rotate90: a quarter turn clockwise into the corner of the target. */
  method Rotate90(target: ImgWin, source: ImgWin)
    requires FitsTurned(target, source)
    modifies target.pixels
    ensures forall p, y {:trigger target.At(p, y)} :: target.In(p, y) ==>
              target.At(p, y) == if p < source.height / 2 && y < source.width then Turned90(source, p, y)
                                 else old(target.At(p, y))
    ensures source.height <= target.width ==> Corner90(target, source)
  {
    var width := source.height;
    var ip0 := 0;
    ghost var r := 0;
    while width > 0
      invariant 0 <= width == source.height - 2 * r && 0 <= r
      invariant ip0 == Rows(2 * r, source.stride)
      invariant forall p, y {:trigger target.At(p, y)} :: target.In(p, y) ==>
                  target.At(p, y) == if source.height / 2 - r <= p < source.height / 2 && y < source.width
                                     then Turned90(source, p, y) else old(target.At(p, y))
    {
      TurnRows(target, source, ip0, width / 2 - 1, r);
      ip0 := ip0 + source.width / 2;
      ip0 := ip0 - source.width / 2 + 2 * source.stride;
      width := width - 2;
      r := r + 1;
    }
  }

  // The quad at place (p, y) after a quarter turn clockwise.
  ghost function Turned90(s: ImgWin, p: int, y: int): Quad
    requires s.Valid() && s.height % 2 == 0 && 0 <= p < s.height / 2 && 0 <= y < s.width
    reads s.pixels
  {
    Clockwise(s.At(y / 2, s.height - 2 - 2 * p), s.At(y / 2, s.height - 1 - 2 * p), y)
  }

  // The quad at place (p, y) after a quarter turn counter-clockwise.
  ghost function Turned270(s: ImgWin, p: int, y: int): Quad
    requires s.Valid() && s.height % 2 == 0 && 0 <= p < s.height / 2 && 0 <= y < s.width
    reads s.pixels
  {
    CounterClockwise(s.At((s.width - 1 - y) / 2, 2 * p), s.At((s.width - 1 - y) / 2, 2 * p + 1), s.width - 1 - y)
  }

  // The inner loop of Img_Rotate270: the column is filled from its lowest row upwards.
  method TurnRowsUp(target: ImgWin, source: ImgWin, ip: int, outputLineStart: int, ghost r: nat)
    requires FitsTurned(target, source) && 2 * r + 1 < source.height
    requires ip == Rows(2 * r, source.stride)
    requires source.width > 0 ==> outputLineStart == Rows(source.width - 1, target.stride) + r
    modifies target.pixels
    ensures forall p, y {:trigger target.At(p, y)} :: target.In(p, y) ==>
              target.At(p, y) == if p == r && y < source.width then Turned270(source, p, y) else old(target.At(p, y))
  {
    var line := source.width;
    var ip0: int := ip;
    var ip1 := ip0 + source.stride;
    var op := outputLineStart;
    ghost var n := 0;
    while line > 0
      invariant 0 <= line == source.width - 2 * n && 0 <= n
      invariant ip0 == Rows(2 * r, source.stride) + n && ip1 == Rows(2 * r + 1, source.stride) + n
      invariant line > 0 ==> op == Rows(line - 1, target.stride) + r
      invariant forall p, y {:trigger target.At(p, y)} :: target.In(p, y) ==>
                  target.At(p, y) == if p == r && line <= y < source.width then Turned270(source, p, y)
                                     else old(target.At(p, y))
    {
      source.IndexInside(n, 2 * r);
      source.IndexInside(n, 2 * r + 1);
      var q0, q1 := source.pixels[ip0], source.pixels[ip1];
      assert q0 == source.At(n, 2 * r) && q1 == source.At(n, 2 * r + 1);
      var cb, cr := (q0.cb + q1.cb) / 2, (q0.cr + q1.cr) / 2;
      target.Write(op, Quad(q0.y0, q1.y0, cb, cr), r, line - 1);
      op := op - target.stride;
      target.Write(op, Quad(q0.y1, q1.y1, cb, cr), r, line - 2);
      op := op - target.stride;
      ip0, ip1, line := ip0 + 1, ip1 + 1, line - 2;
      n := n + 1;
    }
  }

  /** Img_Rotate270: a quarter turn counter-clockwise into the corner of the target. */
  method Rotate270(target: ImgWin, source: ImgWin)
    requires FitsTurned(target, source)
    modifies target.pixels
    ensures forall p, y {:trigger target.At(p, y)} :: target.In(p, y) ==>
              target.At(p, y) == if p < source.height / 2 && y < source.width then Turned270(source, p, y)
                                 else old(target.At(p, y))
    ensures source.height <= target.width ==> Corner270(target, source)
  {
    var width := source.height;
    if source.width > 0 { RowsIsProduct(source.width - 1, target.stride); }
    var outputLineStart := target.stride * (source.width - 1);
    var ip0 := 0;
    ghost var r := 0;
    while width > 0
      invariant 0 <= width == source.height - 2 * r && 0 <= r
      invariant ip0 == Rows(2 * r, source.stride)
      invariant source.width > 0 ==> outputLineStart == Rows(source.width - 1, target.stride) + r
      invariant forall p, y {:trigger target.At(p, y)} :: target.In(p, y) ==>
                  target.At(p, y) == if p < r && y < source.width then Turned270(source, p, y) else old(target.At(p, y))
    {
      TurnRowsUp(target, source, ip0, outputLineStart, r);
      ip0 := ip0 + source.width / 2;
      ip0 := ip0 - source.width / 2 + 2 * source.stride;
      width := width - 2;
      outputLineStart := outputLineStart + 1;
      r := r + 1;
    }
  }

  // ---- What the rotations do to the pixels ----

  // The target holds the source turned by 180, 90 or 270 degrees, as the methods leave it when
  // the sizes correspond.
  ghost predicate Is180(t: ImgWin, s: ImgWin)
    reads t.pixels, s.pixels
  {
    && t.Valid() && s.Valid() && t.width == s.width && t.height == s.height
    && forall p, y {:trigger t.At(p, y)} :: 0 <= p < t.width / 2 && 0 <= y < t.height ==>
         t.At(p, y) == Mirror(s.At(t.width / 2 - 1 - p, t.height - 1 - y))
  }

  ghost predicate Is90(t: ImgWin, s: ImgWin)
    reads t.pixels, s.pixels
  {
    && t.Valid() && s.Valid() && t.width == s.height && t.height == s.width
    && forall p, y {:trigger t.At(p, y)} :: 0 <= p < t.width / 2 && 0 <= y < t.height ==>
         t.At(p, y) == Turned90(s, p, y)
  }

  // A target with room for more, with the source turned in its corner.
  ghost predicate Corner90(t: ImgWin, s: ImgWin)
    reads t.pixels, s.pixels
  {
    && t.Valid() && s.Valid() && s.height % 2 == 0 && s.height <= t.width && s.width <= t.height
    && forall p, y {:trigger t.At(p, y)} :: 0 <= p < s.height / 2 && 0 <= y < s.width ==> t.At(p, y) == Turned90(s, p, y)
  }

  ghost predicate Corner270(t: ImgWin, s: ImgWin)
    reads t.pixels, s.pixels
  {
    && t.Valid() && s.Valid() && s.height % 2 == 0 && s.height <= t.width && s.width <= t.height
    && forall p, y {:trigger t.At(p, y)} :: 0 <= p < s.height / 2 && 0 <= y < s.width ==> t.At(p, y) == Turned270(s, p, y)
  }

  ghost predicate Corner180(t: ImgWin, s: ImgWin)
    reads t.pixels, s.pixels
  {
    && t.Valid() && s.Valid() && s.width <= t.width && s.height <= t.height
    && forall p, y {:trigger t.At(p, y)} :: t.In(p, y) && Receives(t, s, p, y) ==>
         t.At(p, y) == Mirror(s.At(t.width / 2 - 1 - p, t.height - 1 - y))
  }

  ghost predicate Is270(t: ImgWin, s: ImgWin)
    reads t.pixels, s.pixels
  {
    && t.Valid() && s.Valid() && t.width == s.height && t.height == s.width
    && forall p, y {:trigger t.At(p, y)} :: 0 <= p < t.width / 2 && 0 <= y < t.height ==>
         t.At(p, y) == Turned270(s, p, y)
  }

  /** Half a turn is the point reflection of lumas and chroma. */
  lemma HalfTurnReflects(t: ImgWin, s: ImgWin, x: int, y: int)
    requires Is180(t, s) && 0 <= x < t.width && 0 <= y < t.height
    ensures t.Luma(x, y) == s.Luma(t.width - 1 - x, t.height - 1 - y)
    ensures t.Chroma(x, y) == s.Chroma(t.width - 1 - x, t.height - 1 - y)
  {
    assert t.At(x / 2, y) == Mirror(s.At(t.width / 2 - 1 - x / 2, t.height - 1 - y));
  }

  /** Two half turns give back the image. */
  lemma HalfTurnTwice(a: ImgWin, b: ImgWin, c: ImgWin, p: int, y: int)
    requires Is180(b, a) && Is180(c, b) && 0 <= p < a.width / 2 && 0 <= y < a.height
    ensures c.At(p, y) == a.At(p, y)
  {
    assert c.At(p, y) == Mirror(b.At(a.width / 2 - 1 - p, a.height - 1 - y));
  }

  /** In a larger target the reflected source ends in the last column and the last row. */
  lemma HalfTurnCorner(t: ImgWin, s: ImgWin, x: int, y: int)
    requires Corner180(t, s) && 0 <= x < s.width && 0 <= y < s.height
    ensures t.Luma(t.width - 1 - x, t.height - 1 - y) == s.Luma(x, y)
    ensures t.Chroma(t.width - 1 - x, t.height - 1 - y) == s.Chroma(x, y)
  {
    var p := t.width / 2 - 1 - x / 2;
    assert t.In(p, t.height - 1 - y) && Receives(t, s, p, t.height - 1 - y);
    assert t.At(p, t.height - 1 - y) == Mirror(s.At(x / 2, y));
  }

  /** A quarter turn clockwise takes the luma of column x to row x, from below. */
  lemma QuarterTurnLuma(t: ImgWin, s: ImgWin, x: int, y: int)
    requires Corner90(t, s) && 0 <= x < s.height && 0 <= y < s.width
    ensures t.Luma(x, y) == s.Luma(y, s.height - 1 - x)
  {
    assert t.At(x / 2, y) == Turned90(s, x / 2, y);
  }

  /** The two pixels of a quad come from one column and two rows, and share the mean of their
      chroma, rounded down. */
  lemma QuarterTurnChroma(t: ImgWin, s: ImgWin, x: int, y: int)
    requires Corner90(t, s) && 0 <= x < s.height && 0 <= y < s.width
    ensures var upper, lower := s.Chroma(y, s.height - 2 - x / 2 * 2), s.Chroma(y, s.height - 1 - x / 2 * 2);
            && t.Chroma(x, y).0 as int == (upper.0 as int + lower.0 as int) / 2
            && t.Chroma(x, y).1 as int == (upper.1 as int + lower.1 as int) / 2
  {
    assert t.At(x / 2, y) == Turned90(s, x / 2, y);
  }

  lemma ThreeQuarterTurnLuma(t: ImgWin, s: ImgWin, x: int, y: int)
    requires Corner270(t, s) && 0 <= x < s.height && 0 <= y < s.width
    ensures t.Luma(x, y) == s.Luma(s.width - 1 - y, x)
  {
    assert t.At(x / 2, y) == Turned270(s, x / 2, y);
  }

  lemma ThreeQuarterTurnChroma(t: ImgWin, s: ImgWin, x: int, y: int)
    requires Corner270(t, s) && 0 <= x < s.height && 0 <= y < s.width
    ensures var upper, lower := s.Chroma(s.width - 1 - y, x / 2 * 2), s.Chroma(s.width - 1 - y, x / 2 * 2 + 1);
            && t.Chroma(x, y).0 as int == (upper.0 as int + lower.0 as int) / 2
            && t.Chroma(x, y).1 as int == (upper.1 as int + lower.1 as int) / 2
  {
    assert t.At(x / 2, y) == Turned270(s, x / 2, y);
  }

  // Images of corresponding sizes fill the target.
  lemma Fills(t: ImgWin, s: ImgWin)
    ensures Is90(t, s) ==> Corner90(t, s)
    ensures Is270(t, s) ==> Corner270(t, s)
  {
  }

  /** Two quarter turns are half a turn of the lumas. */
  lemma QuarterTurnTwice(a: ImgWin, b: ImgWin, c: ImgWin, h: ImgWin, x: int, y: int)
    requires Is90(b, a) && Is90(c, b) && Is180(h, a) && 0 <= x < a.width && 0 <= y < a.height
    ensures c.Luma(x, y) == h.Luma(x, y)
  {
    Fills(b, a);
    Fills(c, b);
    hide ImgWin.At, Corner90, Turned90;
    QuarterTurnLuma(c, b, x, y);
    QuarterTurnLuma(b, a, y, a.width - 1 - x);
    HalfTurnReflects(h, a, x, y);
  }

  lemma Shapes(a: ImgWin, b: ImgWin, c: ImgWin)
    requires Is90(b, a) && Is270(c, b)
    ensures a.Valid() && c.Valid() && a.width == c.width && a.height == c.height && a.height % 2 == 0
    ensures b.Valid() && b.width == a.height && b.height == a.width
    ensures b.width / 2 <= b.stride && a.width / 2 <= a.stride && c.width / 2 <= c.stride
  {
  }

  /** A quarter turn and its inverse give back every luma, and the mean chroma of two rows. */
  lemma ThereAndBack(a: ImgWin, b: ImgWin, c: ImgWin, p: int, r: int, side: int)
    requires Is90(b, a) && Is270(c, b)
    requires 0 <= p < a.width / 2 && 0 <= 2 * r && 2 * r + 1 < a.height && 0 <= side <= 1
    ensures var upper, lower := a.At(p, 2 * r), a.At(p, 2 * r + 1);
            c.At(p, 2 * r + side)
            == a.At(p, 2 * r + side).(cb := Mean(upper.cb, lower.cb), cr := Mean(upper.cr, lower.cr))
  {
    Shapes(a, b, c);
    hide ImgWin.Valid, ImgWin.At, Mean;
    var q := b.width / 2 - 1 - r;
    assert (b.width - 1 - (2 * r + side)) / 2 == q;
    assert c.At(p, 2 * r + side) == Turned270(b, p, 2 * r + side);
    assert b.At(q, 2 * p) == Turned90(a, q, 2 * p);
    assert b.At(q, 2 * p + 1) == Turned90(a, q, 2 * p + 1);
  }

  // Rows 2 * r and 2 * r + 1 have the same chroma in column p.
  ghost predicate SameChroma(a: ImgWin, p: int, r: int)
    requires a.Valid() && 0 <= p < a.width / 2 && 0 <= 2 * r && 2 * r + 1 < a.height
    reads a.pixels
  {
    var upper, lower := a.At(p, 2 * r), a.At(p, 2 * r + 1);
    upper.cb == lower.cb && upper.cr == lower.cr
  }

  // When two quads keep their chroma although it is replaced by the mean.
  lemma MeanKeeps(q: Quad, r: Quad)
    ensures q == q.(cb := Mean(q.cb, r.cb), cr := Mean(q.cr, r.cr)) && r == r.(cb := Mean(q.cb, r.cb), cr := Mean(q.cr, r.cr))
            <==> q.cb == r.cb && q.cr == r.cr
  {
  }

  lemma TwoRowsBack(a: ImgWin, b: ImgWin, c: ImgWin, p: int, r: int)
    requires Is90(b, a) && Is270(c, b) && 0 <= p < a.width / 2 && 0 <= 2 * r && 2 * r + 1 < a.height
    ensures c.At(p, 2 * r) == a.At(p, 2 * r) && c.At(p, 2 * r + 1) == a.At(p, 2 * r + 1) <==> SameChroma(a, p, r)
  {
    Shapes(a, b, c);
    hide Is90, Is270, ImgWin.Valid, ImgWin.At, Mean;
    ThereAndBack(a, b, c, p, r, 0);
    ThereAndBack(a, b, c, p, r, 1);
    MeanKeeps(a.At(p, 2 * r), a.At(p, 2 * r + 1));
  }

  ghost predicate SameImage(c: ImgWin, a: ImgWin)
    requires c.Valid() && a.Valid() && c.width == a.width && c.height == a.height
    reads c.pixels, a.pixels
  {
    forall p, y {:trigger c.At(p, y)} :: 0 <= p < a.width / 2 && 0 <= y < a.height ==> c.At(p, y) == a.At(p, y)
  }

  ghost predicate AllSameChroma(a: ImgWin)
    requires a.Valid()
    reads a.pixels
  {
    forall p, r {:trigger SameChroma(a, p, r)} :: 0 <= p < a.width / 2 && 0 <= 2 * r && 2 * r + 1 < a.height ==>
      SameChroma(a, p, r)
  }

  lemma ImageBackSameChroma(a: ImgWin, b: ImgWin, c: ImgWin)
    requires Is90(b, a) && Is270(c, b) && SameImage(c, a)
    ensures AllSameChroma(a)
  {
    Shapes(a, b, c);
    hide Is90, Is270, ImgWin.Valid, ImgWin.At, SameChroma;
    forall p, r | 0 <= p < a.width / 2 && 0 <= 2 * r && 2 * r + 1 < a.height
      ensures SameChroma(a, p, r)
    {
      TwoRowsBack(a, b, c, p, r);
    }
  }

  lemma SameChromaImageBack(a: ImgWin, b: ImgWin, c: ImgWin)
    requires Is90(b, a) && Is270(c, b) && AllSameChroma(a)
    ensures SameImage(c, a)
  {
    Shapes(a, b, c);
    hide Is90, Is270, ImgWin.Valid, ImgWin.At, SameChroma;
    forall p, y | 0 <= p < a.width / 2 && 0 <= y < a.height
      ensures c.At(p, y) == a.At(p, y)
    {
      var r := y / 2;
      assert SameChroma(a, p, r);
      TwoRowsBack(a, b, c, p, r);
      assert y == 2 * r || y == 2 * r + 1;
    }
  }

  /** They give back the whole image exactly when every two rows that share quads after the
      turn have the same chroma. */
  lemma ThereAndBackExact(a: ImgWin, b: ImgWin, c: ImgWin)
    requires Is90(b, a) && Is270(c, b)
    ensures SameImage(c, a) <==> AllSameChroma(a)
  {
    Shapes(a, b, c);
    hide Is90, Is270, ImgWin.Valid, SameImage, AllSameChroma;
    if SameImage(c, a) {
      ImageBackSameChroma(a, b, c);
    } else if AllSameChroma(a) {
      SameChromaImageBack(a, b, c);
    }
  }

  // ---- The rotated copy of a role ----

  // STXPGROLE: the image of a sprite, with rawWidth pixels to a row of the buffer.
  class Role {
    var width: nat
    var height: nat
    var rawWidth: nat
    var rawImage: array<Quad>

    constructor (width: nat, height: nat, rawWidth: nat, rawImage: array<Quad>)
      ensures this.width == width && this.height == height
      ensures this.rawWidth == rawWidth && this.rawImage == rawImage
    {
      this.width, this.height, this.rawWidth, this.rawImage := width, height, rawWidth, rawImage;
    }

    predicate Valid()
      reads this
    {
      rawWidth % 2 == 0 && AlignCut2(width) <= rawWidth && Rows(AlignCut2(height), rawWidth / 2) <= rawImage.Length
    }
  }

  // ALIGN_CUT_2: the even number at or below.
  function AlignCut2(n: nat): (even: nat)
    ensures even % 2 == 0 && even <= n <= even + 1
  {
    n - n % 2
  }

  // ext_mem_malloc of a window: its size in bytes is width * height * 2.
  method NewWindow(width: nat, height: nat) returns (win: ImgWin)
    requires width % 2 == 0
    ensures win.Valid() && fresh(win) && fresh(win.pixels)
    ensures win.width == width && win.height == height && win.stride == width / 2
  {
    RowsIsProduct(height, width / 2);
    RowsNonNegative(height, width / 2);
    var pixels := new Quad[width / 2 * height](_ => Quad(0, 0, 0, 0));
    win := new ImgWin(pixels, width, height, width / 2);
  }

  // The turn of the angle, into a new window.
  method Turned(srcWin: ImgWin, angle: int) returns (rotateWin: ImgWin)
    requires srcWin.Valid() && srcWin.height % 2 == 0
    ensures rotateWin.Valid() && fresh(rotateWin) && fresh(rotateWin.pixels) && rotateWin.stride == rotateWin.width / 2
    ensures angle == 90 ==> Is90(rotateWin, srcWin)
    ensures angle == 180 ==> Is180(rotateWin, srcWin)
    ensures angle != 90 && angle != 180 ==> Is270(rotateWin, srcWin)
  {
    hide ImgWin.At, Turned90, Turned270, Mirror;
    if angle == 90 {
      rotateWin := NewWindow(srcWin.height, srcWin.width);
      Rotate90(rotateWin, srcWin);
    } else if angle == 180 {
      rotateWin := NewWindow(srcWin.width, srcWin.height);
      Rotate180(rotateWin, srcWin);
    } else {
      rotateWin := NewWindow(srcWin.height, srcWin.width);
      Rotate270(rotateWin, srcWin);
    }
  }

  /** MakeRotateRole: the target role becomes the turned image of the source role, cut to even
      sizes, in a buffer of its own without padding. */
  method MakeRotateRole(src: Role, dst: Role, angle: int) returns (rotateWin: ImgWin, srcWin: ImgWin)
    requires src.Valid()
    modifies dst
    ensures srcWin.pixels == old(src.rawImage) && srcWin.stride == old(src.rawWidth) / 2
    ensures srcWin.width == AlignCut2(old(src.width)) && srcWin.height == AlignCut2(old(src.height))
    ensures angle == 90 ==> Is90(rotateWin, srcWin)
    ensures angle == 180 ==> Is180(rotateWin, srcWin)
    ensures angle != 90 && angle != 180 ==> Is270(rotateWin, srcWin)
    ensures fresh(rotateWin.pixels) && rotateWin.stride == rotateWin.width / 2
    ensures dst.rawImage == rotateWin.pixels && dst.rawWidth == rotateWin.width
    ensures dst.width == rotateWin.width && dst.height == rotateWin.height && dst.Valid()
  {
    srcWin := new ImgWin(src.rawImage, AlignCut2(src.width), AlignCut2(src.height), src.rawWidth / 2);
    hide Is90, Is180, Is270;
    rotateWin := Turned(srcWin, angle);
    dst.width, dst.height := rotateWin.width, rotateWin.height;
    dst.rawWidth, dst.rawImage := rotateWin.width, rotateWin.pixels;
  }
}
