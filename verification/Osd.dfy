/** The 4-bit on-screen display: two pixels to a byte, the left one in the high half. */
module Osd {
  import opened Basics

  // The colour of the left (0) or right (1) pixel in a byte.
  function Nibble(b: byte, side: int): int {
    if side == 0 then b / 16 else b % 16
  }

  // The same byte with the colour of one pixel replaced.
  function WithNibble(b: byte, side: int, color: int): (r: byte)
    requires 0 <= color < 16
    ensures side == 0 ==> Nibble(r, 0) == color && Nibble(r, 1) == Nibble(b, 1)
    ensures side != 0 ==> Nibble(r, 1) == color && Nibble(r, 0) == Nibble(b, 0)
  {
    if side == 0 then b % 16 + color * 16 else b / 16 * 16 + color
  }

  class OsdWin {
    const data: array<byte>
    const width: nat
    const height: nat

    constructor (data: array<byte>, width: nat, height: nat)
      ensures this.data == data && this.width == width && this.height == height
    {
      this.data, this.width, this.height := data, width, height;
    }

    // The width is even (the screen is set up with multiples of 16).
    ghost predicate Valid() {
      width % 2 == 0 && data.Length == Rows(height, width / 2)
    }

    predicate In(x: int, y: int) {
      0 <= x < width && 0 <= y < height
    }

    function Index(x: int, y: int): int {
      Rows(y, width / 2) + x / 2
    }

    lemma IndexInside(x: int, y: int)
      requires Valid() && In(x, y)
      ensures 0 <= Rows(y, width / 2) && Rows(y, width / 2) + width / 2 <= data.Length
      ensures 0 <= Index(x, y) < data.Length
    {
      RowsApart(y, height, width / 2);
    }

    // The colour of pixel (x, y).
    ghost function Px(x: int, y: int): int
      requires Valid() && In(x, y)
      reads data
    {
      IndexInside(x, y);
      Nibble(data[Index(x, y)], x % 2)
    }

    /** The byte of a pixel: rows follow each other without a gap, two pixels to a byte, and the left
        one is the high half. */
    lemma PixelByte(x: int, y: int)
      requires Valid() && In(x, y)
      ensures 0 <= (y * width + x) / 2 < data.Length
      ensures Px(x, y) == if x % 2 == 0 then data[(y * width + x) / 2] / 16 else data[(y * width + x) / 2] % 16
    {
      IndexInside(x, y);
      RowProduct(y, width / 2);
    }

    // The loop over one row of the area, from the byte of its first pixel on.
    method PaintBytes(start: nat, startX: nat, sizeX: nat, color: int, ghost rowBase: nat)
      requires 0 <= color < 16 && start == rowBase + startX / 2
      requires rowBase + width / 2 <= data.Length && startX + sizeX <= width && width % 2 == 0
      modifies data
      ensures forall k, side {:trigger Nibble(data[k], side)} :: 0 <= k < data.Length && 0 <= side <= 1 ==>
                Nibble(data[k], side)
                == if startX <= 2 * (k - rowBase) + side < startX + sizeX then color else Nibble(old(data[k]), side)
    {
      var wWidth := 0;
      var pixel := start;
      while wWidth < sizeX
        invariant 0 <= wWidth <= sizeX
        invariant wWidth < sizeX ==> pixel == rowBase + (startX + wWidth) / 2
        invariant forall k, side {:trigger Nibble(data[k], side)} :: 0 <= k < data.Length && 0 <= side <= 1 ==>
                    Nibble(data[k], side)
                    == if startX <= 2 * (k - rowBase) + side < startX + wWidth then color else Nibble(old(data[k]), side)
      {
        data[pixel] := WithNibble(data[pixel], (startX + wWidth) % 2, color);
        wWidth := wWidth + 1;
        if (startX + wWidth) % 2 == 0 && wWidth < sizeX {
          pixel := pixel + 1;
        }
      }
    }

    // The same in terms of pixels: row y, columns startX up to startX + sizeX.
    method PaintRow(start: nat, startX: nat, sizeX: nat, y: int, color: int)
      requires Valid() && 0 <= y < height && 0 <= color < 16 && startX + sizeX <= width
      requires start == Rows(y, width / 2) + startX / 2
      modifies data
      ensures forall px, py {:trigger Px(px, py)} :: In(px, py) ==>
                Px(px, py) == if py == y && startX <= px < startX + sizeX then color else old(Px(px, py))
    {
      RowsApart(y, height, width / 2);
      PaintBytes(start, startX, sizeX, color, Rows(y, width / 2));
      forall px, py | In(px, py)
        ensures Px(px, py) == if py == y && startX <= px < startX + sizeX then color else old(Px(px, py))
      {
        IndexInside(px, py);
        OtherRow(px, py, y);
        assert Nibble(data[Index(px, py)], px % 2) == Px(px, py);
      }
    }

    lemma OtherRow(px: int, py: int, y: int)
      requires Valid() && In(px, py) && 0 <= y < height
      ensures py == y || Index(px, py) < Rows(y, width / 2) || Rows(y, width / 2) + width / 2 <= Index(px, py)
    {
      if py < y {
        RowsApart(py, y, width / 2);
      } else if y < py {
        RowsApart(y, py, width / 2);
      }
    }

    /** Idu_OsdPaintArea: paints the part of the area that lies on the screen. */
    method PaintArea(startX: word, startY: word, sizeX: word, sizeY: word, index: byte)
      requires Valid()
      modifies data
      ensures forall px, py {:trigger Px(px, py)} :: In(px, py) ==>
                Px(px, py) == if startX <= px < startX + sizeX && startY <= py < startY + sizeY then index % 16
                              else old(Px(px, py))
    {
      if startX >= width || startY >= height {
        return;
      }
      var w, h: int := sizeX, sizeY;
      if startX + w > width {
        w := width - startX;
      }
      if startY + h > height {
        h := height - startY;
      }
      var color := index % 16;
      RowProduct(startY, width / 2);
      var start := (startY * width + startX) / 2;
      var y: int := startY;
      while h > 0
        invariant 0 <= h && startY <= y && y + h == Min(startY + sizeY, height)
        invariant h > 0 ==> start == Rows(y, width / 2) + startX / 2
        invariant forall px, py {:trigger Px(px, py)} :: In(px, py) ==>
                    Px(px, py) == if startX <= px < startX + w && startY <= py < y then color else old(Px(px, py))
      {
        RowsApart(y, height, width / 2);
        PaintRow(start, startX, w, y, color);
        start := start + width / 2;
        h, y := h - 1, y + 1;
      }
    }
  }

  lemma {:induction false} RowProduct(y: nat, s: nat)
    ensures y * (2 * s) == 2 * Rows(y, s)
  {
    if y > 0 {
      RowProduct(y - 1, s);
      assert y * (2 * s) == (y - 1) * (2 * s) + 2 * s;
    }
  }
}
