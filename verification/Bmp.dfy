/** The byte scanner of BMPtoYUV: picks the pixels of a bottom-up 24-bit bitmap out of a file. */
module BmpScan {
  import opened Basics

  datatype Rgb = Rgb(R: byte, G: byte, B: byte)

  const BMP_OFFSET_BYTE := 10
  const BMP_WIDTH_BYTE := 18
  const BMP_HEIGHT_BYTE := 22

  // A byte of the file read into a (signed) char.
  function Signed(b: byte): int {
    if b < 128 then b else b - 256
  }

  // ---- The header fields, as the program takes them ----

  function DataOffset(f: seq<byte>): int
    requires |f| > BMP_HEIGHT_BYTE
  {
    Signed(f[BMP_OFFSET_BYTE])
  }

  function Width(f: seq<byte>): int
    requires |f| > BMP_HEIGHT_BYTE
  {
    f[BMP_WIDTH_BYTE] + 256 * Signed(f[BMP_WIDTH_BYTE + 1])
  }

  function Height(f: seq<byte>): int
    requires |f| > BMP_HEIGHT_BYTE
  {
    f[BMP_HEIGHT_BYTE]
  }

  // A number of the format, four bytes.
  function Field(f: seq<byte>, at: nat): int
    requires at + 3 < |f|
  {
    var k, l, m, n: int := f[at], f[at + 1], f[at + 2], f[at + 3];
    k + 256 * l + 0x1_0000 * m + 0x100_0000 * n
  }

  /** Of a file whose pixels lie behind its header, the program takes the right offset if and
      only if that is below 128. From a low byte of 128 on it takes a negative one, so that
      every later byte before the width counts as image data. */
  lemma WhenOffsetTaken(f: seq<byte>, i: int)
    requires |f| > BMP_HEIGHT_BYTE
    ensures DataOffset(f) == Field(f, BMP_OFFSET_BYTE) <==> Field(f, BMP_OFFSET_BYTE) < 128
    ensures DataOffset(f) - 1 > BMP_HEIGHT_BYTE <==> BMP_HEIGHT_BYTE + 2 <= f[BMP_OFFSET_BYTE] < 128
    ensures f[BMP_OFFSET_BYTE] >= 128 && BMP_OFFSET_BYTE < i ==> i >= DataOffset(f) - 1
  {
  }

  /** Width and height taken are those of the format if and only if they are below 32768 and 256. */
  lemma WhenSizeTaken(f: seq<byte>)
    requires |f| > BMP_HEIGHT_BYTE + 3
    ensures Width(f) == Field(f, BMP_WIDTH_BYTE) <==> Field(f, BMP_WIDTH_BYTE) < 32768
    ensures Height(f) == Field(f, BMP_HEIGHT_BYTE) <==> Field(f, BMP_HEIGHT_BYTE) < 256
  {
  }

  /** Which bytes of the file the offset and the size are taken from. */
  lemma HeaderBytes(f: seq<byte>)
    requires |f| > 22
    ensures f[10] < 128 ==> DataOffset(f) == f[10]
    ensures f[19] < 128 ==> Width(f) == f[18] + 256 * f[19] as int
    ensures Height(f) == f[22]
  {
  }

  // A header whose pixel data begins behind it, and an image that is not empty.
  ghost predicate HeaderOk(f: seq<byte>) {
    |f| > BMP_HEIGHT_BYTE && DataOffset(f) - 1 > BMP_HEIGHT_BYTE && Width(f) > 0 && Height(f) > 0
  }

  // The bytes that the scanner consumes for one row of the image.
  function Stride(w: int): int {
    if w % 4 == 0 then 3 * w else 3 * w + 2
  }

  // The row length of the file format: three bytes a pixel, padded to a multiple of four.
  function BmpStride(w: int): int {
    (3 * w + 3) / 4 * 4
  }

  /** The scanner's rows are the rows of the format exactly for the widths that the
      program's comment admits, those with width mod 4 equal to 0 or 2. */
  lemma StrideIsBmpStride(w: int)
    requires w > 0
    ensures Stride(w) == BmpStride(w) <==> w % 4 == 0 || w % 4 == 2
  {
  }

  /** A row of the format is padded to whole quadruples of bytes. */
  lemma BmpStrideIs(w: int)
    requires w > 0
    ensures BmpStride(w) % 4 == 0 && 3 * w <= BmpStride(w) < 3 * w + 4
  {
  }

  // Where the bytes of pixel c of image row r begin: rows are stored from the last to the
  // first, and the scan begins one byte before the data offset.
  function Source(base: int, w: int, h: int, c: int, r: int): int {
    base + Rows(h - 1 - r, Stride(w)) + 3 * c
  }

  /** The image data part of the scan, set up when the height has been read: its fields are
      the local variables of main that the loop over the image bytes updates. */
  class PixelScan {
    const f: seq<byte>
    const base: int            // Offset1 - 1
    const tempW: int
    const height: int
    const buffer: array2<Rgb>  // BUFFER[column][row]
    var widthI: int
    var heightI: int
    var rgbCul: int
    var rgbI: int
    var r: byte
    var g: byte
    var b: byte
    ghost var written: multiset<(int, int)>   // the cells, as often as they have been written

    constructor (file: seq<byte>, offset1: int, w: int, h: int)
      requires offset1 > BMP_HEIGHT_BYTE && w > 0 && h > 0
      ensures f == file && base == offset1 - 1 && tempW == w && height == h && fresh(buffer)
      ensures Valid(base) && heightI == h - 1 && rgbI == 0
    {
      f, base, tempW, height := file, offset1 - 1, w, h;
      buffer := new Rgb[if w % 4 != 0 then w + 2 else w, h];
      widthI, heightI, rgbCul, rgbI := 0, h - 1, 0, 0;
      r, g, b := 0, 0, 0;
      written := multiset{};
    }

    function Align(): int {
      tempW % 4
    }

    ghost predicate Shape() {
      && base >= BMP_HEIGHT_BYTE && tempW > 0 && height > 0
      && buffer.Length0 == (if Align() == 0 then tempW else tempW + 2)
      && buffer.Length1 == height
    }

    // The number of rows finished.
    function RowsDone(): int
      reads `heightI
    {
      height - 1 - heightI
    }

    // The bytes of a row that the scanner counts before it starts the next one.
    function RowEnd(): int {
      if Align() == 0 then 3 * tempW else 3 * tempW + 3
    }

    // The scanner is about to look at byte i: inside row heightI, or behind the whole image.
    ghost predicate Position(i: int)
      reads `widthI, `heightI, `rgbCul, `rgbI
    {
      && -1 <= heightI < height
      && 0 <= rgbI < RowEnd()
      && rgbCul == rgbI % 3
      && widthI == (if rgbI < 3 * tempW then rgbI / 3 else 0)
      && (heightI < 0 ==> rgbI == 0)
      && (heightI >= 0 ==> i == base + Rows(RowsDone(), Stride(tempW)) + rgbI)
    }

    // The bytes of the pixel begun are held in r and g.
    ghost predicate Holds(i: int)
      reads `rgbCul, `r, `g
    {
      && (rgbCul >= 1 ==> 0 <= i - rgbCul < |f| && r == f[i - rgbCul])
      && (rgbCul == 2 ==> 0 <= i - 1 < |f| && g == f[i - 1])
    }

    // Cell (c, row) of the image, or of the padding of a finished row, has been written.
    ghost predicate Scanned(c: int, row: int)
      reads `heightI, `rgbI
    {
      && 0 <= c < buffer.Length0 && 0 <= row < height
      && (heightI < row || (heightI == row && c < tempW && 3 * c + 2 < rgbI))
    }

    // An image cell holds the three bytes of the file that begin at its source, a cell of
    // the padding is zero.
    ghost predicate CellOk(c: int, row: int)
      requires Shape()
      reads buffer
    {
      && 0 <= c < buffer.Length0 && 0 <= row < height
      && var o := Source(base, tempW, height, c, row);
      && (c < tempW ==> 0 <= o && o + 2 < |f| && buffer[c, row] == Rgb(f[o], f[o + 1], f[o + 2]))
      && (c >= tempW ==> buffer[c, row] == Rgb(0, 0, 0))
    }

    ghost predicate Filled()
      requires Shape()
      reads `heightI, `rgbI, buffer
    {
      forall c, row {:trigger Scanned(c, row)} {:trigger Source(base, tempW, height, c, row)} ::
        Scanned(c, row) ==> CellOk(c, row)
    }

    // Each scanned cell has been written once, and no other cell.
    ghost predicate Once()
      reads `heightI, `rgbI, `written
    {
      forall c, row {:trigger Scanned(c, row)} {:trigger written[(c, row)]} ::
        written[(c, row)] == if Scanned(c, row) then 1 else 0
    }

    ghost predicate Valid(i: int)
      reads this, buffer
    {
      Shape() && Position(i) && Holds(i) && Filled() && Once()
    }

    // Every scanned cell but the one at the cursor is filled.
    ghost predicate FilledBut()
      requires Shape()
      reads `widthI, `heightI, `rgbI, buffer
    {
      forall c, row {:trigger Scanned(c, row)} {:trigger Source(base, tempW, height, c, row)} ::
        Scanned(c, row) && !(row == heightI && c == widthI) ==> CellOk(c, row)
    }

    // The same but for the cell at the cursor, which has not been written.
    ghost predicate OnceBut()
      reads `widthI, `heightI, `rgbI, `written
    {
      && written[(widthI, heightI)] == 0
      && forall c, row {:trigger Scanned(c, row)} {:trigger written[(c, row)]} ::
        !(row == heightI && c == widthI) ==> written[(c, row)] == if Scanned(c, row) then 1 else 0
    }

    method Count()
      requires Shape() && Filled() && Once() && 0 <= heightI < height
      requires 0 <= rgbI && widthI == if rgbI < 3 * tempW then rgbI / 3 else 0
      modifies `rgbCul, `rgbI
      ensures rgbCul == old(rgbCul) + 1 && rgbI == old(rgbI) + 1
      ensures FilledBut()
      ensures rgbI % 3 != 0 || rgbI > 3 * tempW ==> Filled() && Once()
      ensures rgbI % 3 == 0 && rgbI <= 3 * tempW ==> OnceBut()
    {
      rgbCul := rgbCul + 1;
      rgbI := rgbI + 1;
    }

    // Counts the byte at i and keeps its value.
    method Take(i: int)
      requires Valid(i) && base <= i < |f| && heightI >= 0
      modifies `rgbCul, `rgbI, `r, `g, `b
      ensures rgbCul != 0 ==> Valid(i + 1)
      ensures rgbCul == 0 ==> Third(i)
    {
      hide Filled, FilledBut, Once, OnceBut;
      Count();
      if rgbCul == 1 {
        r := f[i];
      } else if rgbCul == 2 {
        g := f[i];
      } else {
        b := f[i];
        rgbCul := 0;
      }
    }

    // Stores a pixel that ends with byte i and moves on in the row.
    method StorePixel(i: int)
      requires Third(i) && rgbI <= 3 * tempW
      modifies `widthI, `written, buffer
      ensures Filled() && Once()
      ensures widthI == if rgbI < 3 * tempW then rgbI / 3 else 0
    {
      hide Filled, FilledBut, Once, OnceBut;
      StoreCell(i);
      widthI := widthI + 1;
      if widthI >= tempW {
        widthI := 0;
      }
    }

    method StoreCell(i: int)
      requires Third(i) && rgbI <= 3 * tempW
      modifies `written, buffer
      ensures Filled() && Once()
    {
      hide Once, OnceBut;
      assert Source(base, tempW, height, widthI, heightI) == i - 2;
      ghost var before := written;
      OnceButMeans();
      buffer[widthI, heightI] := Rgb(r, g, b);
      written := written + multiset{(widthI, heightI)};
      assert Scanned(widthI, heightI);
      CellOnce(before);
    }

    lemma OnceButMeans()
      requires OnceBut()
      ensures written[(widthI, heightI)] == 0
      ensures forall c, row :: !(row == heightI && c == widthI) ==> written[(c, row)] == if Scanned(c, row) then 1 else 0
    {
    }

    lemma CellOnce(before: multiset<(int, int)>)
      requires before[(widthI, heightI)] == 0 && Scanned(widthI, heightI)
      requires forall c, row :: !(row == heightI && c == widthI) ==> before[(c, row)] == if Scanned(c, row) then 1 else 0
      requires written == before + multiset{(widthI, heightI)}
      ensures Once()
    {
    }

    // The two columns of padding of a row.
    method PadRow()
      requires Shape() && 0 <= heightI < height && Align() != 0 && Filled()
      modifies buffer, `written
      ensures Filled() && written == old(written) + multiset{(tempW, heightI), (tempW + 1, heightI)}
      ensures buffer[tempW, heightI] == buffer[tempW + 1, heightI] == Rgb(0, 0, 0)
    {
      buffer[tempW, heightI] := Rgb(0, 0, 0);
      buffer[tempW + 1, heightI] := Rgb(0, 0, 0);
      written := written + multiset{(tempW, heightI), (tempW + 1, heightI)};
    }

    // The whole row has been written, the padding too.
    ghost predicate RowOnce()
      reads `heightI, `rgbI, `written
    {
      forall c, row {:trigger written[(c, row)]} ::
        written[(c, row)] == if Scanned(c, row) || (row == heightI && tempW <= c < buffer.Length0) then 1 else 0
    }

    lemma PaddedOnce(before: multiset<(int, int)>)
      requires Shape() && 0 <= heightI < height
      requires forall c, row :: before[(c, row)] == if Scanned(c, row) then 1 else 0
      requires Align() != 0 && written == before + multiset{(tempW, heightI), (tempW + 1, heightI)}
      ensures RowOnce()
    {
    }

    lemma NothingToPad()
      requires Shape() && Align() == 0 && Once()
      ensures RowOnce()
    {
    }

    lemma OnceMeans()
      requires Once()
      ensures forall c, row :: written[(c, row)] == if Scanned(c, row) then 1 else 0
    {
    }

    // The row is complete: the next one begins at byte i.
    method NextRow(i: int)
      requires Shape() && 0 <= heightI < height && Filled() && RowOnce()
      requires rgbI == RowEnd() && rgbCul == 0 && widthI == 0
      requires i == base + Rows(RowsDone(), Stride(tempW)) + Stride(tempW)
      requires Align() != 0 ==> buffer[tempW, heightI] == buffer[tempW + 1, heightI] == Rgb(0, 0, 0)
      modifies `heightI, `rgbI
      ensures heightI == old(heightI) - 1
      ensures Position(i) && Filled() && Once()
    {
      heightI := heightI - 1;
      rgbI := 0;
      forall c, row ensures Scanned(c, row) <==> old(Scanned(c, row)) || (row == heightI + 1 && tempW <= c < buffer.Length0) {
        if 0 <= c < tempW && row == heightI + 1 {
          assert old(Scanned(c, row));
        }
      }
      forall c, row | Scanned(c, row)
        ensures CellOk(c, row)
      {
        if c < tempW || row > heightI + 1 {
          assert old(Scanned(c, row));
        }
      }
      assert Rows(RowsDone(), Stride(tempW)) == Rows(RowsDone() - 1, Stride(tempW)) + Stride(tempW);
    }

    /** The branch of the loop for the bytes of the image: one byte at i. The index comes back
        as the branch leaves it, before the loop adds one. */
    method Data(i: int) returns (i': int)
      requires Valid(i) && base <= i < |f| && heightI >= 0
      modifies this, buffer
      ensures Valid(i' + 1)
      ensures i - 1 <= i' && (heightI < 0 ==> |f| <= i' + 1) && (heightI >= 0 ==> i' <= i)
      ensures heightI < old(heightI) || (heightI == old(heightI) && i' == i)
    {
      hide Filled, FilledBut, Once, OnceBut;
      i' := i;
      Take(i);
      if rgbCul == 0 {
        if Align() == 0 {
          i' := PixelPlain(i);
        } else {
          i' := PixelPadded(i);
        }
      }
    }

    // A whole pixel has been taken, ending with byte i.
    ghost predicate Third(i: int)
      reads this, buffer
    {
      && Shape() && 0 <= heightI < height && base <= i && 2 <= i < |f|
      && 3 <= rgbI <= RowEnd() && rgbCul == 0 && rgbI % 3 == 0
      && widthI == (if rgbI <= 3 * tempW then rgbI / 3 - 1 else 0)
      && i + 1 == base + Rows(RowsDone(), Stride(tempW)) + rgbI
      && r == f[i - 2] && g == f[i - 1] && b == f[i]
      && FilledBut() && (rgbI > 3 * tempW ==> Filled() && Once()) && (rgbI <= 3 * tempW ==> OnceBut())
    }

    // The rest of the branch in an image without padding.
    method PixelPlain(i: int) returns (i': int)
      requires Third(i) && Align() == 0
      modifies `widthI, `heightI, `rgbI, `written, buffer
      ensures Valid(i' + 1)
      ensures i <= i' && (heightI < 0 ==> |f| <= i') && (heightI >= 0 ==> i' == i)
      ensures heightI < old(heightI) || (heightI == old(heightI) && i' == i)
    {
      i' := i;
      hide Filled, FilledBut, Once, OnceBut;
      StorePixel(i);
      if rgbI == tempW * 3 {
        NothingToPad();
        NextRow(i + 1);
      }
      if heightI < 0 {
        i' := |f|;
      }
    }

    // The rest of the branch in an image with padded rows.
    method PixelPadded(i: int) returns (i': int)
      requires Third(i) && Align() != 0
      modifies `widthI, `heightI, `rgbI, `written, buffer
      ensures Valid(i' + 1)
      ensures i - 1 <= i' && (heightI < 0 ==> i' == |f| - 1) && (heightI >= 0 ==> i' <= i)
      ensures heightI < old(heightI) || (heightI == old(heightI) && i' == i)
    {
      i' := i;
      hide Filled, FilledBut, Once, OnceBut;
      if rgbI <= tempW * 3 {
        StorePixel(i);
      }
      if rgbI == tempW * 3 + 3 {
        ghost var before := written;
        OnceMeans();
        PadRow();
        PaddedOnce(before);
        NextRow(i);
        if heightI < 0 {
          i' := |f|;
        }
        i' := i' - 1;
      }
    }
  }

  // Where pixel (c, r) of the file is taken from.
  function SourceIn(f: seq<byte>, c: int, r: int): int
    requires |f| > BMP_HEIGHT_BYTE
  {
    Source(DataOffset(f) - 1, Width(f), Height(f), c, r)
  }

  /** The pixel of a cell after the scan: three bytes of the file, except that column 0 has
      its first component cleared. */
  function Pixel(f: seq<byte>, c: int, r: int): Rgb
    requires |f| > BMP_HEIGHT_BYTE && 0 <= SourceIn(f, c, r) && SourceIn(f, c, r) + 2 < |f|
  {
    var o := SourceIn(f, c, r);
    Rgb(if c == 0 then 0 else f[o], f[o + 1], f[o + 2])
  }

  // The blue byte of pixel c of image row r, by the file format; green and red follow it.
  function BlueAt(f: seq<byte>, c: int, r: int): int
    requires |f| > BMP_HEIGHT_BYTE
  {
    DataOffset(f) + Rows(Height(f) - 1 - r, BmpStride(Width(f))) + 3 * c
  }

  /** What the scan stores, in terms of the format: blue in G, green in B, and in R the red of
      the pixel to the left. */
  lemma StoredChannels(f: seq<byte>, c: int, r: int)
    requires HeaderOk(f) && 0 <= c < Width(f) && 0 <= r < Height(f)
    requires Width(f) % 4 == 0 || Width(f) % 4 == 2
    requires SourceIn(f, c, r) + 2 < |f|
    ensures 0 <= SourceIn(f, c, r)
    ensures 0 <= BlueAt(f, c, r) && BlueAt(f, c, r) + 1 < |f|
    ensures Pixel(f, c, r).G == f[BlueAt(f, c, r)]
    ensures Pixel(f, c, r).B == f[BlueAt(f, c, r) + 1]
    ensures c > 0 ==> 0 <= BlueAt(f, c - 1, r) && Pixel(f, c, r).R == f[BlueAt(f, c - 1, r) + 2]
    ensures c == 0 ==> Pixel(f, c, r).R == 0
  {
    StrideIsBmpStride(Width(f));
    RowsNonNegative(Height(f) - 1 - r, Stride(Width(f)));
  }

  /** The rows of the format lie from the last to the first, each padded to whole quadruples of
      bytes. */
  lemma BlueIs(f: seq<byte>, c: int, r: int)
    requires HeaderOk(f) && 0 <= r < Height(f)
    ensures BlueAt(f, c, r) == f[10] as int + (f[22] as int - 1 - r) * ((3 * Width(f) + 3) / 4 * 4) + 3 * c
  {
    RowsIsProduct(Height(f) - 1 - r, BmpStride(Width(f)));
  }

  /** A file with all its rows holds the source of every pixel. */
  lemma SourceInside(f: seq<byte>, c: int, r: int)
    requires Complete(f) && 0 <= c < Width(f) && 0 <= r < Height(f)
    ensures 0 <= SourceIn(f, c, r) && SourceIn(f, c, r) + 2 < |f|
  {
    var s := Stride(Width(f));
    RowsNonNegative(Height(f) - 1 - r, s);
    RowsApart(Height(f) - 1 - r, Height(f), s);
  }

  // All rows of the image are in the file.
  ghost predicate Complete(f: seq<byte>) {
    HeaderOk(f) && DataOffset(f) + Rows(Height(f), Stride(Width(f))) <= |f|
  }

  // The image scanned, apart from what a truncated file does not hold.
  ghost predicate Shows(buffer: array2<Rgb>, f: seq<byte>)
    requires HeaderOk(f)
    requires buffer.Length0 >= Width(f) && buffer.Length1 == Height(f)
    reads buffer
  {
    forall c, r {:trigger SourceIn(f, c, r)} {:trigger buffer[c, r]} ::
      0 <= c < Width(f) && 0 <= r < Height(f) && SourceIn(f, c, r) + 2 < |f|
      ==> 0 <= SourceIn(f, c, r) && buffer[c, r] == Pixel(f, c, r)
  }

  /** When the loop is over, every cell whose bytes the file holds has been written. */
  lemma AllScanned(s: PixelScan, i: int, c: int, row: int)
    requires s.Shape() && 0 <= c < s.tempW && 0 <= row < s.height
    requires s.heightI >= 0 ==> (if i < s.base then s.Position(s.base) && s.rgbI == 0 && s.RowsDone() == 0 else s.Position(i))
    requires s.heightI >= 0 ==> i == |s.f|
    requires s.heightI >= -1
    requires Source(s.base, s.tempW, s.height, c, row) + 2 < |s.f|
    ensures s.Scanned(c, row)
  {
    RowsNonNegative(s.height - 1 - row, Stride(s.tempW));
    if row < s.heightI {
      RowsApart(s.RowsDone(), s.height - 1 - row, Stride(s.tempW));
    }
  }

  /** The loop of main over all bytes of one file, then the pass that clears column 0. */
  method Scan(f: seq<byte>, oldOffset1: int)
    returns (offset1: int, tempW: int, height: int, buffer: array2<Rgb>, ghost written: multiset<(int, int)>)
    requires HeaderOk(f) && oldOffset1 > BMP_OFFSET_BYTE
    ensures offset1 == DataOffset(f) && tempW == Width(f) && height == Height(f)
    ensures fresh(buffer) && buffer.Length1 == height
    ensures buffer.Length0 == (if tempW % 4 == 0 then tempW else tempW + 2)
    ensures Shows(buffer, f)
    ensures Complete(f) && tempW % 4 != 0 ==> Padded(buffer, tempW)
    ensures WrittenOnce(f, buffer.Length0, written)
  {
    offset1 := oldOffset1;
    tempW, height := 0, 0;
    buffer := new Rgb[0, 0];
    var img: PixelScan? := null;
    var i := 0;
    while i < |f|
      invariant 0 <= i && (i <= BMP_HEIGHT_BYTE <==> img == null)
      invariant offset1 == if i <= BMP_OFFSET_BYTE then oldOffset1 else DataOffset(f)
      invariant i == BMP_WIDTH_BYTE + 1 ==> tempW == f[BMP_WIDTH_BYTE]
      invariant i > BMP_WIDTH_BYTE + 1 ==> tempW == Width(f)
      invariant i > BMP_HEIGHT_BYTE ==> Underway(img, f, i) && fresh(img) && fresh(img.buffer)
      decreases if img == null then 1 else 0, if img == null then 0 else img.heightI + 1, |f| - i
    {
      if i == BMP_OFFSET_BYTE {
        offset1 := Signed(f[i]);
      } else if i == BMP_WIDTH_BYTE {
        tempW := f[i];
      } else if i == BMP_WIDTH_BYTE + 1 {
        if f[i] != 0 {
          tempW := tempW + Signed(f[i]) * 256;
        }
      } else if i == BMP_HEIGHT_BYTE {
        img := new PixelScan(f, offset1, tempW, f[i]);
      } else if i >= offset1 - 1 {
        i := img.Data(i);
      }
      i := i + 1;
    }
    height, buffer := img.height, img.buffer;
    Finished(img, f, i);
    if Complete(f) && tempW % 4 != 0 { FinishedPadding(img, f, i); }
    written := img.written;
    FinishedOnce(img, f, i);
    ClearColumn(img, f);
  }

  // The two columns behind the image are black.
  ghost predicate Padded(buffer: array2<Rgb>, w: int)
    requires 0 <= w && w + 2 <= buffer.Length0
    reads buffer
  {
    forall c, r {:trigger buffer[c, r]} :: w <= c <= w + 1 && 0 <= r < buffer.Length1 ==> buffer[c, r] == Rgb(0, 0, 0)
  }

  // The loop writes no cell twice, all those whose bytes the file holds, and of a complete file
  // the whole buffer.
  ghost predicate WrittenOnce(f: seq<byte>, columns: int, written: multiset<(int, int)>)
    requires HeaderOk(f)
  {
    && (forall cell {:trigger written[cell]} :: written[cell] <= 1)
    && (forall c, r {:trigger SourceIn(f, c, r)} :: 0 <= c < Width(f) && 0 <= r < Height(f) && SourceIn(f, c, r) + 2 < |f|
         ==> written[(c, r)] == 1)
    && (Complete(f) ==> forall c, r {:trigger written[(c, r)]} ::
          written[(c, r)] == if 0 <= c < columns && 0 <= r < Height(f) then 1 else 0)
  }

  lemma FinishedOnce(img: PixelScan, f: seq<byte>, i: int)
    requires HeaderOk(f) && Underway(img, f, i) && i >= |f|
    ensures WrittenOnce(f, img.buffer.Length0, img.written)
  {
    forall cell ensures img.written[cell] <= 1 {
      assert cell == (cell.0, cell.1);
      assert img.Scanned(cell.0, cell.1) || !img.Scanned(cell.0, cell.1);
    }
    forall c, r | 0 <= c < Width(f) && 0 <= r < Height(f) && SourceIn(f, c, r) + 2 < |f|
      ensures img.written[(c, r)] == 1
    {
      AllScanned(img, i, c, r);
    }
    if Complete(f) { CompleteIsFinished(img, f, i); }
  }

  lemma CompleteIsFinished(img: PixelScan, f: seq<byte>, i: int)
    requires Complete(f) && Underway(img, f, i) && i >= |f|
    ensures img.heightI < 0
  {
    if img.heightI >= 0 {
      RowsApart(img.RowsDone(), img.height, Stride(img.tempW));
      assert false;
    }
  }

  lemma FinishedPadding(img: PixelScan, f: seq<byte>, i: int)
    requires Complete(f) && Underway(img, f, i) && i >= |f| && img.tempW % 4 != 0
    ensures Padded(img.buffer, img.tempW)
  {
    CompleteIsFinished(img, f, i);
    forall c, r | img.tempW <= c <= img.tempW + 1 && 0 <= r < img.height
      ensures img.buffer[c, r] == Rgb(0, 0, 0)
    {
      assert img.Scanned(c, r);
    }
  }

  // The scan has been set up for file f and is about to look at byte i.
  ghost predicate Underway(img: PixelScan, f: seq<byte>, i: int)
    requires |f| > BMP_HEIGHT_BYTE
    reads img, img.buffer
  {
    && img.f == f && img.base == DataOffset(f) - 1 && img.tempW == Width(f) && img.height == Height(f)
    && img.Valid(if i < img.base then img.base else i)
    && (i < img.base ==> img.heightI == img.height - 1 && img.rgbI == 0)
    && (img.heightI >= 0 ==> i <= |f|)
    && (img.heightI < 0 ==> |f| <= i)
  }

  lemma Finished(img: PixelScan, f: seq<byte>, i: int)
    requires HeaderOk(f) && Underway(img, f, i) && i >= |f|
    ensures forall c, r {:trigger SourceIn(f, c, r)} :: 0 <= c < Width(f) && 0 <= r < Height(f) && SourceIn(f, c, r) + 2 < |f|
              ==> img.CellOk(c, r)
  {
    forall c, r | 0 <= c < Width(f) && 0 <= r < Height(f) && SourceIn(f, c, r) + 2 < |f|
      ensures img.CellOk(c, r)
    {
      AllScanned(img, i, c, r);
    }
  }

  // The pass over column 0.
  method ClearColumn(img: PixelScan, f: seq<byte>)
    requires HeaderOk(f) && img.f == f && img.base == DataOffset(f) - 1 && img.tempW == Width(f) && img.height == Height(f)
    requires img.Shape()
    requires forall c, r {:trigger SourceIn(f, c, r)} :: 0 <= c < Width(f) && 0 <= r < Height(f) && SourceIn(f, c, r) + 2 < |f|
              ==> img.CellOk(c, r)
    modifies img.buffer
    ensures Shows(img.buffer, f)
    ensures forall c, r {:trigger img.buffer[c, r]} :: 0 < c < img.buffer.Length0 && 0 <= r < img.height ==>
              img.buffer[c, r] == old(img.buffer[c, r])
  {
    var buffer := img.buffer;
    for jj := 0 to img.height
      invariant forall c, r {:trigger buffer[c, r]} {:trigger old(buffer[c, r])} ::
                  0 <= c < buffer.Length0 && 0 <= r < img.height
                  ==> buffer[c, r] == if c == 0 && r < jj then old(buffer[c, r]).(R := 0) else old(buffer[c, r])
    {
      buffer[0, jj] := buffer[0, jj].(R := 0);
    }
    forall c, r | 0 <= c < Width(f) && 0 <= r < Height(f) && SourceIn(f, c, r) + 2 < |f|
      ensures 0 <= SourceIn(f, c, r) && buffer[c, r] == Pixel(f, c, r)
    {
    }
  }
}
