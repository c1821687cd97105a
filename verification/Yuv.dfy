/** The encoder of BMPtoYUV: pairs of pixels become YUV 4:2:2 quadruples. */
module YuvEncode {
  import opened Basics
  import opened BmpScan

  // ---- One pixel: 8.8 fixed-point arithmetic; >> of a negative int rounds down. The mask
  // & 0xFF never cuts anything off. ----

  function Luma(p: Rgb): (y: byte)
    ensures y == (77 * p.R + 150 * p.G + 29 * p.B) / 256
  {
    (77 * p.R + 150 * p.G + 29 * p.B) / 256 % 256
  }

  lemma ChromaFits(sum: int)
    requires -32768 <= sum < 32768
    ensures 0 <= sum / 256 + 128 < 256
  {
  }

  function Cb(p: Rgb): (cb: byte)
    ensures cb == (-43 * p.R - 85 * p.G + 128 * p.B) / 256 + 128
  {
    ChromaFits(-43 * p.R - 85 * p.G + 128 * p.B);
    ((-43 * p.R - 85 * p.G + 128 * p.B) / 256 + 128) % 256
  }

  function Cr(p: Rgb): (cr: byte)
    ensures cr == (128 * p.R - 107 * p.G - 21 * p.B) / 256 + 128
  {
    ChromaFits(128 * p.R - 107 * p.G - 21 * p.B);
    ((128 * p.R - 107 * p.G - 21 * p.B) / 256 + 128) % 256
  }

  /** Luma lies between the darkest and the brightest component. */
  lemma LumaBetween(p: Rgb)
    ensures Min(p.R, Min(p.G, p.B)) <= Luma(p) <= Max(p.R, Max(p.G, p.B))
  {
    var lo, hi := Min(p.R, Min(p.G, p.B)), Max(p.R, Max(p.G, p.B));
    assert 256 * lo <= 77 * p.R + 150 * p.G + 29 * p.B <= 256 * hi;
  }

  // ---- A pair of pixels ----

  // The four bytes written for a pair, in this order.
  datatype Yuv = Yuv(y0: byte, y1: byte, cb: byte, cr: byte)

  const KEY := Rgb(0, 0, 0)

  /** The encoding of two neighbouring pixels. */
  function Pair(p: Rgb, q: Rgb): Yuv {
    if p == KEY && q != KEY then Yuv(Luma(q) / 2, Luma(q), Cb(q), Cr(q))
    else if p != KEY && q == KEY then Yuv(Luma(p), Luma(p) / 2, Cb(p), Cr(p))
    else Yuv(Luma(p), Luma(q), (Cb(p) + Cb(q)) / 2, (Cr(p) + Cr(q)) / 2)
  }

  /** Two equal pixels are encoded as themselves; a pair with one key pixel carries the other
      pixel's chroma unmixed and half its luma on the key side; any other pair keeps both
      lumas and has the mean of their chroma, rounded down. */
  lemma PairMeaning(p: Rgb, q: Rgb)
    ensures Pair(p, p) == Yuv(Luma(p), Luma(p), Cb(p), Cr(p))
    ensures p == KEY && q != KEY ==> Pair(p, q) == Pair(q, q).(y0 := Luma(q) / 2)
    ensures p != KEY && q == KEY ==> Pair(p, q) == Pair(p, p).(y1 := Luma(p) / 2)
    ensures (p == KEY) == (q == KEY)
            ==> && Pair(p, q).y0 == Luma(p) && Pair(p, q).y1 == Luma(q)
                && Min(Cb(p), Cb(q)) <= Pair(p, q).cb <= Max(Cb(p), Cb(q))
                && Min(Cr(p), Cr(q)) <= Pair(p, q).cr <= Max(Cr(p), Cr(q))
                && Pair(p, q).cb as int * 2 <= Cb(p) as int + Cb(q) <= Pair(p, q).cb as int * 2 + 1
                && Pair(p, q).cr as int * 2 <= Cr(p) as int + Cr(q) <= Pair(p, q).cr as int * 2 + 1
    ensures KEY == Rgb(0, 0, 0)
  {
    hide Luma, Cb, Cr;
  }

  function PairBytes(t: Yuv): (r: seq<byte>)
    ensures |r| == 4
  {
    [t.y0, t.y1, t.cb, t.cr]
  }

  /** The 8-byte header: the width's low byte, the height byte, and the key's own pair. */
  function FileHeader(f: seq<byte>): (r: seq<byte>)
    requires HeaderOk(f)
    ensures |r| == 8 && r[4..] == PairBytes(Pair(KEY, KEY))
    ensures r == [0, f[18], 0, f[22], 0, 0, 128, 128]
  {
    HeaderBytes(f);
    [0, Width(f) % 256, 0, f[BMP_HEIGHT_BYTE], Luma(KEY), Luma(KEY), Cb(KEY), Cr(KEY)]
  }

  // ---- An image ----

  /** The encoding of a sequence of pixels: element k is made of pixels 2k and 2k + 1, and a
      last single pixel is dropped. */
  function Encode(s: seq<Rgb>): seq<Yuv> {
    seq(|s| / 2, k requires 0 <= k < |s| / 2 => Pair(s[2 * k], s[2 * k + 1]))
  }

  lemma EncodeNext(s: seq<Rgb>, p: Rgb)
    ensures |s| % 2 == 0 ==> Encode(s + [p]) == Encode(s)
    ensures |s| % 2 == 1 ==> Encode(s + [p]) == Encode(s) + [Pair(s[|s| - 1], p)]
  {
    hide Pair;
  }

  /** The bytes of a sequence of pairs in the file. */
  function Bytes(t: seq<Yuv>): (r: seq<byte>)
    ensures |r| == 4 * |t|
  {
    if t == [] then [] else Bytes(t[..|t| - 1]) + PairBytes(t[|t| - 1])
  }

  /** Pair k of the file is bytes 4k to 4k + 3. */
  lemma {:induction false} BytesAt(t: seq<Yuv>, k: nat)
    requires k < |t|
    ensures Bytes(t)[4 * k..4 * k + 4] == PairBytes(t[k])
  {
    var n := |t| - 1;
    var before := Bytes(t[..n]);
    if k < n {
      BytesAt(t[..n], k);
      assert (before + PairBytes(t[n]))[4 * k..4 * k + 4] == before[4 * k..4 * k + 4];
    }
  }

  // The colours that the cells of a new image buffer happen to hold.
  type Memory = (int, int) -> Rgb

  /** Pixel c of image row r, as the scan leaves it: in a truncated file, a pixel that is missing
      is what the memory holds. */
  function PixelOf(f: seq<byte>, mem: Memory, c: int, r: int): Rgb
    requires HeaderOk(f) && 0 <= c < Width(f) && 0 <= r < Height(f)
  {
    if SourceIn(f, c, r) + 2 < |f| then
      RowsNonNegative(Height(f) - 1 - r, Stride(Width(f)));
      Pixel(f, c, r)
    else mem(c, r)
  }

  /** Of a complete file the memory does not matter. */
  lemma {:induction false} CompletePixels(f: seq<byte>, mem: Memory, mem': Memory, rows: nat)
    requires Complete(f) && rows <= Height(f)
    ensures PixelRows(f, mem, rows) == PixelRows(f, mem', rows)
  {
    hide Complete, HeaderOk, Width, Height, PixelRow;
    CompleteIsOk(f);
    if rows > 0 {
      CompletePixels(f, mem, mem', rows - 1);
      CompleteRow(f, mem, mem', rows - 1, Width(f));
    }
  }

  lemma CompleteIsOk(f: seq<byte>)
    requires Complete(f)
    ensures HeaderOk(f) && |f| > BMP_HEIGHT_BYTE && Width(f) > 0 && Height(f) > 0
  {
  }

  lemma {:induction false} CompleteRow(f: seq<byte>, mem: Memory, mem': Memory, r: int, c: nat)
    requires Complete(f) && 0 <= r < Height(f) && c <= Width(f)
    ensures PixelRow(f, mem, r, c) == PixelRow(f, mem', r, c)
  {
    if c > 0 {
      SourceInside(f, c - 1, r);
      CompleteRow(f, mem, mem', r, c - 1);
    }
  }

  /** The first c pixels of image row r. */
  function PixelRow(f: seq<byte>, mem: Memory, r: int, c: nat): (s: seq<Rgb>)
    requires HeaderOk(f) && 0 <= r < Height(f) && c <= Width(f)
    ensures |s| == c
  {
    if c == 0 then [] else PixelRow(f, mem, r, c - 1) + [PixelOf(f, mem, c - 1, r)]
  }

  /** The first r rows of the image. */
  function PixelRows(f: seq<byte>, mem: Memory, r: nat): seq<Rgb>
    requires HeaderOk(f) && r <= Height(f)
  {
    if r == 0 then [] else PixelRows(f, mem, r - 1) + PixelRow(f, mem, r - 1, Width(f))
  }

  /** The pixels of the image in row-major order. */
  function Pixels(f: seq<byte>, mem: Memory): seq<Rgb>
    requires HeaderOk(f)
  {
    PixelRows(f, mem, Height(f))
  }

  lemma {:induction false} PixelsAt(f: seq<byte>, mem: Memory, rows: nat, c: int, r: int)
    requires HeaderOk(f) && 0 <= c < Width(f) && 0 <= r < rows <= Height(f)
    ensures |PixelRows(f, mem, rows)| == Rows(rows, Width(f))
    ensures 0 <= Rows(r, Width(f)) + c < Rows(rows, Width(f))
    ensures PixelRows(f, mem, rows)[Rows(r, Width(f)) + c] == PixelOf(f, mem, c, r)
  {
    hide PixelOf, Width;
    RowsSize(f, mem, rows - 1);
    RowsNonNegative(r, Width(f));
    if r < rows - 1 {
      PixelsAt(f, mem, rows - 1, c, r);
    } else {
      PixelRowAt(f, mem, r, Width(f), c);
    }
  }

  lemma {:induction false} RowsSize(f: seq<byte>, mem: Memory, rows: nat)
    requires HeaderOk(f) && rows <= Height(f)
    ensures |PixelRows(f, mem, rows)| == Rows(rows, Width(f))
  {
    hide Width, Stride, PixelRow;
    if rows > 0 {
      RowsSize(f, mem, rows - 1);
    }
  }

  lemma {:induction false} PixelRowAt(f: seq<byte>, mem: Memory, r: int, n: nat, c: int)
    requires HeaderOk(f) && 0 <= r < Height(f) && 0 <= c < n <= Width(f)
    ensures PixelRow(f, mem, r, n)[c] == PixelOf(f, mem, c, r)
  {
    if c < n - 1 {
      PixelRowAt(f, mem, r, n - 1, c);
    }
  }

  /** The encoding of an image of even width 2u: two bytes for every pixel; the four that
      belong to pixel i = (2k, r) of the row-major order and its right neighbour are their
      pair, so no pair straddles two rows. */
  lemma PayloadShape(f: seq<byte>, mem: Memory, u: nat, k: nat, r: int, i: int, payload: seq<byte>)
    requires HeaderOk(f) && Width(f) == 2 * u && payload == Bytes(Encode(Pixels(f, mem)))
    requires k < u && 0 <= r < Height(f) && i == Rows(r, 2 * u) + 2 * k
    ensures |payload| == 2 * Rows(Height(f), 2 * u) && 0 <= 2 * i && 2 * i + 4 <= |payload|
    ensures payload[2 * i..2 * i + 4] == PairBytes(Pair(PixelOf(f, mem, 2 * k, r), PixelOf(f, mem, 2 * k + 1, r)))
    ensures var t := Pair(PixelOf(f, mem, 2 * k, r), PixelOf(f, mem, 2 * k + 1, r));
            payload[2 * i] == t.y0 && payload[2 * i + 1] == t.y1 && payload[2 * i + 2] == t.cb && payload[2 * i + 3] == t.cr
  {
    hide Pair, PairBytes, PixelOf, Encode, Bytes;
    PixelsAt(f, mem, Height(f), 2 * k, r);
    PixelsAt(f, mem, Height(f), 2 * k + 1, r);
    RowsDouble(r, u);
    RowsDouble(Height(f), u);
    PairInBytes(Pixels(f, mem), Rows(Height(f), u), Rows(r, u) + k);
    FourBytes(payload, 2 * i, Pair(PixelOf(f, mem, 2 * k, r), PixelOf(f, mem, 2 * k + 1, r)));
  }

  lemma FourBytes(payload: seq<byte>, i: int, t: Yuv)
    requires 0 <= i && i + 4 <= |payload| && payload[i..i + 4] == PairBytes(t)
    ensures payload[i] == t.y0 && payload[i + 1] == t.y1 && payload[i + 2] == t.cb && payload[i + 3] == t.cr
  {
    var q := payload[i..i + 4];
    assert q[0] == payload[i] && q[1] == payload[i + 1] && q[2] == payload[i + 2] && q[3] == payload[i + 3];
  }

  /** The pixels encoded of a complete file whose rows are those of the format: the bytes of the
      file at the place of the pixel, its row counted from below, one byte early. */
  lemma PixelBytes(f: seq<byte>, mem: Memory, c: int, r: int, b: int)
    requires Complete(f) && 0 <= c < Width(f) && 0 <= r < Height(f) && (Width(f) % 4 == 0 || Width(f) % 4 == 2)
    requires b == f[10] as int + (f[22] as int - 1 - r) * ((3 * Width(f) + 3) / 4 * 4) + 3 * c
    ensures 0 < b && b + 1 < |f|
    ensures PixelOf(f, mem, c, r) == Rgb(if c == 0 then 0 else f[b - 1], f[b], f[b + 1])
  {
    SourceInside(f, c, r);
    BlueIs(f, c, r);
    StoredChannels(f, c, r);
    StrideIsBmpStride(Width(f));
  }

  lemma PairInBytes(s: seq<Rgb>, n: nat, h: nat)
    requires |s| == 2 * n && h < n
    ensures |Bytes(Encode(s))| == 4 * n
    ensures Bytes(Encode(s))[4 * h..4 * h + 4] == PairBytes(Pair(s[2 * h], s[2 * h + 1]))
  {
    hide Pair, PairBytes;
    BytesAt(Encode(s), h);
  }

  lemma {:induction false} RowsDouble(q: int, t: int)
    ensures Rows(q, 2 * t) == 2 * Rows(q, t)
  {
    if q > 0 {
      RowsDouble(q - 1, t);
    }
  }

  // ---- The program ----

  // The first pixel of a pair and its colours: R0, G0, B0, y0, cb0, cr0.
  datatype First = First(rgb0: Rgb, y0: byte, cb0: byte, cr0: byte)

  // The pixels s have been encoded behind out; the flag RGB_FP says that the next pixel is
  // the first of a pair, otherwise the last of s is held.
  ghost predicate Progress(out: seq<byte>, out': seq<byte>, s: seq<Rgb>, rgbFp: bool, first: First) {
    && out' == out + Bytes(Encode(s))
    && (rgbFp <==> |s| % 2 == 0)
    && (!rgbFp ==> first == FirstOf(s[|s| - 1]))
  }

  function FirstOf(p: Rgb): First {
    First(p, Luma(p), Cb(p), Cr(p))
  }

  // The second pixel of a pair, with the rules for the colour key.
  method EncodeSecond(first: First, p: Rgb) returns (t: Yuv)
    requires first == FirstOf(first.rgb0)
    ensures t == Pair(first.rgb0, p)
  {
    hide Luma, Cb, Cr;
    var y0, y1 := first.y0, Luma(p);
    var cb0, cr0 := first.cb0, first.cr0;
    if first.rgb0 == KEY && p != KEY {
      y0 := y1 / 2;
      cb0, cr0 := Cb(p), Cr(p);
    } else if first.rgb0 != KEY && p == KEY {
      y1 := y0 / 2;
    } else {
      cb0 := (cb0 + Cb(p)) / 2;
      cr0 := (cr0 + Cr(p)) / 2;
    }
    t := Yuv(y0, y1, cb0, cr0);
  }

  method EncodePixel(p: Rgb, rgbFp: bool, first: First, out: seq<byte>, ghost out0: seq<byte>, ghost s: seq<Rgb>)
    returns (rgbFp': bool, first': First, out': seq<byte>)
    requires Progress(out0, out, s, rgbFp, first)
    ensures Progress(out0, out', s + [p], rgbFp', first')
  {
    hide Encode, Bytes, Luma, Cb, Cr, Pair;
    EncodeNext(s, p);
    if rgbFp {
      rgbFp', first', out' := false, FirstOf(p), out;
    } else {
      var t := EncodeSecond(first, p);
      BytesNext(Encode(s), t);
      rgbFp', first', out' := true, first, out + [t.y0, t.y1, t.cb, t.cr];
    }
  }

  lemma BytesNext(t: seq<Yuv>, q: Yuv)
    ensures Bytes(t + [q]) == Bytes(t) + [q.y0, q.y1, q.cb, q.cr]
  {
    assert (t + [q])[..|t|] == t;
  }

  /** The encoding loops over the scanned image. */
  method EncodeImage(f: seq<byte>, ghost mem: Memory, tempW: int, height: int, buffer: array2<Rgb>, out: seq<byte>)
    returns (out': seq<byte>)
    requires HeaderOk(f) && tempW == Width(f) && height == Height(f)
    requires buffer.Length0 >= tempW && buffer.Length1 == height && Holds(buffer, f, mem)
    ensures out' == out + Bytes(Encode(Pixels(f, mem)))
  {
    hide Progress, Holds, PixelOf;
    out' := out;
    var rgbFp, first := true, First(KEY, 0, 0, 0);
    NothingYet(out, first);
    for j2 := 0 to height
      invariant Progress(out, out', PixelRows(f, mem, j2), rgbFp, first)
    {
      assert PixelRows(f, mem, j2) + PixelRow(f, mem, j2, 0) == PixelRows(f, mem, j2);
      for i2 := 0 to tempW
        invariant Progress(out, out', PixelRows(f, mem, j2) + PixelRow(f, mem, j2, i2), rgbFp, first)
      {
        ShownPixel(buffer, f, mem, i2, j2);
        ghost var s := PixelRows(f, mem, j2) + PixelRow(f, mem, j2, i2);
        rgbFp, first, out' := EncodePixel(buffer[i2, j2], rgbFp, first, out', out, s);
        assert s + [PixelOf(f, mem, i2, j2)] == PixelRows(f, mem, j2) + PixelRow(f, mem, j2, i2 + 1);
      }
    }
    Encoded(out, out', Pixels(f, mem), rgbFp, first);
  }

  lemma NothingYet(out: seq<byte>, first: First)
    ensures Progress(out, out, [], true, first)
  {
    assert Encode([]) == [];
  }

  lemma Encoded(out: seq<byte>, out': seq<byte>, s: seq<Rgb>, rgbFp: bool, first: First)
    requires Progress(out, out', s, rgbFp, first)
    ensures out' == out + Bytes(Encode(s))
  {
  }

  // The image buffer shows the pixels of the file and otherwise the memory.
  ghost predicate Holds(buffer: array2<Rgb>, f: seq<byte>, mem: Memory)
    requires HeaderOk(f) && buffer.Length0 >= Width(f) && buffer.Length1 == Height(f)
    reads buffer
  {
    forall c, r {:trigger buffer[c, r]} :: 0 <= c < Width(f) && 0 <= r < Height(f) ==> buffer[c, r] == PixelOf(f, mem, c, r)
  }

  lemma ShownPixel(buffer: array2<Rgb>, f: seq<byte>, mem: Memory, c: int, r: int)
    requires HeaderOk(f) && 0 <= c < Width(f) && 0 <= r < Height(f)
    requires buffer.Length0 >= Width(f) && buffer.Length1 == Height(f) && Holds(buffer, f, mem)
    ensures buffer[c, r] == PixelOf(f, mem, c, r)
  {
  }

  lemma MemoryOf(buffer: array2<Rgb>, f: seq<byte>) returns (mem: Memory)
    requires HeaderOk(f) && buffer.Length0 >= Width(f) && buffer.Length1 == Height(f) && Shows(buffer, f)
    ensures Holds(buffer, f, mem)
  {
    var cells := map c, r | 0 <= c < buffer.Length0 && 0 <= r < buffer.Length1 :: (c, r) := buffer[c, r];
    mem := (c, r) => if (c, r) in cells then cells[(c, r)] else KEY;
    forall c, r | 0 <= c < Width(f) && 0 <= r < Height(f)
      ensures buffer[c, r] == PixelOf(f, mem, c, r)
    {
      assert (c, r) in cells && mem(c, r) == buffer[c, r];
    }
  }

  // The payload of the first n files.
  function Payloads(files: seq<seq<byte>>, mems: seq<Memory>, n: nat): seq<byte>
    requires n <= |files| && n <= |mems| && forall j :: 0 <= j < |files| ==> HeaderOk(files[j])
  {
    if n == 0 then [] else Payloads(files, mems, n - 1) + Bytes(Encode(Pixels(files[n - 1], mems[n - 1])))
  }

  lemma {:induction false} PayloadsKeep(files: seq<seq<byte>>, mems: seq<Memory>, mem: Memory, n: nat)
    requires n <= |files| && n <= |mems| && forall j :: 0 <= j < |files| ==> HeaderOk(files[j])
    ensures Payloads(files, mems + [mem], n) == Payloads(files, mems, n)
  {
    if n > 0 {
      PayloadsKeep(files, mems, mem, n - 1);
    }
  }

  /** One round of main's loop over the files. */
  method ConvertFile(f: seq<byte>, first: bool, oldOffset1: int, out: seq<byte>)
    returns (offset1: int, out': seq<byte>, ghost mem: Memory)
    requires HeaderOk(f) && oldOffset1 > BMP_HEIGHT_BYTE
    ensures offset1 > BMP_HEIGHT_BYTE
    ensures out' == out + (if first then FileHeader(f) else []) + Bytes(Encode(Pixels(f, mem)))
  {
    hide Rows, Stride, Shows, Holds, Bytes, Encode, Pixels, Luma, Cb, Cr;
    var tempW, height, buffer;
    ghost var written;
    offset1, tempW, height, buffer, written := Scan(f, oldOffset1);
    mem := MemoryOf(buffer, f);
    out' := out;
    if first {
      out' := out' + [0, tempW % 256, 0, height % 256, Luma(KEY), Luma(KEY), Cb(KEY), Cr(KEY)];
    }
    out' := EncodeImage(f, mem, tempW, height, buffer, out');
  }

  lemma HeaderOffset(f: seq<byte>)
    requires HeaderOk(f)
    ensures |f| > BMP_HEIGHT_BYTE && Signed(f[BMP_OFFSET_BYTE]) > BMP_HEIGHT_BYTE
  {
  }

  // The output after one more file.
  lemma NextOutput(files: seq<seq<byte>>, mems: seq<Memory>, mem: Memory, head: seq<byte>, out: seq<byte>, out': seq<byte>)
    requires |mems| < |files| && forall j :: 0 <= j < |files| ==> HeaderOk(files[j])
    requires out == (if mems == [] then [] else head) + Payloads(files, mems, |mems|)
    requires out' == out + (if mems == [] then head else []) + Bytes(Encode(Pixels(files[|mems|], mem)))
    ensures out' == head + Payloads(files, mems + [mem], |mems| + 1)
  {
    hide HeaderOk, Bytes, Encode, Pixels, Payloads;
    PayloadsKeep(files, mems, mem, |mems|);
    LastPayload(files, mems + [mem], |mems|);
    assert (mems + [mem])[|mems|] == mem;
    if mems == [] { NoPayload(files, mems); }
    Joined(mems == [], head, Payloads(files, mems, |mems|), Bytes(Encode(Pixels(files[|mems|], mem))), out, out');
  }

  lemma Joined(first: bool, head: seq<byte>, before: seq<byte>, last: seq<byte>, out: seq<byte>, out': seq<byte>)
    requires first ==> before == []
    requires out == (if first then [] else head) + before && out' == out + (if first then head else []) + last
    ensures out' == head + (before + last)
  {
    if first {
      assert before + last == last && out' == head + last;
    } else {
      assert out + [] == out;
    }
  }

  lemma LastPayload(files: seq<seq<byte>>, mems: seq<Memory>, n: nat)
    requires n < |files| && n < |mems| && forall j :: 0 <= j < |files| ==> HeaderOk(files[j])
    ensures Payloads(files, mems, n + 1) == Payloads(files, mems, n) + Bytes(Encode(Pixels(files[n], mems[n])))
  {
  }

  /** main, from the bytes of the files to the bytes of FONT.yuv: one header, from the first
      file, then the encoded images. The first file is scanned twice with the same outcome,
      so of the first pass only the offset that it leaves behind is kept here. */
  method Convert(files: seq<seq<byte>>) returns (out: seq<byte>, ghost mems: seq<Memory>)
    requires files != [] && forall j :: 0 <= j < |files| ==> HeaderOk(files[j])
    ensures |mems| == |files| && out == FileHeader(files[0]) + Payloads(files, mems, |files|)
    ensures |out| >= 8 && out[..8] == [0, files[0][18], 0, files[0][22], 0, 0, 128, 128]
  {
    hide HeaderOk, FileHeader, Bytes, Encode, Pixels, Width, Height, Rows, Stride, Luma, Cb, Cr, Payloads;
    HeaderOffset(files[0]);
    out, mems := [], [];
    ghost var head := FileHeader(files[0]);
    assert Payloads(files, mems, 0) == [] by { NoPayload(files, mems); }
    var offset1 := Signed(files[0][BMP_OFFSET_BYTE]);
    for j := 0 to |files|
      invariant offset1 > BMP_HEIGHT_BYTE && |mems| == j
      invariant out == (if j == 0 then [] else head) + Payloads(files, mems, j)
    {
      ghost var mem, before := *, out;
      offset1, out, mem := ConvertFile(files[j], j == 0, offset1, out);
      NextOutput(files, mems, mem, head, before, out);
      mems := mems + [mem];
    }
  }

  lemma NoPayload(files: seq<seq<byte>>, mems: seq<Memory>)
    requires forall j :: 0 <= j < |files| ==> HeaderOk(files[j])
    ensures Payloads(files, mems, 0) == []
  {
  }

  /** What a reader finds in the header: the low bytes of the width and the height of the first
      bitmap, which are its size if that is below 256 both ways. */
  lemma HeaderSize(f: seq<byte>)
    requires HeaderOk(f) && |f| > 25
    ensures var r := FileHeader(f);
            && r[0] == r[2] == 0 && r[1] == Field(f, BMP_WIDTH_BYTE) % 256 && r[3] == Field(f, BMP_HEIGHT_BYTE) % 256
            && (Field(f, BMP_WIDTH_BYTE) < 256 ==> r[1] == Field(f, BMP_WIDTH_BYTE) == Width(f))
            && (Field(f, BMP_HEIGHT_BYTE) < 256 ==> r[3] == Field(f, BMP_HEIGHT_BYTE) == Height(f))
  {
    WhenSizeTaken(f);
  }

  // ---- Where the images lie in the output ----

  // The bytes of all images before file n: four for every two pixels.
  function PayloadStart(files: seq<seq<byte>>, n: nat): int
    requires n <= |files| && forall j :: 0 <= j < |files| ==> HeaderOk(files[j])
  {
    if n == 0 then 0 else PayloadStart(files, n - 1) + 4 * (Height(files[n - 1]) * Width(files[n - 1]) / 2)
  }

  lemma {:induction false} PayloadSize(files: seq<seq<byte>>, mems: seq<Memory>, n: nat)
    requires n <= |files| && n <= |mems| && forall j :: 0 <= j < |files| ==> HeaderOk(files[j])
    ensures |Payloads(files, mems, n)| == PayloadStart(files, n)
  {
    hide Bytes, Encode, PixelRows, HeaderOk, Width, Height;
    if n > 0 {
      PayloadSize(files, mems, n - 1);
      ImageSize(files[n - 1], mems[n - 1]);
    }
  }

  lemma ImageSize(f: seq<byte>, mem: Memory)
    requires HeaderOk(f)
    ensures |Bytes(Encode(Pixels(f, mem)))| == 4 * (Height(f) * Width(f) / 2)
  {
    RowsSize(f, mem, Height(f));
    RowsIsProduct(Height(f), Width(f));
  }

  /** The image of file j lies behind the header and the images of the files before it. */
  lemma {:induction false} PayloadSlice(files: seq<seq<byte>>, mems: seq<Memory>, n: nat, j: nat, head: seq<byte>)
    requires j < n <= |files| && n <= |mems| && |head| == 8 && forall j :: 0 <= j < |files| ==> HeaderOk(files[j])
    ensures 0 <= PayloadStart(files, j) <= PayloadStart(files, j + 1) <= PayloadStart(files, n)
    ensures var out := head + Payloads(files, mems, n);
            && |out| == 8 + PayloadStart(files, n)
            && out[8 + PayloadStart(files, j)..8 + PayloadStart(files, j + 1)] == Bytes(Encode(Pixels(files[j], mems[j])))
    decreases n
  {
    hide Bytes, Encode, Pixels, HeaderOk, Width, Height, PayloadStart;
    PayloadSize(files, mems, n);
    PayloadSize(files, mems, n - 1);
    PayloadSize(files, mems, j);
    PayloadSize(files, mems, j + 1);
    var before, last := Payloads(files, mems, n - 1), Bytes(Encode(Pixels(files[n - 1], mems[n - 1])));
    assert Payloads(files, mems, n) == before + last;
    if j < n - 1 {
      PayloadSlice(files, mems, n - 1, j, head);
      SliceKeeps(head + before, last, 8 + PayloadStart(files, j), 8 + PayloadStart(files, j + 1));
      assert head + (before + last) == (head + before) + last;
    } else {
      assert (head + (before + last))[8 + |before|..] == last;
    }
  }

  lemma SliceKeeps(a: seq<byte>, b: seq<byte>, i: int, k: int)
    requires 0 <= i <= k <= |a|
    ensures (a + b)[i..k] == a[i..k]
  {
  }
}
