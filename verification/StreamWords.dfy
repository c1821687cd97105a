/** The multi-byte readers on top of stream_read_char, and what a short read answers. */
module StreamWords {
  import opened Storage
  import opened Stream

  // The C assembly of the bytes read, in 32-bit (64-bit for the quad word) arithmetic. The
  // arguments are answers of stream_read_char: a byte, or EOF.
  function WordBE(x: bv32, y: bv32): bv32 { (x << 8) | y }

  function WordLE(x: bv32, y: bv32): bv32 { (y << 8) | x }

  function Int24(a: bv32, b: bv32, c: bv32): bv32 { WordBE(WordBE(a, b), c) }

  function DwordBE(a: bv32, b: bv32, c: bv32, d: bv32): bv32 { WordBE(Int24(a, b, c), d) }

  function Or8(w: bv32, y: bv32): bv32 { w | (y << 8) }

  function Or16(w: bv32, y: bv32): bv32 { w | (y << 16) }

  function Or24(w: bv32, y: bv32): bv32 { w | (y << 24) }

  function DwordLE(a: bv32, b: bv32, c: bv32, d: bv32): bv32 { Or24(Or16(Or8(a, b), c), d) }

  // bswap_16 and bswap_32, portable branch.
  function BSwap16(x: bv32): bv32 { ((x & 0x00ff) << 8) | ((x & 0xff00) >> 8) }

  function BSwap32(x: bv32): bv32 {
    ((x & 0xff000000) >> 24) | ((x & 0x00ff0000) >> 8) | ((x & 0x0000ff00) << 8) | ((x & 0x000000ff) << 24)
  }

  method ReadWord(s: Stream) returns (w: bv32)
    requires s.Valid() && s.fd.Logged()
    modifies s, s.buffer, s.fd
    ensures s.Valid() && s.fd.Logged()
    ensures s.fd.device != Faulty
            ==> var f, c := s.fd.content, old(s.Cursor());
                w == WordBE(Peek(f, c), Peek(f, c + 1)) && s.Cursor() == Advance(|f|, c, 2)
  {
    hide FileHandle.Logged, WordBE;
    var x := s.ReadChar();
    var y := s.ReadChar();
    w := WordBE(x, y);
  }

  method ReadWordLE(s: Stream) returns (w: bv32)
    requires s.Valid() && s.fd.Logged()
    modifies s, s.buffer, s.fd
    ensures s.Valid() && s.fd.Logged()
    ensures s.fd.device != Faulty
            ==> var f, c := s.fd.content, old(s.Cursor());
                w == WordLE(Peek(f, c), Peek(f, c + 1)) && s.Cursor() == Advance(|f|, c, 2)
  {
    hide FileHandle.Logged, WordLE;
    var x := s.ReadChar();
    var y := s.ReadChar();
    w := WordLE(x, y);
  }

  method ReadInt24(s: Stream) returns (w: bv32)
    requires s.Valid() && s.fd.Logged()
    modifies s, s.buffer, s.fd
    ensures s.Valid() && s.fd.Logged()
    ensures s.fd.device != Faulty
            ==> var f, c := s.fd.content, old(s.Cursor());
                w == Int24(Peek(f, c), Peek(f, c + 1), Peek(f, c + 2)) && s.Cursor() == Advance(|f|, c, 3)
  {
    hide FileHandle.Logged, WordBE;
    w := s.ReadChar();
    var y := s.ReadChar();
    w := WordBE(w, y);
    y := s.ReadChar();
    w := WordBE(w, y);
  }

  method ReadDword(s: Stream) returns (w: bv32)
    requires s.Valid() && s.fd.Logged()
    modifies s, s.buffer, s.fd
    ensures s.Valid() && s.fd.Logged()
    ensures s.fd.device != Faulty
            ==> var f, c := s.fd.content, old(s.Cursor());
                && w == DwordBE(Peek(f, c), Peek(f, c + 1), Peek(f, c + 2), Peek(f, c + 3))
                && s.Cursor() == Advance(|f|, c, 4)
  {
    hide FileHandle.Logged, WordBE;
    w := s.ReadChar();
    var y := s.ReadChar();
    w := WordBE(w, y);
    y := s.ReadChar();
    w := WordBE(w, y);
    y := s.ReadChar();
    w := WordBE(w, y);
  }

  method ReadDwordLE(s: Stream) returns (w: bv32)
    requires s.Valid() && s.fd.Logged()
    modifies s, s.buffer, s.fd
    ensures s.Valid() && s.fd.Logged()
    ensures s.fd.device != Faulty
            ==> var f, c := s.fd.content, old(s.Cursor());
                && w == DwordLE(Peek(f, c), Peek(f, c + 1), Peek(f, c + 2), Peek(f, c + 3))
                && s.Cursor() == Advance(|f|, c, 4)
  {
    hide FileHandle.Logged, Or8, Or16, Or24;
    w := s.ReadChar();
    var y := s.ReadChar();
    w := Or8(w, y);
    y := s.ReadChar();
    w := Or16(w, y);
    y := s.ReadChar();
    w := Or24(w, y);
  }

  /** Appending a byte is multiplying by 256 and adding. */
  lemma AppendByte(w: bv32, c: bv32)
    requires w <= 0xffffff && c <= 0xff
    ensures WordBE(w, c) == 0x100 * w + c && (w <= 0xffff ==> WordBE(w, c) <= 0xffffff) && (w <= 0xff ==> WordBE(w, c) <= 0xffff)
  {
  }

  lemma OtherEnd(a: bv32, b: bv32, c: bv32, d: bv32)
    ensures WordLE(a, b) == WordBE(b, a)
    ensures DwordLE(a, b, c, d) == DwordBE(d, c, b, a)
  {
  }

  // A byte appended below a number.
  function Below(w: bv32, c: bv32): bv32 { 0x100 * w + c }

  lemma AppendBelow(w: bv32, c: bv32)
    requires w <= 0xffffff && c <= 0xff
    ensures WordBE(w, c) == Below(w, c) && (w <= 0xffff ==> WordBE(w, c) <= 0xffffff) && (w <= 0xff ==> WordBE(w, c) <= 0xffff)
  {
    AppendByte(w, c);
  }

  /** The numbers that bytes make up, each byte appended below the others: in a big-endian word from
      the first on, in a little-endian one from the last. */
  lemma WordValues(a: bv32, b: bv32, c: bv32, d: bv32)
    requires a <= 0xff && b <= 0xff && c <= 0xff && d <= 0xff
    ensures WordBE(a, b) == Below(a, b) && WordLE(a, b) == Below(b, a)
    ensures Int24(a, b, c) == Below(Below(a, b), c)
    ensures DwordBE(a, b, c, d) == Below(Below(Below(a, b), c), d)
    ensures DwordLE(a, b, c, d) == Below(Below(Below(d, c), b), a)
  {
    hide WordBE, WordLE, Or8, Or16, Or24, Below;
    OtherEnd(a, b, c, d);
    AppendBelow(a, b);
    AppendBelow(b, a);
    AppendBelow(WordBE(a, b), c);
    AppendBelow(Int24(a, b, c), d);
    AppendBelow(d, c);
    AppendBelow(WordBE(d, c), b);
    AppendBelow(Int24(d, c, b), a);
  }

  // What a peek can be.
  ghost predicate IsAnswer(x: bv32) { x == EOF || x <= 0xff }

  lemma PeekIsAnswer(f: seq<bv8>, c: nat)
    ensures IsAnswer(Peek(f, c))
    ensures Peek(f, c) == EOF ==> Peek(f, c + 1) == EOF
  {
  }

  /** The big-endian word and the 24-bit integer answer EOF exactly when the file is too short. */
  lemma ShortWord(f: seq<bv8>, c: nat)
    ensures WordBE(Peek(f, c), Peek(f, c + 1)) == EOF <==> c + 2 > |f|
    ensures Int24(Peek(f, c), Peek(f, c + 1), Peek(f, c + 2)) == EOF <==> c + 3 > |f|
    ensures WordLE(Peek(f, c), Peek(f, c + 1)) > 0xffff <==> c + 2 > |f|
  {
    PeekIsAnswer(f, c);
    PeekIsAnswer(f, c + 1);
    PeekIsAnswer(f, c + 2);
  }

  /** The big-endian double word answers EOF when the file is too short, and for one value
      of four bytes that are there. */
  lemma ShortDword(f: seq<bv8>, c: nat)
    ensures DwordBE(Peek(f, c), Peek(f, c + 1), Peek(f, c + 2), Peek(f, c + 3)) == EOF
            <==> c + 4 > |f| || f[c..c + 4] == [0xff, 0xff, 0xff, 0x00]
  {
    PeekIsAnswer(f, c);
    PeekIsAnswer(f, c + 1);
    PeekIsAnswer(f, c + 2);
    PeekIsAnswer(f, c + 3);
    if c + 4 <= |f| {
      assert f[c..c + 4] == [f[c], f[c + 1], f[c + 2], f[c + 3]];
    }
  }

  /** The little-endian double word hides a short read: with fewer than four bytes left it
      answers what the file would give that had the bytes 00 FF FF FF behind its end. */
  lemma ShortDwordLE(f: seq<bv8>, c: nat)
    requires c <= |f| < c + 4
    ensures var g := f + [0x00, 0xff, 0xff, 0xff][..c + 4 - |f|];
            && c + 4 == |g|
            && DwordLE(Peek(f, c), Peek(f, c + 1), Peek(f, c + 2), Peek(f, c + 3))
               == DwordLE(Peek(g, c), Peek(g, c + 1), Peek(g, c + 2), Peek(g, c + 3))
  {
    hide DwordLE;
    var n := |f|;
    var pad: seq<bv8> := [0x00, 0xff, 0xff, 0xff][..c + 4 - n];
    var g := f + pad;
    forall k: nat | c <= k < c + 4
      ensures Peek(g, k) == if k < n then Peek(f, k) else pad[k - n] as bv32
    {
    }
    ShortAssembly(Peek(f, c), Peek(f, c + 1), Peek(f, c + 2));
  }

  /** So it answers EOF, as documented for a short read, exactly if no byte is left, and for one
      value of four bytes that are there. */
  lemma ShortDwordLEAnswer(f: seq<bv8>, c: nat)
    ensures DwordLE(Peek(f, c), Peek(f, c + 1), Peek(f, c + 2), Peek(f, c + 3)) == EOF
            <==> c >= |f| || (c + 4 <= |f| && f[c..c + 4] == [0x00, 0xff, 0xff, 0xff])
  {
    hide DwordLE;
    PeekIsAnswer(f, c);
    PeekIsAnswer(f, c + 1);
    PeekIsAnswer(f, c + 2);
    PeekIsAnswer(f, c + 3);
    WhenSentinel(Peek(f, c), Peek(f, c + 1), Peek(f, c + 2), Peek(f, c + 3));
    if c + 4 <= |f| {
      assert f[c..c + 4] == [f[c], f[c + 1], f[c + 2], f[c + 3]];
    }
  }

  lemma WhenSentinel(a: bv32, b: bv32, c: bv32, d: bv32)
    requires IsAnswer(a) && IsAnswer(b) && IsAnswer(c) && IsAnswer(d)
    requires (a == EOF ==> b == EOF) && (b == EOF ==> c == EOF) && (c == EOF ==> d == EOF)
    ensures DwordLE(a, b, c, d) == EOF <==> a == EOF || (a == 0x00 && b == c == d == 0xff)
  {
  }

  // The sentinel shifted into place reads like the bytes 00 FF FF FF.
  lemma ShortAssembly(a: bv32, b: bv32, c: bv32)
    ensures DwordLE(EOF, EOF, EOF, EOF) == DwordLE(0x00, 0xff, 0xff, 0xff)
    ensures DwordLE(a, EOF, EOF, EOF) == DwordLE(a, 0x00, 0xff, 0xff)
    ensures DwordLE(a, b, EOF, EOF) == DwordLE(a, b, 0x00, 0xff)
    ensures DwordLE(a, b, c, EOF) == DwordLE(a, b, c, 0x00)
  {
  }

  /** At one cursor the big-endian reads are the swaps of the little-endian ones. */
  lemma SwappedReads(f: seq<bv8>, c: nat)
    ensures c + 2 <= |f| ==> WordBE(Peek(f, c), Peek(f, c + 1)) == BSwap16(WordLE(Peek(f, c), Peek(f, c + 1)))
    ensures c + 4 <= |f|
            ==> DwordBE(Peek(f, c), Peek(f, c + 1), Peek(f, c + 2), Peek(f, c + 3))
                == BSwap32(DwordLE(Peek(f, c), Peek(f, c + 1), Peek(f, c + 2), Peek(f, c + 3)))
  {
    if c + 2 <= |f| {
      SwapWord(Peek(f, c), Peek(f, c + 1));
    }
    if c + 4 <= |f| {
      SwapDword(Peek(f, c), Peek(f, c + 1), Peek(f, c + 2), Peek(f, c + 3));
    }
  }

  lemma SwapWord(a: bv32, b: bv32)
    requires a <= 0xff && b <= 0xff
    ensures WordBE(a, b) == BSwap16(WordLE(a, b))
  {
  }

  lemma SwapDword(a: bv32, b: bv32, c: bv32, d: bv32)
    requires a <= 0xff && b <= 0xff && c <= 0xff && d <= 0xff
    ensures DwordBE(a, b, c, d) == BSwap32(DwordLE(a, b, c, d))
  {
  }

  lemma SwapTwice(x: bv32)
    ensures BSwap32(BSwap32(x)) == x
    ensures x <= 0xffff ==> BSwap16(BSwap16(x)) == x
  {
  }

  // ---- Quad words ----

  // A 64-bit number as its high and low double words.
  datatype Qword = Qword(hi: bv32, lo: bv32)

  // (y << 8) | c in 64 bits: the int EOF is extended with its sign.
  function Push(y: Qword, c: bv32): Qword {
    Qword((y.hi << 8) | (y.lo >> 24) | (if c == EOF then 0xFFFFFFFF else 0), (y.lo << 8) | c)
  }

  // What n answers from the offset on assemble to.
  function Pushed(f: seq<bv8>, c: nat, n: nat): Qword {
    if n == 0 then Qword(0, 0) else Push(Pushed(f, c, n - 1), Peek(f, c + n - 1))
  }

  // Half of stream_read_qword.
  method ReadFour(s: Stream, y: Qword, ghost c: nat, ghost n: nat) returns (y': Qword)
    requires s.Valid() && s.fd.Logged()
    requires s.fd.device != Faulty ==> y == Pushed(s.fd.content, c, n) && s.Cursor() == Advance(|s.fd.content|, c, n)
    modifies s, s.buffer, s.fd
    ensures s.Valid() && s.fd.Logged()
    ensures s.fd.device != Faulty
            ==> y' == Pushed(s.fd.content, c, n + 4) && s.Cursor() == Advance(|s.fd.content|, c, n + 4)
  {
    hide Push, FileHandle.Logged;
    y' := y;
    for i := 0 to 4
      invariant s.Valid() && s.fd.Logged()
      invariant s.fd.device != Faulty
                ==> y' == Pushed(s.fd.content, c, n + i) && s.Cursor() == Advance(|s.fd.content|, c, n + i)
    {
      var x := s.ReadChar();
      y' := Push(y', x);
    }
  }

  /** stream_read_qword. */
  method ReadQword(s: Stream) returns (y: Qword)
    requires s.Valid() && s.fd.Logged()
    modifies s, s.buffer, s.fd
    ensures s.Valid() && s.fd.Logged()
    ensures s.fd.device != Faulty
            ==> var f, c := s.fd.content, old(s.Cursor()); y == Pushed(f, c, 8) && s.Cursor() == Advance(|f|, c, 8)
  {
    hide Push, FileHandle.Logged;
    y := ReadFour(s, Qword(0, 0), s.Cursor(), 0);
    y := ReadFour(s, y, old(s.Cursor()), 4);
  }

  // The double words, big-endian and little-endian, at an offset.
  function BE(f: seq<bv8>, c: nat): bv32 { DwordBE(Peek(f, c), Peek(f, c + 1), Peek(f, c + 2), Peek(f, c + 3)) }

  function LE(f: seq<bv8>, c: nat): bv32 { DwordLE(Peek(f, c), Peek(f, c + 1), Peek(f, c + 2), Peek(f, c + 3)) }

  // A quad word y with one, two or three bytes pushed: the bytes w fill the low end.
  function Part1(y: Qword, w: bv32): Qword { Qword((y.hi << 8) | (y.lo >> 24), (y.lo << 8) | w) }

  function Part2(y: Qword, w: bv32): Qword { Qword((y.hi << 16) | (y.lo >> 16), (y.lo << 16) | w) }

  function Part3(y: Qword, w: bv32): Qword { Qword((y.hi << 24) | (y.lo >> 8), (y.lo << 24) | w) }

  lemma FirstByte(y: Qword, a: bv32)
    requires a <= 0xff
    ensures Push(y, a) == Part1(y, a)
  {
  }

  lemma SecondByte(y: Qword, w: bv32, b: bv32)
    requires w <= 0xff && b <= 0xff
    ensures Push(Part1(y, w), b) == Part2(y, WordBE(w, b)) && WordBE(w, b) <= 0xffff
  {
  }

  lemma ThirdByte(y: Qword, w: bv32, c: bv32)
    requires w <= 0xffff && c <= 0xff
    ensures Push(Part2(y, w), c) == Part3(y, WordBE(w, c)) && WordBE(w, c) <= 0xffffff
  {
  }

  lemma FourthByte(y: Qword, w: bv32, d: bv32)
    requires w <= 0xffffff && d <= 0xff
    ensures Push(Part3(y, w), d) == Qword(y.lo, WordBE(w, d))
  {
  }

  lemma FourPushed(y: Qword, a: bv32, b: bv32, c: bv32, d: bv32)
    requires a <= 0xff && b <= 0xff && c <= 0xff && d <= 0xff
    ensures Push(Push(Push(Push(y, a), b), c), d) == Qword(y.lo, DwordBE(a, b, c, d))
  {
    hide Push, Part1, Part2, Part3, WordBE;
    FirstByte(y, a);
    SecondByte(y, a, b);
    ThirdByte(y, WordBE(a, b), c);
    FourthByte(y, Int24(a, b, c), d);
  }

  lemma NextFour(f: seq<bv8>, c: nat, n: nat)
    requires c + n + 4 <= |f|
    ensures Pushed(f, c, n + 4) == Qword(Pushed(f, c, n).lo, BE(f, c + n))
    ensures Pushed(f, c, 0) == Qword(0, 0)
  {
    hide Push;
    FourPushed(Pushed(f, c, n), Peek(f, c + n), Peek(f, c + n + 1), Peek(f, c + n + 2), Peek(f, c + n + 3));
    assert Pushed(f, c, n + 2) == Push(Push(Pushed(f, c, n), Peek(f, c + n)), Peek(f, c + n + 1));
  }

  /** A quad word that is there is its two big-endian double words. */
  lemma QwordHalves(f: seq<bv8>, c: nat)
    requires c + 8 <= |f|
    ensures Pushed(f, c, 8) == Qword(BE(f, c), BE(f, c + 4))
  {
    hide Pushed;
    NextFour(f, c, 0);
    NextFour(f, c, 4);
  }

  lemma AllOnes(f: seq<bv8>, c: nat)
    requires c + 4 <= |f|
    ensures BE(f, c) == 0xFFFFFFFF <==> f[c..c + 4] == [0xff, 0xff, 0xff, 0xff]
  {
    assert f[c..c + 4] == [f[c], f[c + 1], f[c + 2], f[c + 3]];
  }

  /** The quad word answers EOF in 64 bits when the file is too short, and for one value of
      eight bytes that are there. */
  lemma ShortQword(f: seq<bv8>, c: nat)
    ensures Pushed(f, c, 8) == Qword(0xFFFFFFFF, EOF)
            <==> c + 8 > |f| || f[c..c + 8] == [0xff, 0xff, 0xff, 0xff, 0xff, 0xff, 0xff, 0x00]
  {
    if c + 8 > |f| {
      assert Peek(f, c + 7) == EOF;
    } else {
      QwordHalves(f, c);
      AllOnes(f, c);
      ShortDword(f, c + 4);
      hide Pushed, DwordBE;
      assert f[c..c + 8] == f[c..c + 4] + f[c + 4..c + 8];
      SplitFour(f[c..c + 4], f[c + 4..c + 8], [0xff, 0xff, 0xff, 0xff], [0xff, 0xff, 0xff, 0x00]);
    }
  }

  lemma SplitFour(a: seq<bv8>, b: seq<bv8>, x: seq<bv8>, y: seq<bv8>)
    requires |a| == |x|
    ensures a + b == x + y <==> a == x && b == y
  {
    if a + b == x + y {
      assert a == (a + b)[..|a|] && b == (a + b)[|a|..];
    }
  }

  // ByteSwap64: the union of a 64-bit number with two double words, on a host of either byte
  // order.
  function ByteSwap64(x: Qword, bigEndianHost: bool): Qword {
    var w := if bigEndianHost then [x.hi, x.lo] else [x.lo, x.hi];
    var r := [BSwap32(w[1]), BSwap32(w[0])];
    if bigEndianHost then Qword(r[0], r[1]) else Qword(r[1], r[0])
  }

  /** The swap does not depend on the host, undoes itself, and turns the big-endian reading of
      eight bytes into the little-endian one. */
  lemma SwapQword(x: Qword, host: bool, host': bool)
    ensures ByteSwap64(x, host) == ByteSwap64(x, host')
    ensures ByteSwap64(ByteSwap64(x, host), host') == x
  {
    SwapTwice(x.hi);
    SwapTwice(x.lo);
    hide BSwap32;
  }

  lemma SwappedQword(f: seq<bv8>, c: nat, host: bool)
    requires c + 8 <= |f|
    ensures ByteSwap64(Pushed(f, c, 8), host) == Qword(LE(f, c + 4), LE(f, c))
  {
    hide Pushed, BSwap32;
    QwordHalves(f, c);
    SwappedReads(f, c);
    SwappedReads(f, c + 4);
    SwapTwice(LE(f, c));
    SwapTwice(LE(f, c + 4));
    hide DwordBE, DwordLE;
  }
}
