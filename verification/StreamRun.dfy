/** Whole runs of the buffered stream against a flat file with a cursor. */
module StreamRun {
  import opened Basics
  import opened Storage
  import opened Stream

  type Offset = n: nat | n < U32

  datatype Op = OpChar | OpRead(n: nat) | OpSkip(len: Offset) | OpSeek(target: Offset) | OpTell

  datatype Answer = Byte(c: bv32) | Bytes(got: seq<bv8>) | Flag(ok: nat) | At(offset: nat)

  // ---- The flat file ----

  function SeekCursor(size: nat, target: nat): nat {
    if target <= size then target else BlockBase(target)
  }

  /** Where one operation leaves the cursor. */
  function FlatCursor(size: nat, c: nat, op: Op): nat {
    match op
    case OpChar => Advance(size, c, 1)
    case OpRead(n) => Advance(size, c, n)
    case OpSkip(len) =>
      if len <= 2 * STREAM_BUFFER_SIZE then Advance(size, c, len) else SeekCursor(size, (c + len) % U32)
    case OpSeek(target) => SeekCursor(size, target)
    case OpTell => c
  }

  // A seek into the file succeeds, one behind its end fails; only for a block start behind
  // the end the flat file leaves the answer open.
  ghost predicate SeekFlag(size: nat, target: nat, a: Answer) {
    && a.Flag? && a.ok <= 1
    && (target <= size ==> a.ok == 1)
    && (target > size && BlockBase(target) != target ==> a.ok == 0)
  }

  /** What one operation may answer. */
  ghost predicate FlatAnswer(content: seq<bv8>, c: nat, op: Op, a: Answer) {
    var size := |content|;
    match op
    case OpChar => a == Byte(Peek(content, c))
    case OpRead(n) => a == Bytes(if c < size then content[c..Advance(size, c, n)] else [])
    case OpSkip(len) =>
      if len <= 2 * STREAM_BUFFER_SIZE then a == Flag(if Advance(size, c, len) == c + len then 1 else 0)
      else SeekFlag(size, (c + len) % U32, a)
    case OpSeek(target) => SeekFlag(size, target, a)
    case OpTell => a == At(c)
  }

  /** The cursor after a run. */
  function FlatRun(size: nat, c: nat, ops: seq<Op>): nat {
    if ops == [] then c
    else FlatCursor(size, FlatRun(size, c, ops[..|ops| - 1]), ops[|ops| - 1])
  }

  /** Every answer of the run is one that the flat file gives at that point of the run. */
  ghost predicate Agrees(content: seq<bv8>, c: nat, ops: seq<Op>, answers: seq<Answer>) {
    && |answers| == |ops|
    && forall i :: 0 <= i < |ops|
         ==> FlatAnswer(content, FlatRun(|content|, c, ops[..i]), ops[i], answers[i])
  }

  lemma AgreesStep(content: seq<bv8>, c: nat, ops: seq<Op>, answers: seq<Answer>, op: Op, a: Answer)
    requires Agrees(content, c, ops, answers)
    requires FlatAnswer(content, FlatRun(|content|, c, ops), op, a)
    ensures Agrees(content, c, ops + [op], answers + [a])
    ensures FlatRun(|content|, c, ops + [op]) == FlatCursor(|content|, FlatRun(|content|, c, ops), op)
  {
    var ops', answers' := ops + [op], answers + [a];
    assert ops'[..|ops|] == ops;
    forall i | 0 <= i < |ops'|
      ensures FlatAnswer(content, FlatRun(|content|, c, ops'[..i]), ops'[i], answers'[i])
    {
      if i < |ops| {
        assert ops'[..i] == ops[..i];
      }
    }
  }

  // ---- The buffered stream ----

  // The operations whose answers a device gives exactly: all of them when every read delivers
  // what was asked for; all but the long seeks when reads may be short.
  ghost predicate Exact(device: Device, op: Op) {
    match device
    case Perfect => true
    case ShortReads => !op.OpSeek? && !(op.OpSkip? && op.len > 2 * STREAM_BUFFER_SIZE)
    case Faulty => false
  }

  method Perform(s: Stream, op: Op) returns (a: Answer)
    requires s.Valid() && s.fd.Logged() && Exact(s.fd.device, op)
    modifies s, s.buffer, s.fd
    ensures s.Valid() && s.fd.Logged()
    ensures s.Cursor() == FlatCursor(|s.fd.content|, old(s.Cursor()), op)
    ensures FlatAnswer(s.fd.content, old(s.Cursor()), op, a)
  {
    hide FileHandle.Logged;
    match op
    case OpChar =>
      var c := s.ReadChar();
      a := Byte(c);
    case OpRead(n) =>
      a := PerformRead(s, n);
    case OpSkip(len) =>
      var ok := s.Skip(len);
      a := Flag(ok);
    case OpSeek(target) =>
      var ok := s.Seek(target);
      a := Flag(ok);
    case OpTell =>
      var here := s.Tell();
      a := At(here);
  }

  method PerformRead(s: Stream, n: nat) returns (a: Answer)
    requires s.Valid() && s.fd.Logged() && s.fd.device != Faulty
    modifies s, s.buffer, s.fd
    ensures s.Valid() && s.fd.Logged()
    ensures s.Cursor() == FlatCursor(|s.fd.content|, old(s.Cursor()), OpRead(n))
    ensures FlatAnswer(s.fd.content, old(s.Cursor()), OpRead(n), a)
  {
    hide FileHandle.Logged;
    ghost var c := s.Cursor();
    var mem := new bv8[n];
    var r := s.Read(mem, 0, n);
    a := Bytes(mem[..r]);
    if r > 0 {
      assert mem[..r] == s.fd.content[c..s.Cursor()];
    }
  }

  // One operation of an interleaved run: on the video stream or on the audio stream.
  datatype Turn = Video(op: Op) | Audio(op: Op)

  function VideoOps(run: seq<Turn>): seq<Op> {
    if run == [] then [] else VideoOps(run[..|run| - 1]) + VideoPart(run[|run| - 1])
  }

  function AudioOps(run: seq<Turn>): seq<Op> {
    if run == [] then [] else AudioOps(run[..|run| - 1]) + AudioPart(run[|run| - 1])
  }

  function VideoPart(t: Turn): seq<Op> {
    if t.Video? then [t.op] else []
  }

  function AudioPart(t: Turn): seq<Op> {
    if t.Audio? then [t.op] else []
  }

  /** The operations of each stream are those of its turns, in order. */
  lemma TurnsApart(run: seq<Turn>, op: Op)
    ensures VideoOps([]) == AudioOps([]) == []
    ensures VideoOps(run + [Video(op)]) == VideoOps(run) + [op] && AudioOps(run + [Video(op)]) == AudioOps(run)
    ensures AudioOps(run + [Audio(op)]) == AudioOps(run) + [op] && VideoOps(run + [Audio(op)]) == VideoOps(run)
  {
    assert (run + [Video(op)])[..|run|] == run && (run + [Audio(op)])[..|run|] == run;
  }

  lemma OpsOfPrefix(run: seq<Turn>, i: nat)
    requires i < |run|
    ensures VideoOps(run[..i + 1]) == VideoOps(run[..i]) + VideoPart(run[i])
    ensures AudioOps(run[..i + 1]) == AudioOps(run[..i]) + AudioPart(run[i])
  {
    assert run[..i + 1][..i] == run[..i];
  }

  // The stream has come from cursor c through the operations ops with these answers.
  ghost predicate Tracks(s: Stream, c: nat, ops: seq<Op>, answers: seq<Answer>)
    reads s, s.buffer
    requires s.Valid()
  {
    Agrees(s.fd.content, c, ops, answers) && s.Cursor() == FlatRun(|s.fd.content|, c, ops)
  }

  lemma StartTracks(s: Stream)
    requires s.Valid()
    ensures Tracks(s, s.Cursor(), [], [])
  {
  }

  method PerformNext(s: Stream, op: Op, ghost c: nat, ghost ops: seq<Op>, answers: seq<Answer>)
    returns (answers': seq<Answer>)
    requires s.Valid() && s.fd.Logged() && Exact(s.fd.device, op) && Tracks(s, c, ops, answers)
    modifies s, s.buffer, s.fd
    ensures s.Valid() && s.fd.Logged() && Tracks(s, c, ops + [op], answers')
  {
    hide FileHandle.Logged;
    var a := Perform(s, op);
    AgreesStep(s.fd.content, c, ops, answers, op, a);
    answers' := answers + [a];
  }

  method TakeTurn(v: Stream, a: Stream, t: Turn, ghost c: nat, ghost d: nat,
                  ghost vOps: seq<Op>, ghost aOps: seq<Op>, vs: seq<Answer>, bs: seq<Answer>)
    returns (vs': seq<Answer>, bs': seq<Answer>)
    requires v != a && v.buffer != a.buffer && v.fd == a.fd && Exact(v.fd.device, t.op)
    requires v.Valid() && Tracks(v, c, vOps, vs) && v.fd.Logged()
    requires a.Valid() && Tracks(a, d, aOps, bs)
    modifies v, v.buffer, a, a.buffer, v.fd
    ensures v.Valid() && Tracks(v, c, vOps + VideoPart(t), vs') && v.fd.Logged()
    ensures a.Valid() && Tracks(a, d, aOps + AudioPart(t), bs')
  {
    hide Tracks, Stream.Valid, Exact, FileHandle.Logged;
    vs', bs' := vs, bs;
    assert vOps + [] == vOps && aOps + [] == aOps;
    match t
    case Video(op) => vs' := PerformNext(v, op, c, vOps, vs);
    case Audio(op) => bs' := PerformNext(a, op, d, aOps, bs);
  }

  /** Any interleaving of any operations on two streams that share one file handle: each
      stream answers as a flat file of its own would, untouched by the other, whatever
      pieces the reads come in. */
  method Interleave(v: Stream, a: Stream, run: seq<Turn>) returns (vs: seq<Answer>, bs: seq<Answer>)
    requires v != a && v.buffer != a.buffer && v.fd == a.fd
    requires forall i :: 0 <= i < |run| ==> Exact(v.fd.device, run[i].op)
    requires v.Valid() && a.Valid() && v.fd.Logged()
    modifies v, v.buffer, a, a.buffer, v.fd
    ensures v.Valid() && Tracks(v, old(v.Cursor()), VideoOps(run), vs) && v.fd.Logged()
    ensures a.Valid() && Tracks(a, old(a.Cursor()), AudioOps(run), bs)
  {
    hide FileHandle.Logged, Tracks;
    StartTracks(v);
    StartTracks(a);
    vs, bs := [], [];
    ghost var c, d, vOps, aOps := v.Cursor(), a.Cursor(), [], [];
    for i := 0 to |run|
      invariant vOps == VideoOps(run[..i]) && aOps == AudioOps(run[..i])
      invariant v.Valid() && Tracks(v, c, vOps, vs) && v.fd.Logged()
      invariant a.Valid() && Tracks(a, d, aOps, bs)
    {
      vs, bs := TakeTurn(v, a, run[i], c, d, vOps, aOps, vs, bs);
      OpsOfPrefix(run, i);
      vOps, aOps := vOps + VideoPart(run[i]), aOps + AudioPart(run[i]);
    }
    assert run[..|run|] == run;
  }

  /** A failed seek is not repeatable: asked again for the same block start that the medium
      refused, the stream answers success, with its cursor behind the end. */
  method SeekTwice(s: Stream, target: Offset) returns (first: nat, second: nat)
    requires s.Valid() && s.fd.Logged() && s.fd.device == Perfect
    requires target > |s.fd.content| && !s.fd.Seekable(target) && BlockBase(target) == target && s.pos != target
    modifies s, s.buffer, s.fd
    ensures s.Valid() && s.fd.Logged() && s.Cursor() == target > |s.fd.content|
    ensures first == 0 && second == 1
  {
    hide FileHandle.Logged;
    first := s.Seek(target);
    second := s.Seek(target);
  }

  // The next byte in the window.
  ghost predicate Unread(s: Stream, b: bv8)
    reads s, s.buffer
  {
    s.bufPos < s.bufLen && s.bufPos < s.buffer.Length && s.buffer[s.bufPos] == b
  }

  /** A stream that has met the end of its file and gone back still counts as at the end, with
      bytes unread in its window: its reset does not rewind it, but breaks the window. */
  method ResetTooLate(s: Stream, target: Offset) returns (c: bv32)
    requires s.Valid() && s.fd.Logged() && s.fd.device == Perfect && target < |s.fd.content|
    modifies s, s.buffer, s.fd
    ensures c == EOF && !s.Valid() && s.pos == 0 && !s.eof
    ensures Unread(s, s.fd.content[target])
  {
    hide FileHandle.Logged;
    var _ := s.Seek(|s.fd.content|);
    c := s.ReadChar();
    var _ := s.Seek(target);
    s.Reset();
  }

  // ---- Laws of the flat file, hence of the stream ----

  // The bytes handed out by a run of byte reads and bulk reads.
  function Delivered(content: seq<bv8>, c: nat, n: nat): (r: seq<bv8>) {
    if c < |content| then content[c..Advance(|content|, c, n)] else []
  }

  /** Reading a and then b bytes is reading a + b bytes. */
  lemma ReadSplits(content: seq<bv8>, c: nat, a: nat, b: nat)
    ensures var mid := FlatCursor(|content|, c, OpRead(a));
            && FlatCursor(|content|, mid, OpRead(b)) == FlatCursor(|content|, c, OpRead(a + b))
            && Delivered(content, c, a) + Delivered(content, mid, b) == Delivered(content, c, a + b)
  {
  }

  function Chars(n: nat): (ops: seq<Op>)
    ensures |ops| == n
  {
    if n == 0 then [] else Chars(n - 1) + [OpChar]
  }

  lemma {:induction false} CharsAdvance(size: nat, c: nat, n: nat)
    ensures FlatRun(size, c, Chars(n)) == Advance(size, c, n)
  {
    if n > 0 {
      CharsAdvance(size, c, n - 1);
      assert Chars(n)[..n - 1] == Chars(n - 1);
    }
  }

  /** Reading n bytes is n byte reads: same cursor, and byte i of the one is answer i of the
      other, which is the end-of-file answer from the first missing byte on. */
  lemma ReadIsChars(content: seq<bv8>, c: nat, n: nat, i: nat, a: Answer)
    requires i < n && FlatAnswer(content, FlatRun(|content|, c, Chars(i)), OpChar, a)
    ensures FlatRun(|content|, c, Chars(n)) == FlatCursor(|content|, c, OpRead(n))
    ensures var got := Delivered(content, c, n);
            a == Byte(if i < |got| then got[i] as bv32 else EOF)
  {
    hide FlatRun, Chars;
    CharsAdvance(|content|, c, n);
    CharsAdvance(|content|, c, i);
    AdvanceBy(|content|, c, i);
    AdvanceBy(|content|, c, n);
  }

  lemma AdvanceBy(size: nat, c: nat, n: nat)
    ensures Advance(size, c, n) == if c >= size then c else Min(c + n, size)
  {
  }

  /** Skipping up to two buffers is reading and discarding; it fails exactly if the read is short. */
  lemma SkipIsRead(content: seq<bv8>, c: nat, len: Offset, a: Answer)
    requires len <= 2 * STREAM_BUFFER_SIZE && FlatAnswer(content, c, OpSkip(len), a)
    ensures FlatCursor(|content|, c, OpSkip(len)) == FlatCursor(|content|, c, OpRead(len))
    ensures a == Flag(1) <==> |Delivered(content, c, len)| == len
  {
  }

  /** A large skip inside the file advances, and the 32-bit image of a negative number goes back. */
  lemma LargeSkip(content: seq<bv8>, c: nat, n: nat, a: Answer)
    requires c <= |content| < U32
    ensures 2 * STREAM_BUFFER_SIZE < n && c + n <= |content| && FlatAnswer(content, c, OpSkip(n), a)
            ==> a == Flag(1) && FlatCursor(|content|, c, OpSkip(n)) == c + n
    ensures 0 < n <= c && 2 * STREAM_BUFFER_SIZE < U32 - n && FlatAnswer(content, c, OpSkip(U32 - n), a)
            ==> a == Flag(1) && FlatCursor(|content|, c, OpSkip(U32 - n)) == c - n
  {
  }

  /** A seek into the file, its end included, goes to its target; one behind the end goes to the
      start of the block of 64 KiB, and fails unless that is its target. */
  lemma SeekMeans(content: seq<bv8>, c: nat, target: Offset, a: Answer)
    requires FlatAnswer(content, c, OpSeek(target), a)
    ensures target <= |content| ==> a == Flag(1) && FlatCursor(|content|, c, OpSeek(target)) == target
    ensures target > |content| ==> FlatCursor(|content|, c, OpSeek(target)) == target / 65536 * 65536
    ensures target > |content| && target % 65536 != 0 ==> a == Flag(0)
  {
  }

  /** Behind the end of the file a skip of up to 128 KiB stops there, and a longer one goes to the
      start of the block of its target. */
  lemma SkipBehind(content: seq<bv8>, c: nat, n: Offset)
    requires c <= |content| < c + n < U32
    ensures n <= 131072 ==> FlatCursor(|content|, c, OpSkip(n)) == |content|
    ensures n > 131072 ==> FlatCursor(|content|, c, OpSkip(n)) == (c + n) / 65536 * 65536
  {
  }

  /** After a seek into the file nothing that went before matters. */
  lemma SeekForgets(content: seq<bv8>, c: nat, d: nat, target: Offset, ops: seq<Op>, answers: seq<Answer>)
    requires target <= |content|
    ensures Agrees(content, c, [OpSeek(target)] + ops, answers) <==> Agrees(content, d, [OpSeek(target)] + ops, answers)
  {
    forall i | 0 < i <= |ops| + 1
      ensures FlatRun(|content|, c, ([OpSeek(target)] + ops)[..i]) == FlatRun(|content|, d, ([OpSeek(target)] + ops)[..i])
    {
      SameAfterSeek(|content|, c, d, ([OpSeek(target)] + ops)[..i]);
    }
  }

  lemma {:induction false} SameAfterSeek(size: nat, c: nat, d: nat, ops: seq<Op>)
    requires ops != [] && ops[0].OpSeek?
    ensures FlatRun(size, c, ops) == FlatRun(size, d, ops)
  {
    if |ops| > 1 {
      SameAfterSeek(size, c, d, ops[..|ops| - 1]);
    }
  }
}
