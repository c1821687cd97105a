/** The storage layer below the buffered stream: an open file and its position. */
module Storage {
  import opened Basics

  // The size of a stream's buffer: all reads of a stream ask for so much.
  const BLOCK: nat := 65536

  // How far the medium can be trusted. A Perfect one delivers every byte that was asked
  // for and exists; one with ShortReads delivers at least one of them; a Faulty one may
  // deliver none and may refuse to seek.
  datatype Device = Perfect | ShortReads | Faulty

  // What is asked of a handle: to go back to the start, a seek, or a read of some size.
  datatype Call = Rewind | SeekTo(position: nat) | ReadOf(size: nat)

  // A call and its outcome: the position before and after, and the bytes that were read.
  datatype Step = Step(from: nat, call: Call, ok: bool, got: seq<bv8>, to: nat)

  /** An open file handle: the bytes of the file and a 32-bit position. Several streams may share
      one handle. */
  class FileHandle {
    const content: seq<bv8>
    const clusterBytes: nat
    // The last offset that a seek to another cluster accepts: the file size rounded up to whole
    // clusters, in 32 bits.
    const reach: nat
    const device: Device
    var point: nat
    var log: seq<Step>   // the calls so far, kept for the record

    constructor (content: seq<bv8>, clusterBytes: nat, reach: nat, device: Device)
      ensures this.content == content && this.clusterBytes == clusterBytes && this.reach == reach
      ensures this.device == device && point == 0 && log == []
    {
      this.content, this.clusterBytes, this.reach, this.device, point := content, clusterBytes, reach, device, 0;
      log := [];
    }

    /** A handle that a stream can rely on: no sum of a position in the file and the size of the
        stream's buffer wraps, and the file is in reach of its seeks. */
    ghost predicate Valid() {
      clusterBytes > 0 && |content| <= reach && |content| <= U32 - BLOCK
    }

    // Whether a seek from p to q is accepted: in reach, within the cluster, or backwards into the
    // first cluster.
    predicate SeekableFrom(p: nat, q: nat) {
      || q <= reach
      || (clusterBytes > 0 && q / clusterBytes == p / clusterBytes)
      || (clusterBytes > 0 && q / clusterBytes == 0 && q < p)
    }

    predicate Seekable(position: nat)
      reads this
    {
      SeekableFrom(point, position)
    }

    /** What a seek from p to q may do: backwards, one that fails ends at the start. */
    ghost predicate MaySeek(p: nat, q: nat, ok: bool, to: nat) {
      && (device != Faulty ==> (ok <==> SeekableFrom(p, q)))
      && to == if ok then q else if q < p then 0 else p
    }

    /** What a read of size bytes at position p may do: report n bytes and leave the position at q.
        On a perfect device the file ends it, on one with short reads it may end earlier, but
        not without a byte; a faulty one may report fewer than it has moved over. */
    ghost predicate MayRead(p: nat, size: nat, n: nat, q: nat) {
      var all := if p < |content| then Min(size, |content| - p) else 0;
      match device
      case Perfect => n == all && q == p + n
      case ShortReads => n <= all && (all > 0 ==> n > 0) && q == p + n
      case Faulty => n <= all && p + n <= q <= p + all
    }

    // ---- Runs of calls ----

    /** A step that the handle may make. */
    ghost predicate MayStep(s: Step) {
      match s.call
      case Rewind => s.ok && s.got == [] && s.to == 0
      case SeekTo(position) => s.got == [] && MaySeek(s.from, position, s.ok, s.to)
      case ReadOf(size) =>
        && s.ok && s.from + |s.got| <= Max(s.from, |content|) && MayRead(s.from, size, |s.got|, s.to)
        && forall k :: 0 <= k < |s.got| ==> s.got[k] == content[s.from + k]
    }

    ghost predicate MayRun(steps: seq<Step>) {
      && (forall i :: 0 <= i < |steps| ==> MayStep(steps[i]))
      && (forall i :: 0 < i < |steps| ==> steps[i].from == steps[i - 1].to)
    }

    /** The log is a run from the start to the present position, of 32-bit seeks and of reads of
        the size of a stream's buffer. */
    ghost predicate Logged()
      reads this
    {
      && MayRun(log) && StreamCalls(log)
      && (if log == [] then point == 0 else log[0].from == 0 && log[|log| - 1].to == point)
    }

    method Log(call: Call, from: nat, ok: bool, got: seq<bv8>)
      modifies this`log
      ensures log == old(log) + [Step(from, call, ok, got, point)]
    {
      log := log + [Step(from, call, ok, got, point)];
    }

    lemma LogGrows(steps: seq<Step>, s: Step)
      requires MayRun(steps) && StreamCalls(steps) && MayStep(s) && StreamCall(s.call)
      requires if steps == [] then s.from == 0 else steps[0].from == 0 && steps[|steps| - 1].to == s.from
      ensures MayRun(steps + [s]) && StreamCalls(steps + [s]) && (steps + [s])[0].from == 0
    {
    }

    // ---- The calls ----

    /** SeekSet */
    method Rewind()
      modifies this
      ensures point == 0
      ensures old(Logged()) ==> Logged()
    {
      var from := point;
      point := 0;
      Log(Call.Rewind, from, true, []);
      if old(Logged()) { LogGrows(old(log), Step(from, Call.Rewind, true, [], 0)); }
    }

    /** Seek, on a faulty device perhaps in vain. */
    method Seek(position: nat) returns (r: int)
      requires position < U32
      modifies this
      ensures MaySeek(old(point), position, r >= 0, point)
      ensures old(Logged()) ==> Logged()
    {
      var from := point;
      var ok := Seekable(position);
      if device == Faulty {
        ok := *;
      }
      r := if ok then 0 else -1;
      if ok {
        point := position;
      } else if position < point {
        point := 0;
      }
      Log(SeekTo(position), from, ok, []);
      if old(Logged()) { LogGrows(old(log), Step(from, SeekTo(position), ok, [], point)); }
    }

    /** FileRead, as long as the sum of position and size has 32 bits; what it does otherwise in
        the file is not specified here. Nor is what lies in the buffer behind the bytes reported. */
    method Read(buffer: array<bv8>, size: nat) returns (n: nat)
      requires size <= buffer.Length
      modifies this, buffer
      ensures n <= size
      ensures old(point) + size < U32 || old(point) >= |content| ==> MayRead(old(point), size, n, point)
      ensures old(point) + size < U32 || old(point) >= |content| ==>
                forall k :: 0 <= k < n ==> old(point) + k < |content| && buffer[k] == content[old(point) + k]
      ensures old(Logged()) && Valid() && size == BLOCK ==> Logged()
    {
      var from := point;
      n := Transfer(buffer, size);
      Log(ReadOf(size), from, true, buffer[..n]);
      if old(Logged()) && Valid() && size == BLOCK {
        LogGrows(old(log), Step(from, ReadOf(size), true, buffer[..n], point));
      }
    }

    method Transfer(buffer: array<bv8>, size: nat) returns (n: nat)
      requires size <= buffer.Length
      modifies this`point, buffer
      ensures n <= size
      ensures old(point) + size < U32 || old(point) >= |content| ==> MayRead(old(point), size, n, point)
      ensures old(point) + size < U32 || old(point) >= |content| ==>
                forall k :: 0 <= k < n ==> old(point) + k < |content| && buffer[k] == content[old(point) + k]
    {
      if point >= |content| {
        return 0;
      }
      if point + size >= U32 {
        n, point := *, *;
        if n > size {
          n := size;
        }
        forall i | 0 <= i < n {
          buffer[i] := 0;
        }
        return;
      }
      var wanted := Min(size, |content| - point);
      match device {
        case Perfect => n := wanted;
        case ShortReads => n :| 0 <= n <= wanted && (wanted > 0 ==> n > 0);
        case Faulty => n :| 0 <= n <= wanted;
      }
      var moved := n;
      if device == Faulty {
        moved :| n <= moved <= wanted;
      }
      forall i | 0 <= i < n {
        buffer[i] := content[point + i];
      }
      point := point + moved;
    }
  }

  // The calls that a stream makes.
  ghost predicate StreamCall(c: Call) {
    match c
    case Rewind => true
    case SeekTo(position) => position < U32
    case ReadOf(size) => size == BLOCK
  }

  ghost predicate StreamCalls(steps: seq<Step>) {
    forall i :: 0 <= i < |steps| ==> StreamCall(steps[i].call)
  }
}

/** The buffered reader: a window over a file, refilled on demand. */
module Stream {
  import opened Basics
  import opened Storage

  const STREAM_BUFFER_SIZE: nat := BLOCK
  // The int -256, the end-of-file answer of a byte read, as its 32 bits.
  const EOF: bv32 := 0xFFFFFF00

  /** What an offset of the flat file holds: its byte, or the end-of-file answer. */
  function Peek(content: seq<bv8>, offset: nat): (c: bv32)
    ensures c == EOF <==> offset >= |content|
  {
    if offset < |content| then content[offset] as bv32 else EOF
  }

  /** The cursor after consuming up to n bytes from cursor c of a flat file. */
  function Advance(size: nat, c: nat, n: nat): (r: nat)
    ensures c <= r <= c + n
    ensures r == c + n || r >= size
  {
    if c + n <= size then c + n else if c >= size then c else size
  }

  function BlockBase(offset: nat): (r: nat)
    ensures r <= offset < r + STREAM_BUFFER_SIZE && r % 65536 == 0
  {
    offset / STREAM_BUFFER_SIZE * STREAM_BUFFER_SIZE
  }

  class Stream {
    const fd: FileHandle
    const buffer: array<bv8>
    const endPos: nat
    var bufPos: nat
    var bufLen: nat
    var pos: nat
    var eof: bool

    // The window: buffer[..bufLen] is the piece of the file that ends at pos.
    ghost predicate Window()
      reads this, buffer
      requires bufLen <= buffer.Length
    {
      && bufLen <= pos
      && (bufLen > 0 ==> pos <= |fd.content|)
      && forall k :: 0 <= k < bufLen ==> buffer[k] == fd.content[pos - bufLen + k]
    }

    // stream_reset leaves a consumed window in front of position 0.
    ghost predicate Rewound()
      reads this
    {
      pos == 0 && bufPos == bufLen
    }

    // The invariant does not mention fd.point: another stream may move it at any time.
    ghost predicate Valid()
      reads this, buffer
    {
      && fd.Valid()
      && endPos == |fd.content|
      && buffer.Length == STREAM_BUFFER_SIZE
      && bufPos <= bufLen <= STREAM_BUFFER_SIZE
      && pos < U32
      && (Window() || Rewound())
    }

    // The abstract state: the offset of the next byte in the flat file.
    ghost function Cursor(): nat
      reads this, buffer
      requires Valid()
    {
      pos + bufPos - bufLen
    }

    // open_file for a local file: at offset 0, with an empty window.
    constructor (handle: FileHandle, storage: array<bv8>)
      requires handle.Valid() && handle.Logged() && storage.Length == STREAM_BUFFER_SIZE
      modifies handle
      ensures fd == handle && buffer == storage
      ensures Valid() && fd.Logged() && Cursor() == 0 && bufLen == 0 && !eof
    {
      fd := handle;
      buffer := storage;
      endPos := |handle.content|;
      bufPos, bufLen, pos := 0, 0, 0;
      eof := false;
      new;
      handle.Rewind();
    }

    /** stream_fill_buffer, local device. */
    method Fill() returns (n: nat)
      requires Valid() && fd.Logged() && bufPos == bufLen
      modifies this, buffer, fd
      ensures Valid() && fd.Logged() && Cursor() == old(Cursor())
      ensures n == bufLen - bufPos
      ensures n > 0 ==> bufPos == 0 && eof == old(eof) && Cursor() < |fd.content|
      ensures n == 0 ==> bufLen <= old(bufLen)
      ensures n == 0 && fd.device != Faulty ==> Cursor() >= |fd.content| && eof
      ensures fd.device == Perfect && old(pos) < |fd.content|
              ==> n == Min(STREAM_BUFFER_SIZE, |fd.content| - old(pos))
      ensures old(eof) ==> eof
    {
      hide FileHandle.Logged;
      if pos >= |fd.content| {
        eof := true;
        return 0;
      }
      if pos != fd.point {
        var r := fd.Seek(pos);
        if r < 0 {
          return 0;
        }
      }
      var len := fd.Read(buffer, STREAM_BUFFER_SIZE);
      if len <= 0 {
        eof := true;
        bufPos, bufLen := 0, 0;
        return 0;
      }
      bufPos := 0;
      bufLen := len;
      pos := pos + len;
      assert pos <= endPos; // endPos is the file size, so nothing is ever cut off here
      n := bufLen;
    }

    /** stream_read_char */
    method ReadChar() returns (c: bv32)
      requires Valid() && fd.Logged()
      modifies this, buffer, fd
      ensures Valid() && fd.Logged()
      ensures c != EOF ==> c == Peek(fd.content, old(Cursor())) && Cursor() == old(Cursor()) + 1
      ensures c == EOF ==> Cursor() == old(Cursor())
      ensures fd.device != Faulty ==> c == Peek(fd.content, old(Cursor())) && (c == EOF ==> eof)
      ensures old(eof) ==> eof
    {
      hide FileHandle.Logged;
      if bufPos >= bufLen {
        var n := Fill();
        if n == 0 {
          return EOF;
        }
      }
      c := buffer[bufPos] as bv32;
      bufPos := bufPos + 1;
    }

    /** stream_tell: unsigned 32-bit arithmetic. */
    method Tell() returns (r: nat)
      requires Valid() && fd.Logged()
      ensures r == Cursor()
    {
      hide FileHandle.Logged;
      r := (pos + bufPos - bufLen) % U32;
    }

    /** stream_seek_long, local device. */
    method SeekLong(target: nat) returns (r: nat)
      requires Valid() && fd.Logged() && target < U32
      modifies this, buffer, fd
      ensures Valid() && fd.Logged() && r <= 1
      ensures Cursor() == if r == 1 then target else BlockBase(target)
      ensures fd.device == Perfect ==> (r == 1 <==> SeekAnswer(|fd.content|, old(fd.Seekable(target)), old(pos), target))
      ensures fd.device == Perfect && target < |fd.content| ==> bufPos < bufLen
      ensures old(eof) ==> eof
    {
      hide FileHandle.Logged;
      bufPos, bufLen := 0, 0;
      var newpos := BlockBase(target);
      var rest := target - newpos;
      if newpos == 0 || newpos != pos {
        var ok := fd.Seek(newpos);
        pos := newpos;
        if ok < 0 {
          return 0;
        }
      }
      var _ := Fill();
      if rest <= bufLen {
        bufPos := rest;
        return 1;
      }
      return 0;
    }

    /** stream_seek */
    method Seek(target: nat) returns (r: nat)
      requires Valid() && fd.Logged() && target < U32
      modifies this, buffer, fd
      ensures Valid() && fd.Logged() && r <= 1
      ensures Cursor() == if r == 1 then target else BlockBase(target)
      ensures fd.device == Perfect ==> (r == 1 <==> SeekAnswer(|fd.content|, old(fd.Seekable(target)), old(pos), target))
      ensures fd.device == Perfect && target < |fd.content| ==> bufPos < bufLen
      ensures old(eof) ==> eof
    {
      hide FileHandle.Logged;
      if target < pos && pos - target <= bufLen {
        bufPos := target - (pos - bufLen);
        return 1;
      }
      r := SeekLong(target);
    }

    /** stream_read: copies into mem from index at on; a total that is not positive is
        returned as it came. */
    method Read(mem: array<bv8>, at: nat, total: int) returns (r: int)
      requires Valid() && fd.Logged() && mem != buffer
      requires total > 0 ==> at + total <= mem.Length
      modifies this, buffer, fd, mem
      ensures Valid() && fd.Logged()
      ensures total <= 0 ==> r == total && Cursor() == old(Cursor())
      ensures total > 0 ==> 0 <= r <= total && Cursor() == old(Cursor()) + r
      ensures r > 0 ==> Cursor() <= |fd.content|
      ensures forall i :: 0 <= i < mem.Length
                ==> mem[i] == if at <= i < at + r then fd.content[old(Cursor()) + (i - at)] else old(mem[i])
      ensures total > 0 && fd.device != Faulty
              ==> Cursor() == Advance(|fd.content|, old(Cursor()), total)
      ensures old(eof) ==> eof
    {
      hide FileHandle.Logged;
      var len := total;
      var m := at;
      ghost var c0 := Cursor();
      while len > 0
        invariant Valid() && fd.Logged()
        invariant total > 0 ==> 0 <= len <= total && m == at + (total - len)
        invariant total <= 0 ==> len == total && m == at
        invariant Cursor() == c0 + (m - at)
        invariant m > at ==> Cursor() <= |fd.content|
        invariant forall i :: 0 <= i < mem.Length
                    ==> mem[i] == if at <= i < m then fd.content[c0 + (i - at)] else old(mem[i])
        invariant old(eof) ==> eof
      {
        var x := ReadPiece(mem, m, len);
        if x == 0 {
          return total - len;
        }
        m := m + x;
        len := len - x;
      }
      return total;
    }

    // One round of the loop in stream_read: nothing is delivered only at the end of the file.
    method ReadPiece(mem: array<bv8>, m: nat, len: nat) returns (x: nat)
      requires Valid() && fd.Logged() && mem != buffer
      requires 0 < len && m + len <= mem.Length
      modifies this, buffer, fd, mem
      ensures Valid() && fd.Logged() && x <= len && Cursor() == old(Cursor()) + x
      ensures x > 0 ==> Cursor() <= |fd.content|
      ensures x == 0 && fd.device != Faulty ==> Cursor() >= |fd.content|
      ensures forall i :: 0 <= i < mem.Length
                ==> mem[i] == if m <= i < m + x then fd.content[old(Cursor()) + (i - m)] else old(mem[i])
      ensures old(eof) ==> eof
    {
      hide FileHandle.Logged;
      x := Available();
      if x > len {
        x := len;
      }
      if x > 0 {
        CopyOut(mem, m, x);
      }
    }

    // How much of the window is unread, after a refill if it was nothing.
    method Available() returns (x: nat)
      requires Valid() && fd.Logged()
      modifies this, buffer, fd
      ensures Valid() && fd.Logged() && Cursor() == old(Cursor())
      ensures x == bufLen - bufPos
      ensures x == 0 && fd.device != Faulty ==> Cursor() >= |fd.content|
      ensures old(eof) ==> eof
    {
      hide FileHandle.Logged;
      x := bufLen - bufPos;
      if x == 0 {
        x := Fill();
      }
    }

    // The memcpy of stream_read, with the cursor moved behind the bytes copied.
    method CopyOut(mem: array<bv8>, m: nat, x: nat)
      requires Valid() && fd.Logged() && mem != buffer
      requires 0 < x <= bufLen - bufPos && m + x <= mem.Length
      modifies this`bufPos, mem
      ensures Valid() && fd.Logged() && Cursor() == old(Cursor()) + x
      ensures Cursor() <= |fd.content|
      ensures forall i :: 0 <= i < mem.Length
                ==> mem[i] == if m <= i < m + x then fd.content[old(Cursor()) + (i - m)] else old(mem[i])
    {
      hide FileHandle.Logged;
      forall i | 0 <= i < x {
        mem[m + i] := buffer[bufPos + i];
      }
      bufPos := bufPos + x;
    }

    /** stream_skip: a length above two buffers is a relative seek, and since the sum wraps
        around at 32 bits, a seek backwards when the length stands for a negative number. */
    method Skip(len: nat) returns (r: nat)
      requires Valid() && fd.Logged() && len < U32
      modifies this, buffer, fd
      ensures Valid() && fd.Logged() && r <= 1
      ensures len <= 2 * STREAM_BUFFER_SIZE && r == 1 ==> Cursor() == old(Cursor()) + len
      ensures len <= 2 * STREAM_BUFFER_SIZE && fd.device != Faulty
              ==> && Cursor() == Advance(|fd.content|, old(Cursor()), len)
                  && (r == 1 <==> Cursor() == old(Cursor()) + len)
      ensures len > 2 * STREAM_BUFFER_SIZE
              ==> var target := (old(Cursor()) + len) % U32;
                  && Cursor() == (if r == 1 then target else BlockBase(target))
                  && (fd.device == Perfect ==> (r == 1 <==> SeekAnswer(|fd.content|, old(fd.Seekable(target)), old(pos), target)))
      ensures old(eof) ==> eof
    {
      hide FileHandle.Logged;
      if len > 2 * STREAM_BUFFER_SIZE {
        var here := Tell();
        r := Seek((here + len) % U32);
        return;
      }
      var rest := len;
      while rest > 0
        invariant Valid() && fd.Logged() && 0 <= rest <= len
        invariant Cursor() == old(Cursor()) + (len - rest)
        invariant rest < len ==> Cursor() <= |fd.content|
        invariant old(eof) ==> eof
      {
        var x := Available();
        if x == 0 {
          return 0;
        }
        if x > rest {
          x := rest;
        }
        bufPos := bufPos + x;
        rest := rest - x;
      }
      return 1;
    }

    /** stream_reset: acts only after an end of file was met, and forgets neither the
        window nor the cursor in it. */
    method Reset()
      requires Valid() && fd.Logged()
      modifies this`pos, this`eof, fd
      ensures !old(eof) ==> pos == old(pos) && fd.point == old(fd.point)
      ensures old(eof) ==> pos == 0 && fd.point == 0
      ensures !eof && fd.Logged()
      ensures old(eof && bufPos == bufLen) ==> Valid() && Cursor() == 0
      ensures old(eof && bufPos < bufLen) ==> !Valid() && buffer[bufPos] == fd.content[old(Cursor())]
      ensures !old(eof) ==> Valid() && Cursor() == old(Cursor())
    {
      hide FileHandle.Logged;
      if eof {
        pos := 0;
        eof := false;
        fd.Rewind();
      }
    }
  }

  /** stream_create: fills the window once, and gives no stream if nothing comes. */
  method Create(handle: FileHandle, storage: array<bv8>) returns (s: Stream?)
    requires handle.Valid() && handle.Logged() && storage.Length == STREAM_BUFFER_SIZE
    modifies handle, storage
    ensures s != null ==> fresh(s) && s.fd == handle && s.buffer == storage && s.Valid() && s.Cursor() == 0 && !s.eof
    ensures s != null ==> |handle.content| > 0
    ensures handle.Logged()
    ensures handle.device != Faulty && |handle.content| > 0 ==> s != null
  {
    s := new Stream(handle, storage);
    var n := s.Fill();
    if n == 0 {
      s := null;
    }
  }

  /** What a seek on a perfect device answers. Inside the file it succeeds; behind the end
      only for block starts, when the medium accepts them or the stream already points there. */
  predicate SeekAnswer(size: nat, seekable: bool, pos: nat, target: nat) {
    target <= size || (BlockBase(target) == target && (seekable || target == pos))
  }
}
