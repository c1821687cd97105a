/** The file handle of the stream reader on top of a cluster chain. */
module FatHandle {
  import opened Basics
  import opened Division
  import opened Storage
  import opened FatChain

  /** The handle describes the file in the chain, on a drive that is reliable or not. */
  ghost predicate Describes(handle: FileHandle, chain: Chain) {
    && chain.Formed() && handle.device == (if chain.drv.reliable then Perfect else Faulty)
    && handle.content == chain.Content() && handle.clusterBytes == chain.drv.clusterBytes && handle.reach == chain.Reach()
  }

  /** And both are at the same position. */
  ghost predicate Same(chain: Chain, handle: FileHandle)
    reads chain, handle
  {
    Describes(handle, chain) && chain.Valid() && handle.point == chain.point
  }

  method RewindAs(chain: Chain, handle: FileHandle)
    requires Same(chain, handle)
    modifies chain, handle`point
    ensures Same(chain, handle) && handle.point == 0
  {
    hide Chain.Formed, Chain.Content, Chain.Reach, Chain.Tracks, Chain.ClusterCount;
    chain.SeekSet();
    handle.point := 0;
  }

  /** Every seek of the chain is one that the handle may make. */
  method SeekAs(chain: Chain, handle: FileHandle, position: nat) returns (ok: bool)
    requires Same(chain, handle) && position < U32
    modifies chain, handle`point
    ensures Same(chain, handle) && handle.MaySeek(old(handle.point), position, ok, handle.point)
    ensures ok <==> handle.SeekableFrom(old(handle.point), position)
  {
    chain.Sizes();
    hide Chain.Formed, Chain.Content, Chain.Reach, Chain.Tracks, Chain.ClusterCount;
    ok := chain.Seek(position);
    handle.point := chain.point;
  }

  /** A read of the chain is one that the handle may make if ReadRight holds, on a reliable drive
      only then. */
  method ReadAs(chain: Chain, handle: FileHandle, buffer: array<bv8>, length: nat) returns (n: nat)
    requires Same(chain, handle) && length <= buffer.Length && length < U32
    modifies chain, buffer, handle`point
    ensures n <= length && handle.point == chain.point
    ensures var p := old(handle.point);
            && (chain.ReadRight(p, length) ==> Same(chain, handle) && handle.MayRead(p, length, n, handle.point))
            && (chain.drv.reliable && handle.MayRead(p, length, n, handle.point) ==> chain.ReadRight(p, length))
            && (chain.ReadRight(p, length) ==> forall k {:trigger buffer[k]} :: 0 <= k < n ==>
                  p + k < |handle.content| && buffer[k] == handle.content[p + k])
  {
    hide Chain.Formed, Chain.Content, Chain.Reach, Chain.Tracks, Chain.ClusterOf, Chain.ClusterCount, Chain.ReadRight;
    hide Drive.Valid, Chain.ChainEnd;
    chain.Sizes();
    n := chain.Read(buffer, length);
    handle.point := chain.point;
  }

  /** On clusters of at most a block, the handle is one that a stream can rely on exactly if the
      size leaves a block below 2^32, and exactly if every read of a block inside the file is right. */
  lemma WhenReliedOn(chain: Chain, handle: FileHandle)
    requires Describes(handle, chain) && BLOCK % chain.drv.clusterBytes == 0
    ensures handle.Valid() <==> chain.size <= U32 - BLOCK
    ensures handle.Valid() <==> forall p :: 0 <= p < chain.size ==> chain.ReadRight(p, BLOCK)
  {
    chain.Sizes();
    chain.ReachOrZero();
    ClusterInBlock(chain);
    hide Chain.Formed, Drive.Valid, Chain.ClusterCount, Chain.ChainEnd, Chain.Content;
    if chain.size > U32 - BLOCK {
      assert !chain.ReadRight(U32 - BLOCK, BLOCK);
    }
  }

  lemma ClusterInBlock(chain: Chain)
    requires chain.Formed() && BLOCK % chain.drv.clusterBytes == 0
    ensures chain.drv.clusterBytes <= BLOCK && chain.Aligned(U32 - BLOCK)
  {
    var c := chain.drv.clusterBytes;
    Split(BLOCK, c);
    RowsIsProduct(BLOCK / c, c);
    RowsIsProduct(65535 * (BLOCK / c), c);
    assert U32 - BLOCK == 65535 * BLOCK == Rows(65535 * (BLOCK / c), c);
    AddRows(0, 65535 * (BLOCK / c), c);
    chain.WholeSectors(U32 - BLOCK);
  }

  /** A seek into the file is accepted exactly if the end of the chain is below 2^32, or it stays
      in its cluster, or it goes to the start. */
  lemma WhenSeekRight(chain: Chain, p: nat, q: nat)
    requires chain.Formed() && q <= chain.size
    ensures chain.Accepted(p, q) <==> chain.ChainEnd() < U32 || q == 0 || chain.ClusterOf(q) == chain.ClusterOf(p)
  {
    chain.Sizes();
    chain.ReachOrZero();
    hide Chain.Formed, Drive.Valid, Chain.ClusterCount, Chain.ChainEnd, Chain.ClusterOf;
  }

  // ---- Where 32 bits are too few ----

  // A file of almost 4 GiB on clusters of 32 KiB.
  ghost predicate LargeFile(chain: Chain) {
    chain.Formed() && chain.drv.clusterBytes == 0x8000 && chain.drv.sectorSize == 0x200 && chain.size == 0xFFFF_FFF0
  }

  /** In it, the seek from the start to the second cluster is refused; a read across the end of
      the first cluster goes wrong; and so does the read of the last block. */
  lemma LargeFileFails(chain: Chain)
    requires LargeFile(chain)
    ensures !chain.Accepted(0, 0x8000)
    ensures !chain.ReadRight(0x7FF0, 0x20)
    ensures !chain.ReadRight(0xFFFF_0000, 0x1_0000)
  {
    chain.ReachOrZero();
    hide Chain.Formed, Drive.Valid, Chain.ClusterCount, Chain.ChainEnd;
  }

  /** The read of the last block reports 65536 bytes, 16 of them behind the end of the file. */
  method ReadLastBlock(chain: Chain, buffer: array<bv8>) returns (n: nat)
    requires LargeFile(chain) && chain.Valid() && chain.drv.reliable && chain.point == 0xFFFF_0000 && buffer.Length >= BLOCK
    modifies chain, buffer
    ensures n == BLOCK == |chain.Content()| - 0xFFFF_0000 + 16
  {
    chain.ReachOrZero();
    hide Chain.Formed, Drive.Valid, Chain.ClusterCount, Chain.ChainEnd, Chain.ReadRight;
    n := chain.Read(buffer, BLOCK);
  }

  /** In a file of one cluster of 32 KiB, a read from the last sector is right up to the length at
      which its sum with the place in the sector has no longer 32 bits: then all of it is taken for
      the rest of the sector. */
  lemma LongHeadFails(chain: Chain, length: nat)
    requires chain.Formed() && chain.drv.clusterBytes == chain.size == 0x8000 && chain.drv.sectorSize == 0x200
    requires 0x8000 <= length < U32
    ensures chain.ReadRight(0x7FF4, length) <==> length < U32 - 0x1F4
    ensures length >= U32 - 0x1F4 ==> chain.HeadLength(0x7FF4, length) == length
  {
    chain.ReachOrZero();
    hide Chain.Formed, Drive.Valid, Chain.ClusterCount, Chain.ChainEnd, Chain.ClusterOf;
  }

  // ---- Runs ----

  method TakeStep(chain: Chain, handle: FileHandle, call: Call) returns (s: Step)
    requires Same(chain, handle) && handle.Valid() && StreamCall(call)
    modifies chain, handle`point
    ensures Same(chain, handle) && handle.MayStep(s)
    ensures s.from == old(handle.point) && s.call == call && s.to == handle.point
  {
    hide Chain.Formed, Chain.Content, Chain.Reach, Chain.Tracks, Chain.Valid;
    var from := chain.point;
    match call
    case Rewind =>
      RewindAs(chain, handle);
      s := Step(from, call, true, [], chain.point);
    case SeekTo(position) =>
      var ok := SeekAs(chain, handle, position);
      s := Step(from, call, ok, [], chain.point);
    case ReadOf(size) =>
      BlockIsRight(chain, handle, from);
      var buffer := new bv8[BLOCK];
      var n := ReadAs(chain, handle, buffer, BLOCK);
      s := Step(from, call, true, buffer[..n], chain.point);
  }

  lemma BlockIsRight(chain: Chain, handle: FileHandle, p: nat)
    requires Describes(handle, chain) && handle.Valid()
    ensures chain.ReadRight(p, BLOCK)
  {
    chain.ReachOrZero();
    hide Chain.Formed, Drive.Valid, Chain.ClusterCount, Chain.ChainEnd, Chain.Content;
  }

  /** Over any sequence of rewinds, seeks and reads of blocks, on a handle that a stream can rely on, the
      chain does what the handle may do, and both stay at the same position. */
  method RunCalls(chain: Chain, handle: FileHandle, calls: seq<Call>) returns (steps: seq<Step>)
    requires Same(chain, handle) && handle.Valid()
    requires forall i :: 0 <= i < |calls| ==> StreamCall(calls[i])
    modifies chain, handle`point
    ensures Same(chain, handle) && handle.MayRun(steps) && |steps| == |calls|
    ensures forall i :: 0 <= i < |calls| ==> steps[i].call == calls[i]
    ensures calls != [] ==> steps[0].from == old(handle.point)
  {
    hide Same, FileHandle.MayStep;
    steps := [];
    for i := 0 to |calls|
      invariant |steps| == i && Same(chain, handle) && handle.MayRun(steps)
      invariant forall j :: 0 <= j < i ==> steps[j].call == calls[j]
      invariant if i == 0 then handle.point == old(handle.point)
                else steps[0].from == old(handle.point) && steps[i - 1].to == handle.point
    {
      var s := TakeStep(chain, handle, calls[i]);
      steps := steps + [s];
    }
  }
}
