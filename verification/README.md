# MiniDV and libIPLAY: a verified model

This project models parts of the firmware of a digital photo frame (the `MiniDV`
application and its library `libIPLAY`) in Dafny and proves what they compute.

- **The buffered stream reader** (`Stream.dfy`, `StreamRun.dfy`, `StreamWords.dfy`). A window of
  64 KiB over an open file, refilled on demand. Every run of byte reads, bulk reads, skips,
  seeks and tells answers what a flat byte sequence with a cursor answers, also when the runs of
  a video and an audio stream that share one file handle interleave. The multi-byte readers and
  byte swaps sit on top.
- **The file below it** (`Division.dfy`, `FatChain.dfy`, `FatHandle.dfy`, `StreamOnChain.dfy`). A
  file on a FAT drive is a chain of clusters; a read is split at sectors and gathers neighbouring
  clusters into one transfer. All sums are 32-bit ones. Exact conditions say when a read delivers the flat bytes of
  the file and when a seek is accepted; up to 64 KiB below 4 GiB the chain does, over every
  run of calls, what the stream reader relies on, and for larger files it does not. Two streams on
  one such file answer, in any interleaving, as its flat bytes on the drive.
- **The flood fill** (`SegmentQueue.dfy`, `SegmentRun.dfy`, `Regions.dfy`, `FillSteps.dfy`,
  `FillLevels.dfy`, `FillTree.dfy`, `FloodFill.dfy`). The scan-line fill with its ring of segments
  terminates, and paints exactly the eight-connected component of the seed unless the ring overflows.
  It overflows if and only if the queue of the same fill on an endless ring, a function of the image,
  reaches the ring's size, and then and only then is the reported area wrong. The queue is bounded
  from above by the runs of the region and from below by the runs at any one distance from the seed.
- **The bitmap converter** (`Bmp.dfy`, `Yuv.dfy`). The byte scanner that picks pixels out of a
  bottom-up bitmap equals a closed form; from the bytes of the files to the bytes of the output
  file, every pair of pixels is encoded in its place.
- **The clock's second hand** (`Osd.dfy`, `HandTable.dfy`, `SecondHand.dfy`, `HandShape.dfy`,
  `ClockFace.dfy`). Sixty drawing functions on a 4-bit display. Over every run of polls that misses
  no second the display shows one hand and no residue; after any other jump the tip of the old hand
  stays, until the second after its own comes up.
- **The calendar** (`SystemTime.dfy`, `Calendar.dfy`). The conversion of seconds to dates counts day
  by day, the inverse and the weekday are closed forms; both are compared with counting over all
  dates, and the month page with the weekday on every cell.
- **The rotations** (`Rotate.dfy`) of packed YUV 4:2:2 images, and **the event bitmap**
  (`EventCapa.dfy`) of the wireless extensions.

State that the program updates in place is kept in classes and arrays here as well; each method
is proved against a function or predicate of the old state, and the laws are lemmas about
those. `Basics.dfy` holds the machine widths and the arithmetic of rows.

## Where the code is not what it says

The model follows the code. These statements are proved, mostly as exact conditions:

- A seek behind the end of the file, which is documented to fail, leaves the cursor at the start
  of the 64 KiB block of the target; and asking again for a block start that could not be reached
  answers success (`Stream.Stream.SeekLong`, `StreamRun.SeekTwice`).
- `stream_reset` acts only after an end of file was met, and if part of the window is still unread
  it does not rewind but breaks the relation of window and position (`Stream.Stream.Reset`): so after
  an end of file and a seek back, from any state (`StreamRun.ResetTooLate`).
- The little-endian double word answers -256, the sign of a short read, if and only if no byte at all
  is left, or for one value that is there; with one to three bytes left the short read goes unnoticed
  (`StreamWords.ShortDwordLEAnswer`). The big-endian ones answer it for every short read and also for
  one value that is there.
- The range check of a seek shifts in 32 bits. For a file larger than 4 GiB less one cluster the end
  of its chain becomes 0, and every seek into another cluster but the start is refused
  (`FatHandle.WhenSeekRight`). A read that ends a cluster with part of a sector ignores that refusal
  and leaves the position where it was (`FatChain.Chain.ReadFragment`).
- A read is clipped with a 32-bit sum of position and length. If that sum wraps, nothing is clipped:
  the last block of a file of 0xFFFFFFF0 bytes is reported with 16 bytes behind its end
  (`FatHandle.ReadLastBlock`). `FatChain.Chain.Read` is right if and only if `ReadRight` holds of
  position and length; on clusters of up to 64 KiB all reads of the stream reader are if and only if
  the file is at most 4 GiB less 64 KiB (`FatHandle.WhenReliedOn`), and of such files the results on
  streams speak. `FatHandle.LargeFileFails` names inputs that go wrong.
- The place in the sector and the length are added in 32 bits as well. If that sum wraps, the whole
  length is taken for the rest of the sector (`FatHandle.LongHeadFails`).
- A seek within one cluster is not range-checked, not even behind the end of the chain, and a seek
  backwards that fails leaves the position at 0 (`FatChain.Chain.Seek`).
- The segment ring of N slots is an empty queue to its client once N segments are in it
  (`Segments.SegmentQueue.Push`). This overflow happens exactly if the queue of the fill on an endless
  ring reaches N (`FillSteps.WhenLost`), and exactly then the reported area is too small
  (`FloodFill.Fill`). It is necessary for matching cells to be left out, and not sufficient: with a ring
  of two the fill of a comb overflows, and paints all of it if and only if it has two rows
  (`FillSteps.CombFill`, `FloodFill.FillComb`). It does not happen if N is at least 2 and at least the
  number of maximal runs (`FillSteps.RunsFit`), or height times half the width in words, rounded up
  (`FillSteps.SizeFits`). It does if N is at most the number of runs at some one distance from the seed
  (`FillLevels.LevelFillsQueue`). The program's ring is twice the longer side in pixels: enough for every
  region of at most six rows or four words to the row (`FillSteps.SmallRegionFits`), and not for a tree
  of 26 by 31 pixels (`FillTree.TreeOverflows`), of which it reports too small an area
  (`FloodFill.FillTheTree`).
- The bitmap scanner starts one byte early: a cell holds the blue, the green and the left
  neighbour's red byte (`BmpScan.StoredChannels`). Its rows are those of the file format exactly
  for widths that are 0 or 2 modulo 4 (`BmpScan.StrideIsBmpStride`).
- The offset of the pixels is read from one byte as a signed number. It is the file's own if and only
  if that is below 128; from a byte of 128 on, as for a header of 138 bytes, it is negative, and the
  bytes behind the offset count as pixels before the width is known (`BmpScan.WhenOffsetTaken`). The
  scan itself is modelled for the offsets from 24 to 127. Width and height are the file's if and only
  if they are below 32768 and 256 (`BmpScan.WhenSizeTaken`).
- The closed forms of the calendar are exact up to 2100-02-28 and for no later day
  (`SystemTime.SecondsRoundTrip`, `SystemTime.TimeRoundTrip`). The comments speak of a base of
  1970-01-01; the code begins at 2000-01-01.
- A quarter turn and its inverse give back an image exactly when neighbouring rows have the same
  chroma (`Rotate.ThereAndBackExact`).
- A poll that skips seconds leaves residue: on a display that holds the hands, the face is right after
  a poll if and only if its second is the last one or the one after it, and else the tip of the old
  hand stays red (`ClockFace.Clock.SkippedSeconds`). After any run of polls the tip of a hand is red if
  and only if its second was seen and the second after it not since (`ClockFace.Clock.HandsLeft`).
- Commands 0x8B60 to 0x8BBF share their event bits with private commands (`EventCapa.WhenSameBit`).

## Model

| member | source | states |
|---|---|---|
| FatChain.Drive.Read | libIPLAY/libSrc/file/SOURCE/chain.c:1617-1621 | The consecutive sectors asked for arrive in their place in the buffer, and nothing outside it changes |
| FatChain.Drive.ClusterPlace | libIPLAY/libSrc/file/SOURCE/chain.c:1497-1498 | Cluster 2 is the first of the data area, and cluster c begins (c - 2) times the cluster size behind it |
| FatChain.Drive.LoadedAt | libIPLAY/libSrc/file/SOURCE/chain.c:1617-1621 | The bytes of consecutive sectors lie behind each other in the buffer |
| FatChain.Chain.GetLba | libIPLAY/libSrc/file/SOURCE/chain.c:1471-1508 | Behind the last cluster 0xFFFFFFFF, otherwise the sector counted from the data area, the current cluster and the place in it; inside the file it holds the position |
| FatChain.Chain.ContentAt | libIPLAY/libSrc/file/SOURCE/chain.c:1471-1508 | Byte b of the file lies on the drive in the sector that the b / clusterBytes-th cluster of the chain and the offset in it name |
| FatChain.Chain.ChainLinks | libIPLAY/libSrc/file/SOURCE/chain.c:580-712 | Each cluster of the chain leads to the next one in the table, and the last to 0xFFFFFFFF |
| FatChain.Chain.Seek | libIPLAY/libSrc/file/SOURCE/chain.c:729-761 | Succeeds exactly within a cluster or up to the end of the chain in 32 bits; one backwards that fails ends at 0; the current cluster follows the position, and stays the last one behind it |
| FatChain.Chain.SeekForward | libIPLAY/libSrc/file/SOURCE/chain.c:506-712 | The same for a seek forwards along the table, with a 32-bit sum and a 32-bit end of the chain |
| FatChain.Chain.GetContinuity | libIPLAY/libSrc/file/SOURCE/chain.c:1227-1309 | The sectors counted lie side by side on the drive, across clusters that follow each other there, and position and cluster move behind them |
| FatChain.Chain.TakeCluster | libIPLAY/libSrc/file/SOURCE/chain.c:1289-1309 | Taking the rest of a cluster keeps the sectors adjacent, and the next one too if the next cluster follows on the drive |
| FatChain.Chain.TakeSome | libIPLAY/libSrc/file/SOURCE/chain.c:1276-1306 | Ending inside a cluster, or with all of the last one, keeps position and cluster in step |
| FatChain.Chain.ReadSectors | libIPLAY/libSrc/file/SOURCE/chain.c:1529-1629 | Whole sectors of the file, run by run over a fragmented chain, arrive in file order |
| FatChain.Chain.ReadFragment | libIPLAY/libSrc/file/SOURCE/chain.c:1732-1784 | A part of one sector arrives, and only it; the position moves on unless the closing seek is refused, which goes unnoticed |
| FatChain.Chain.Segmentize | libIPLAY/libSrc/file/SOURCE/FILE.c:11920-11957 | Splits a length into the rest of a sector, whole sectors, and less than one; if the 32-bit sum of the place in the sector and the length wraps, all of it is the rest of the sector |
| FatChain.Chain.Read | libIPLAY/libSrc/file/SOURCE/FILE.c:6027-6221 | On a reliable drive it delivers the file's bytes from the position on, clipped at its end, wherever the clusters lie, if and only if a condition on position and length holds; if the drive fails, what is reported is still right under it; behind 4 GiB nothing is clipped |
| FatChain.Chain.ReachOrZero | libIPLAY/libSrc/file/SOURCE/chain.c:568-584 | The end of the chain is seen as it is exactly for sizes up to 4 GiB less a cluster, and else as 0 |
| FatChain.Chain.AcceptedIs | libIPLAY/libSrc/file/SOURCE/chain.c:568-584 | A seek is accepted within a cluster, to the start, and up to the end of the chain if that is below 4 GiB |
| FatHandle.ReadAs | libIPLAY/libSrc/file/SOURCE/FILE.c:6027-6221 | A read of the chain is one the flat handle may make if, and on a reliable drive only if, the condition holds |
| FatHandle.SeekAs | libIPLAY/libSrc/file/SOURCE/FILE.c:5172-5254 | Chain and handle answer every seek alike and stay at the same position |
| FatHandle.WhenReliedOn | libIPLAY/libSrc/file/SOURCE/FILE.c:6027-6221 | On clusters of up to a block, every read of a block is right if and only if the size leaves a block below 4 GiB |
| FatHandle.WhenSeekRight | libIPLAY/libSrc/file/SOURCE/chain.c:568-584 | A seek into the file is accepted if and only if the end of the chain is below 4 GiB, or it stays in its cluster, or goes to the start |
| FatHandle.LargeFileFails | libIPLAY/libSrc/file/SOURCE/chain.c:568-584 | In a file of 0xFFFFFFF0 bytes the first seek into another cluster, a read across a cluster and the read of the last block go wrong |
| FatHandle.ReadLastBlock | libIPLAY/libSrc/file/SOURCE/FILE.c:6027-6221 | The last block of that file is reported with 16 bytes behind its end |
| FatHandle.LongHeadFails | libIPLAY/libSrc/file/SOURCE/FILE.c:11939-11949 | From the last sector of a file of one cluster a read is right up to the length whose sum with the place in the sector has no longer 32 bits |
| FatHandle.RunCalls | libIPLAY/libSrc/stream/SOURCE/stream.c:208-497 | Over any sequence of the rewinds, seeks and block reads of streams the chain does what the flat handle may do, at the same positions |
| StreamOnChain.Play | libIPLAY/libSrc/stream/SOURCE/stream.c:126-497 | Two streams on a file of a reliable drive answer, in any interleaving of any operations, as the flat bytes of the file, and the chain makes of all calls of their handle what they have been told |
| StreamOnChain.OneRun | libIPLAY/libSrc/file/SOURCE/FILE.c:5172-6221 | On a medium that delivers what is asked for, a run of calls has one outcome |
| Storage.FileHandle.Seek | libIPLAY/libSrc/file/SOURCE/FILE.c:5172-5254 | A seek succeeds within its cluster and up to the end of the chain in 32 bits, then and only then reaching its target; one backwards that fails ends at 0; a faulty medium may refuse |
| Storage.FileHandle.Read | libIPLAY/libSrc/file/SOURCE/FILE.c:6027-6221 | If the sum of position and size has 32 bits, the bytes delivered are those of the file at the position, which moves past them; a faulty medium may report fewer than it moved over |
| Stream.Peek | libIPLAY/include/stream.h:106-121 | The answer -256 stands for the end of the file and for no byte |
| Stream.Create | libIPLAY/libSrc/stream/SOURCE/stream.c:126-153 | A new stream is valid with its cursor at the start of the file; there is none if the file is empty, and on a medium that is not faulty only then |
| Stream.Stream.Fill | libIPLAY/libSrc/stream/SOURCE/stream.c:208-369 | Refilling keeps the invariant and the cursor; it yields nothing exactly at the end of the file (faulty media apart), and wherever another stream has left the shared handle |
| Stream.Stream.ReadChar | libIPLAY/include/stream.h:106-121 | Answers the byte of the flat file at the cursor and advances, or the end of file |
| Stream.Stream.Tell | libIPLAY/include/stream.h:311-314 | The wrapping 32-bit expression is the cursor |
| Stream.Stream.SeekLong | libIPLAY/libSrc/stream/SOURCE/stream.c:393-497 | The cursor is the target on success and the start of its block on failure; which of the two, exactly, on a medium that delivers what is asked for |
| Stream.Stream.Seek | libIPLAY/include/stream.h:334-347 | The same contract with the fast path inside the window, so no caller can tell which path was taken |
| Stream.Stream.Read | libIPLAY/include/stream.h:259-293 | Copies exactly the file slice from the cursor, as much as is asked for and there, whatever the pieces, and writes nothing else into the memory |
| Stream.Stream.Skip | libIPLAY/include/stream.h:367-385 | A skip of up to two buffers advances within the file and fails at its end; a longer one is a relative seek modulo 2^32 |
| Stream.Stream.Reset | libIPLAY/libSrc/stream/SOURCE/stream.c:100-114 | Rewinds exactly when an end of file was met and the window is used up; with unread bytes the invariant is lost |
| StreamRun.ResetTooLate | libIPLAY/libSrc/stream/SOURCE/stream.c:100-114 | After an end of file and a seek back into the file, from any state, a reset breaks the window with bytes unread |
| StreamRun.Perform | libIPLAY/include/stream.h:106-385 | Every operation answers, and moves the cursor, as on the flat file |
| StreamRun.Interleave | libIPLAY/libSrc/stream/SOURCE/stream.c:161-194 | Over any interleaving of operations on two streams that share a file handle, each answers as a flat file of its own |
| StreamRun.TurnsApart | libIPLAY/libSrc/stream/SOURCE/stream.c:161-194 | The operations of each stream are those of its own turns, in order |
| StreamRun.AgreesStep | libIPLAY/include/stream.h:106-385 | A run that agrees with the flat file is continued by an answer that does |
| StreamRun.SeekTwice | libIPLAY/libSrc/stream/SOURCE/stream.c:393-497 | A refused seek to a block start succeeds when it is repeated, with the cursor behind the end |
| StreamRun.ReadSplits | libIPLAY/include/stream.h:259-293 | Reading a and then b bytes is reading a + b bytes |
| StreamRun.ReadIsChars | libIPLAY/include/stream.h:259-293 | A bulk read of n bytes is n byte reads, byte for byte and in the cursor |
| StreamRun.SkipIsRead | libIPLAY/include/stream.h:367-385 | A skip is a read that is discarded, and fails exactly if the read is short |
| StreamRun.LargeSkip | libIPLAY/include/stream.h:367-370 | Inside the file a large skip advances by its length, and the 32-bit image of a negative length goes back |
| StreamRun.SkipBehind | libIPLAY/include/stream.h:367-385 | Behind the end a skip of up to 128 KiB stops there, and a longer one goes to the start of the 64 KiB block of its target |
| StreamRun.SeekMeans | libIPLAY/include/stream.h:334-347 | A seek into the file goes to its target; one behind the end to the start of the 64 KiB block, and fails unless that is its target |
| StreamRun.SeekForgets | libIPLAY/include/stream.h:334-347 | After a seek into the file every answer is independent of what went before |
| StreamWords.ReadWord | libIPLAY/include/stream.h:137-143 | Assembles the next two answers, also across a refill, and advances |
| StreamWords.ReadWordLE | libIPLAY/include/stream.h:183-189 | The same, little-endian |
| StreamWords.ReadInt24 | libIPLAY/include/stream.h:232-239 | The same for three bytes |
| StreamWords.ReadDword | libIPLAY/include/stream.h:159-167 | The same for four bytes |
| StreamWords.ReadDwordLE | libIPLAY/include/stream.h:205-216 | The same for four bytes, little-endian |
| StreamWords.ReadQword | libIPLAY/include/stream.h:218-230 | The same for eight bytes in 64-bit arithmetic with sign extension |
| StreamWords.WordValues | libIPLAY/include/stream.h:137-216 | The numbers that bytes make up, the first one high in big-endian words and low in little-endian ones |
| StreamWords.AppendByte | libIPLAY/include/stream.h:137-143 | Appending a byte is multiplying by 256 and adding |
| StreamWords.ShortWord | libIPLAY/include/stream.h:137-239 | The big-endian word and 24-bit integer answer -256, and the little-endian word exceeds 0xFFFF, exactly when bytes are missing |
| StreamWords.ShortDword | libIPLAY/include/stream.h:159-167 | The big-endian double word answers -256 exactly when bytes are missing or for the one value FF FF FF 00 |
| StreamWords.ShortDwordLE | libIPLAY/include/stream.h:205-216 | The little-endian double word answers a short read as if bytes 00 FF FF FF followed the file |
| StreamWords.ShortDwordLEAnswer | libIPLAY/include/stream.h:205-216 | The little-endian double word answers -256 exactly when no byte is left or for the one value 00 FF FF FF |
| StreamWords.QwordHalves | libIPLAY/include/stream.h:218-230 | A quad word that is there is its two big-endian double words |
| StreamWords.ShortQword | libIPLAY/include/stream.h:218-230 | The quad word answers -256 exactly when bytes are missing or for one value |
| StreamWords.SwappedReads | libIPLAY/include/bswap.h:82-88 | At one cursor the big-endian word and double word are the swaps of the little-endian ones |
| StreamWords.SwapTwice | libIPLAY/include/bswap.h:82-88 | The 16-bit and 32-bit swaps undo themselves |
| StreamWords.SwapQword | libIPLAY/include/bswap.h:90-100 | The 64-bit swap is the same on hosts of either byte order and undoes itself |
| StreamWords.SwappedQword | libIPLAY/include/bswap.h:90-100 | The 64-bit swap turns the big-endian reading of eight bytes into the little-endian one |
| Segments.SegmentQueue.Push | libIPLAY/include/cv.h:515-525 | Appends to the queue the client sees, up to one slot less than the ring has; filling the last slot makes that queue empty |
| Segments.SegmentQueue.Pop | libIPLAY/include/cv.h:527-537 | Takes the oldest segment |
| SegmentRun.PushHolds | libIPLAY/include/cv.h:515-525 | Storing into the slot behind the last keeps all others, around the end of the buffer too |
| SegmentRun.RunQueue | libIPLAY/include/cv.h:515-537 | Over any interleaving that never pops empty and never holds more than N segments, what is popped and what is left are what was held and pushed, in order |
| FloodFill.Fill | MiniDV/main/SOURCE/ImageProcessing.c:479-556 | Paints exactly the matching cells eight-connected to the seed, reports their number and extent, and terminates, unless the ring overflows, which is so if and only if the queue on an endless ring reaches its size; the number reported is right if and only if it does not overflow; what is painted is connected in any case |
| FloodFill.MatchIs | MiniDV/main/SOURCE/ImageProcessing.c:525-534 | A cell is in the set if and only if it is in use and the word at its row times offset plus its column matches |
| FloodFill.FillComb | MiniDV/main/SOURCE/ImageProcessing.c:479-556 | In an image of 5 by 3 words with a ring of two slots a matching word connected to the seed stays as it was |
| FillSteps.WhenLost | MiniDV/main/SOURCE/ImageProcessing.c:479-556 | A finished fill has overflowed its ring of n slots if and only if the queue of the fill on an endless ring reaches n |
| FillSteps.BridgeOrder | MiniDV/main/SOURCE/ImageProcessing.c:505-547 | A segment queues first the runs on the side it did not come from, from left to right, and then those on the other |
| FillSteps.QueueBelowRuns | MiniDV/main/SOURCE/ImageProcessing.c:505-547 | The queue never holds more segments than maximal runs are painted |
| FillSteps.RunsFit | MiniDV/main/SOURCE/ImageProcessing.c:479-556 | A ring of at least two slots and as many as the image has maximal runs does not overflow |
| FillSteps.SizeFits | MiniDV/main/SOURCE/ImageProcessing.c:479-556 | Nor one with a slot for every other word of each row, whatever the image shows |
| FillSteps.SmallRegionFits | MiniDV/main/SOURCE/ImageProcessing.c:764-774 | The program's ring suffices for every region of at most six rows or four words |
| FillSteps.CombFill | MiniDV/main/SOURCE/ImageProcessing.c:505-547 | With a ring of two slots the fill of a comb overflows and paints its first two rows; it is complete if and only if there are no more |
| FillLevels.LevelFillsQueue | MiniDV/main/SOURCE/ImageProcessing.c:505-547 | At some time the queue holds as many segments as there are runs at any one distance from the seed |
| FillLevels.StepGoing | MiniDV/main/SOURCE/ImageProcessing.c:505-547 | A round queues only runs one step further from the seed than the segment it takes, behind those of the same distance |
| FillTree.TreeOverflows | MiniDV/main/SOURCE/ImageProcessing.c:764-774 | On a tree of 26 by 31 pixels the queue reaches the size of the ring that the program makes for it |
| FloodFill.FillTheTree | MiniDV/main/SOURCE/ImageProcessing.c:764-774 | With that ring the area reported of the tree is too small |
| FloodFill.PaintRegion | MiniDV/main/SOURCE/ImageProcessing.c:494-547 | Round by round the painted cells, the queue and the overflow are the function of the image |
| FloodFill.LookAround | MiniDV/main/SOURCE/ImageProcessing.c:510-546 | The three scans of a segment clear its neighbourhood and do what the function of the image says |
| FloodFill.ScanRow | MiniDV/main/SOURCE/ImageProcessing.c:525-545 | One scan of the row beside a segment keeps the fill's invariant and leaves no open cell in its range |
| FloodFill.PaintRun | MiniDV/main/SOURCE/ImageProcessing.c:494-503 | Growing a run in both directions paints the largest run of matching cells around it |
| FloodFill.NextSegment | MiniDV/main/SOURCE/ImageProcessing.c:506-547 | One round of the main loop keeps the invariant and adds the segment to the area and the box |
| Regions.EightNeighbours | MiniDV/main/SOURCE/ImageProcessing.c:510-513 | A cell is near itself and the eight around it |
| Regions.ClosedIsComponent | MiniDV/main/SOURCE/ImageProcessing.c:479-556 | A connected set without open neighbours is the whole component |
| Regions.WatchMore | MiniDV/main/SOURCE/ImageProcessing.c:534-544 | Painting a run and queueing it leaves every painted cell with an open neighbour in some queued segment |
| Regions.WatchLess | MiniDV/main/SOURCE/ImageProcessing.c:506-547 | A segment may leave the queue after its three scans |
| Regions.NoneBeside | MiniDV/main/SOURCE/ImageProcessing.c:510-513 | The three ranges scanned, with the run that caused the segment, cover all neighbours of its cells |
| Regions.FoundIsConnected | MiniDV/main/SOURCE/ImageProcessing.c:534-544 | A run found beside a segment is connected to the seed |
| Regions.FillShrinks | MiniDV/main/SOURCE/ImageProcessing.c:506-547 | Each round that paints leaves fewer matching cells |
| Regions.FillIsDone | MiniDV/main/SOURCE/ImageProcessing.c:506-555 | With the queue empty the fill is the component, counted once |
| BmpScan.Scan | MiniDV/BMPtoYUV/BMPtoYUV.cpp:528-688 | For every file with an offset it can take, truncated files included, each cell whose bytes are there holds its three source bytes with column 0 cleared; no cell is written twice by the scan, and of a complete file each one once; the padding columns are black |
| BmpScan.WhenOffsetTaken | MiniDV/BMPtoYUV/BMPtoYUV.cpp:534-548 | The offset taken is the file's if and only if that is below 128 |
| BmpScan.WhenSizeTaken | MiniDV/BMPtoYUV/BMPtoYUV.cpp:552-590 | The width and height taken are the file's if and only if they are below 32768 and 256 |
| BmpScan.PixelScan.Data | MiniDV/BMPtoYUV/BMPtoYUV.cpp:620-681 | One byte of the image keeps the scanner's invariant, each scanned cell written once among it; the index steps back once a padded row, yet the pair of rows left and bytes left decreases |
| BmpScan.PixelScan.NextRow | MiniDV/BMPtoYUV/BMPtoYUV.cpp:645-679 | A row ends after exactly its stride of bytes and the next begins in the row above |
| BmpScan.StrideIsBmpStride | MiniDV/BMPtoYUV/BMPtoYUV.cpp:600-616 | The rows consumed are the format's rows exactly for widths 0 or 2 modulo 4 |
| BmpScan.BmpStrideIs | MiniDV/BMPtoYUV/BMPtoYUV.cpp:600-616 | A row of the format is three bytes a pixel, padded to the next multiple of four |
| BmpScan.StoredChannels | MiniDV/BMPtoYUV/BMPtoYUV.cpp:618-639 | Which colour bytes of the format end up in R, G and B |
| BmpScan.BlueIs | MiniDV/BMPtoYUV/BMPtoYUV.cpp:618-639 | Rows lie from the last to the first, each padded to a multiple of four bytes |
| BmpScan.HeaderBytes | MiniDV/BMPtoYUV/BMPtoYUV.cpp:534-584 | Offset, width and height are taken from bytes 10, 18 with 19, and 22 |
| BmpScan.SourceInside | MiniDV/BMPtoYUV/BMPtoYUV.cpp:532-683 | Every source byte of a complete file lies inside it |
| BmpScan.AllScanned | MiniDV/BMPtoYUV/BMPtoYUV.cpp:532-683 | At the end of the loop every cell whose bytes the file holds has been written |
| YuvEncode.Luma | MiniDV/BMPtoYUV/BMPtoYUV.cpp:739-739 | The mask never truncates |
| YuvEncode.Cb | MiniDV/BMPtoYUV/BMPtoYUV.cpp:740-740 | The mask never truncates, negative sums rounding down |
| YuvEncode.Cr | MiniDV/BMPtoYUV/BMPtoYUV.cpp:741-741 | The mask never truncates, negative sums rounding down |
| YuvEncode.LumaBetween | MiniDV/BMPtoYUV/BMPtoYUV.cpp:739-739 | Luma lies between the darkest and the brightest component |
| YuvEncode.PairMeaning | MiniDV/BMPtoYUV/BMPtoYUV.cpp:760-780 | A pair with one key pixel carries the other's chroma and half its luma on the key side; any other pair keeps both lumas and has the mean of the chroma, rounded down; the key is black |
| YuvEncode.FileHeader | MiniDV/BMPtoYUV/BMPtoYUV.cpp:691-717 | Eight bytes: 0, byte 18 of the file, 0, byte 22, and the pair of two key pixels, which is 0, 0, 128, 128 |
| YuvEncode.HeaderSize | MiniDV/BMPtoYUV/BMPtoYUV.cpp:699-717 | They hold the low bytes of the width and the height of the format, which are the size if that is below 256 |
| YuvEncode.EncodeSecond | MiniDV/BMPtoYUV/BMPtoYUV.cpp:753-780 | The branches on the colour key compute the pair |
| YuvEncode.EncodeImage | MiniDV/BMPtoYUV/BMPtoYUV.cpp:722-790 | Appends the encoding of the image's pixels in row-major order |
| YuvEncode.PayloadShape | MiniDV/BMPtoYUV/BMPtoYUV.cpp:722-790 | Two bytes a pixel; the four at twice a pixel's number are the pair of it and its right neighbour, so no pair straddles rows |
| YuvEncode.PixelBytes | MiniDV/BMPtoYUV/BMPtoYUV.cpp:618-639 | The pixels encoded, byte by byte of the file, its rows counted from below |
| YuvEncode.ConvertFile | MiniDV/BMPtoYUV/BMPtoYUV.cpp:528-791 | One file appends its encoding, and the first one the header before it; pixels that a truncated file lacks are whatever the memory held |
| YuvEncode.CompletePixels | MiniDV/BMPtoYUV/BMPtoYUV.cpp:528-688 | The pixels of a complete file do not depend on that memory |
| YuvEncode.Convert | MiniDV/BMPtoYUV/BMPtoYUV.cpp:159-791 | The output is one header and then the encodings of all files in order; no pair straddles files |
| YuvEncode.PayloadSlice | MiniDV/BMPtoYUV/BMPtoYUV.cpp:722-790 | The image of file j lies behind the header and the images before it, four bytes for every two pixels |
| Osd.WithNibble | libIPLAY/libSrc/display/SOURCE/osd4.c:144-147 | Painting one pixel of a byte leaves the other |
| Osd.OsdWin.PixelByte | libIPLAY/libSrc/display/SOURCE/osd4.c:120-150 | A pixel is half a byte, rows follow each other without a gap, and the left pixel is the high half |
| Osd.OsdWin.PaintArea | libIPLAY/libSrc/display/SOURCE/osd4.c:119-156 | Exactly the pixels of the area that lie on the screen take the colour, for odd corners and sizes too |
| Osd.OsdWin.PaintBytes | libIPLAY/libSrc/display/SOURCE/osd4.c:141-151 | One row of the area, pixel by pixel through shared bytes, changes no other pixel |
| HandTable.ErasesPrevious | MiniDV/UI/SOURCE/rtcData.c:24-563 | Each of the sixty functions erases exactly what the one before it painted, across quadrants, brush changes and from 59 to 0 |
| HandShape.QuarterTurnPixels | MiniDV/UI/SOURCE/rtcData.c:24-563 | Fifteen seconds on, the pixels of the hand are the same ones turned by a quarter, the turned brush making up half a pixel |
| HandShape.MirrorPixels | MiniDV/UI/SOURCE/rtcData.c:24-157 | Within a quadrant the pixels of the hands mirror each other |
| HandShape.HandIsTidy | MiniDV/UI/SOURCE/rtcData.c:24-563 | The table paints sixty different hands: the second can be read off the long end |
| HandShape.TipIsOnItsHand | MiniDV/UI/SOURCE/rtcData.c:4-563 | The tip of a hand lies on that hand and on no other of the sixty, far from the centre |
| HandShape.UprightHand | MiniDV/UI/SOURCE/rtcData.c:24-32 | At second 0 the hand stands upright above the centre, 182 rows, and 40 below it, two pixels wide |
| HandShape.HandPixels | MiniDV/UI/SOURCE/rtcData.c:34-110 | The hands of seconds 1 to 7, pixel by pixel |
| HandShape.FirstTips | MiniDV/UI/SOURCE/rtcData.c:4-157 | Where the tips of the first quadrant are, from straight above the centre to the right of it |
| HandShape.TipTurns | MiniDV/UI/SOURCE/rtcData.c:24-563 | A quarter of a minute turns the tip clockwise by a quarter |
| SecondHand.PaintHand | MiniDV/UI/SOURCE/rtcData.c:24-32 | Exactly the pixels of the hand take the colour, with 16-bit coordinates and clipping |
| SecondHand.DrawSecondRed | MiniDV/UI/SOURCE/rtcData.c:565-649 | The pixels of the new hand are colour 6, those only of the erased one colour 0, all others as before; other arguments draw nothing |
| SecondHand.HandsOk | MiniDV/UI/SOURCE/rtcData.c:565-649 | Through the dispatch, a second erases the hand of the second before |
| SecondHand.Tick | MiniDV/UI/SOURCE/rtcData.c:565-649 | What one tick makes of the set of red pixels, whatever it was |
| ClockFace.Clock.Poll | MiniDV/UI/SOURCE/rtc.c:1302-1314 | A poll changes the red pixels only when the second has changed, and then to those of the tick with the centre replaced |
| ClockFace.Clock.FacePixel | MiniDV/UI/SOURCE/rtc.c:1302-1314 | The face pixel by pixel: the circle in the twelve by twelve square around the centre, the hand outside it |
| ClockFace.Clock.CentreIs | MiniDV/UI/SOURCE/rtc.c:1306-1314 | The square reaches six pixels to the left and up, and five to the right and down; the circle lies in it row by row |
| ClockFace.Clock.Run | MiniDV/UI/SOURCE/rtc.c:1259-1314 | The same over any sequence of polls |
| ClockFace.Clock.SteadyRun | MiniDV/UI/SOURCE/rtc.c:1302-1314 | After any run of polls that sees each second at least once, the red pixels are the hand of the last second around the circle and nothing else |
| ClockFace.Clock.SkippedSeconds | MiniDV/UI/SOURCE/rtc.c:1302-1314 | From the face of a second a poll leads to the right face if and only if it is the same second or the next; else the tip of the old hand stays red |
| ClockFace.Clock.HandsLeft | MiniDV/UI/SOURCE/rtc.c:1302-1314 | After any run of polls, in any order, the tip of a hand is red if and only if its second was seen and the one after it has not been since |
| SystemTime.Next | libIPLAY/libSrc/Os/Source/systimer.c:1096-1111 | The day after a valid date is valid |
| SystemTime.NextCounts | libIPLAY/libSrc/Os/Source/systimer.c:1048-1065 | The closed form advances by one from day to day, but by two over an omitted 29th of February |
| SystemTime.ClosedDaysOfNth | libIPLAY/libSrc/Os/Source/systimer.c:1048-1112 | For every n the closed form of the n-th day is n plus the leap days it wrongly counts |
| SystemTime.DateIsNth | libIPLAY/libSrc/Os/Source/systimer.c:1096-1111 | Every valid date is reached by counting, after exactly its number of days |
| SystemTime.KnownDays | libIPLAY/libSrc/Os/Source/systimer.c:1080-1130 | The counting begins on 2000-01-01 and follows the Gregorian leap years: four centuries have 146097 days |
| SystemTime.WhenExact | libIPLAY/libSrc/Os/Source/systimer.c:1062-1062 | The closed form is exact for a day if and only if it is before 2100-03-01 |
| SystemTime.SplitSeconds | libIPLAY/libSrc/Os/Source/systimer.c:1086-1090 | Day, hour, minute and second make up the count and are in range |
| SystemTime.KnownSeconds | libIPLAY/libSrc/Os/Source/systimer.c:1080-1095 | The count begins at midnight, a day has 86400 seconds |
| SystemTime.SecondsRoundTrip | libIPLAY/libSrc/Os/Source/systimer.c:1048-1112 | Seconds to date and back is the identity if and only if the count is before 2100-03-01, and adds a day from then on |
| SystemTime.TimeRoundTrip | libIPLAY/libSrc/Os/Source/systimer.c:1048-1112 | Date to seconds and back is the identity if and only if the date is before 2100-03-01 |
| SystemTime.SystemTimeRecord.FromSecond | libIPLAY/libSrc/Os/Source/systimer.c:1080-1112 | The record holds the time counted from the beginning, with no field wrapping |
| SystemTime.SystemTimeRecord.ToSecond | libIPLAY/libSrc/Os/Source/systimer.c:1048-1065 | The 32-bit arithmetic gives the closed form modulo 2^32 |
| Calendar.GetWeekDay | MiniDV/UI/SOURCE/Calendar.c:295-319 | For every 16-bit year offset the table walk gives the weekday of the clock's closed form |
| Calendar.FirstWeekDay | MiniDV/UI/SOURCE/Calendar.c:295-316 | 2000-01-01 is a Saturday |
| Calendar.MonthStart | MiniDV/UI/SOURCE/Calendar.c:306-310 | Counting the months by the table agrees with the closed form of the clock |
| Calendar.WeekDayAdvances | MiniDV/UI/SOURCE/Calendar.c:295-319 | The weekday advances by one from each day to the next if and only if no 29th of February is omitted between them |
| Calendar.WeekDayIsGregorian | MiniDV/UI/SOURCE/Calendar.c:295-319 | The weekday counted from Saturday 2000-01-01 if and only if the leap days wrongly counted are a multiple of seven |
| Calendar.GetMonthDays | MiniDV/UI/SOURCE/Calendar.c:321-327 | The number of days agrees with the clock's table |
| Calendar.DrawDays | MiniDV/UI/SOURCE/Calendar.c:329-375 | Draws each day once, in order; today's style exactly on today, Sunday's exactly on the other days whose weekday is 0; where the grid fits, in the column of the weekday and the row of the week |
| Calendar.PageAgrees | MiniDV/UI/SOURCE/Calendar.c:329-375 | Every day stands in the column of its weekday, in at most six rows, and no two days share a cell |
| Calendar.CellsApart | MiniDV/UI/SOURCE/Calendar.c:329-375 | The rectangles of two days do not overlap on a page that fits the coordinates |
| Calendar.NextPageFollows | MiniDV/UI/SOURCE/Calendar.c:329-375 | The next month's page goes on in the next column, if and only if no 29th of February is omitted between them |
| Calendar.PageIsGregorian | MiniDV/UI/SOURCE/Calendar.c:329-375 | A day's column is its weekday by counting if and only if the leap days wrongly counted are a multiple of seven |
| Rotate.Rotate180 | MiniDV/UI/SOURCE/Clock.c:51-76 | Every quad in the last columns and rows of the target is the mirrored source quad opposite; padding and the rest stay |
| Rotate.HalfTurnReflects | MiniDV/UI/SOURCE/Clock.c:51-76 | Half a turn is the point reflection of luma and chroma |
| Rotate.HalfTurnCorner | MiniDV/UI/SOURCE/Clock.c:51-76 | In a larger target the reflected image ends in the last column and row |
| Rotate.HalfTurnTwice | MiniDV/UI/SOURCE/Clock.c:51-76 | Two half turns are the identity |
| Rotate.Rotate90 | libIPLAY/libSrc/mpapi/SOURCE/mpImageRotateApi.c:28-76 | The whole new content of the target after a quarter turn clockwise |
| Rotate.Rotate270 | libIPLAY/libSrc/mpapi/SOURCE/mpImageRotateApi.c:89-142 | The whole new content of the target after a quarter turn counter-clockwise |
| Rotate.QuarterTurnLuma | libIPLAY/libSrc/mpapi/SOURCE/mpImageRotateApi.c:28-76 | Where each luma goes in a quarter turn |
| Rotate.QuarterTurnChroma | libIPLAY/libSrc/mpapi/SOURCE/mpImageRotateApi.c:28-76 | The two pixels of a quad come from one column and two rows, and share the mean of their chroma, rounded down |
| Rotate.ThreeQuarterTurnLuma | libIPLAY/libSrc/mpapi/SOURCE/mpImageRotateApi.c:89-142 | Where each luma goes in the opposite turn |
| Rotate.ThreeQuarterTurnChroma | libIPLAY/libSrc/mpapi/SOURCE/mpImageRotateApi.c:89-142 | The same for the opposite turn |
| Rotate.QuarterTurnTwice | MiniDV/UI/SOURCE/Clock.c:88-111 | Two quarter turns are half a turn of the lumas |
| Rotate.ThereAndBack | libIPLAY/libSrc/mpapi/SOURCE/mpImageRotateApi.c:28-142 | A turn and its inverse give back every luma and the mean chroma of two rows |
| Rotate.ThereAndBackExact | libIPLAY/libSrc/mpapi/SOURCE/mpImageRotateApi.c:28-142 | They give back the image if and only if every such two rows have equal chroma |
| Rotate.MakeRotateRole | MiniDV/UI/SOURCE/Clock.c:79-119 | The target role is the turned image of the source role cut to even sizes, in a fresh buffer with fitting sizes |
| EventCapa.IndexFits | libIPLAY/include/wireless.h:643-647 | Exactly the commands that fit have their word inside the six |
| EventCapa.FirstBits | libIPLAY/include/wireless.h:643-648 | The standard commands begin at bit 0 of word 0, the private ones at bit 0 of word 3 |
| EventCapa.NextBit | libIPLAY/include/wireless.h:643-648 | The next command has the next bit to the left, 32 to a word |
| EventCapa.WhenSameBit | libIPLAY/include/wireless.h:643-647 | Two commands share a bit if and only if they are equal or 0x80 apart across the private range; the standard and private commands never do |
| EventCapa.WithBitHas | libIPLAY/include/wireless.h:655-655 | Setting a command's bit sets the commands that share it and no other |
| EventCapa.Set | libIPLAY/include/wireless.h:655-655 | The array afterwards |
| EventCapa.SetAllHas | libIPLAY/include/wireless.h:655-655 | After any sequence, a bit is set if and only if it was before or a command sharing it was added |
| EventCapa.BitmapHas | libIPLAY/include/wireless.h:643-655 | From empty words, a bit is set if and only if its command or its partner was added |
| EventCapa.BitmapIsSet | libIPLAY/include/wireless.h:643-655 | Among the standard and private commands the bitmap is exactly the set of those added |
| EventCapa.SetKernel | libIPLAY/include/wireless.h:650-656 | The combined masks do what setting the four kernel commands one by one does |
| EventCapa.KernelBitmap | libIPLAY/include/wireless.h:650-656 | From empty words the kernel events are 0x04000050 and 0x400 |

## Left out

- Network devices: the branches of the stream functions for wireless and Ethernet media, with their semaphores, waiting and movie instructions, are not part of this model; only local devices are.
- The stream cache: it is compiled out (its macro is not defined), so `cache_stream_fill_buffer` and `cache_stream_seek_long` are the plain functions.
- The file system: only reading and seeking in an existing chain on FAT12, FAT16 and FAT32 is modelled. Directories, writing, exFAT, files in memory, and the fixed root directory of FAT12 and FAT16 are left out. The card stays present and the table readable; only the transfer of sectors, whose driver is not part of this model, may fail.
- FatHandle.RunCalls: files of up to 4 GiB less 64 KiB, as `FatHandle.WhenReliedOn` makes exact, and the blocks that streams ask for; `FatChain.Chain.Read` and `FatChain.Chain.Seek` are for all sizes, lengths and positions. Sector and cluster sizes divide 4 GiB, as powers of two do. A medium with short reads is part of the handle only; the chain shows reliable and failing drives.
- Stream.Create: the opening of the file and the failure to get memory; the stream's other fields are set by the constructor as `stream_create` leaves them.
- The uncached alias of the buffer address and the choice between copy routines: both are the same memory.
- StreamRun.Interleave: with a medium whose reads may be short, only runs without long seeks are covered, because a seek then fails depending on the pieces; `Stream.Stream.Seek` still says where the cursor is.
- StreamRun.Perform: as for the interleaved runs; a faulty medium is covered by the contracts of the single operations.
- StreamWords.ReadQword: the 64-bit numbers are pairs of 32-bit words.
- FloodFill.Fill: asks that the new value does not match, as the one call in the program does (0x7A7A7294 is no non-skin colour); otherwise the fill would meet its own paint. The option to pass no report is left out. The match function is any function of the pixel word.
- BmpScan.Scan: the offset taken must lie behind the height (`BmpScan.WhenOffsetTaken` says when it does) and the width and height taken must be positive; otherwise the program would store pixels by variables not yet set. The printing, menus and file names, the freeing of the previous buffer and the duplicate first pass over the first file are left out.
- YuvEncode.Convert: headers as for `BmpScan.Scan`, and always with the header that the user may decline. `YuvEncode.PayloadShape` is for even widths: with an odd width pairs run on into the next row.
- ClockFace.Clock.SkippedSeconds: on a display that holds the hands, which 800 by 480 with its centre in the middle does. Of the tables Red1X to Red7Y it uses that row i of a Y table is i, that an X table lies below it, and the entries in the rows where hands end; the other results hold for any tables, and all for any centre circle.
- The hour and minute hands are images on another layer. The body of `Idu_OsdPaintData` is not part of this model; `ClockFace.Clock.Poll` takes it to paint its square pixel by pixel.
- Osd.OsdWin.PaintArea: an even display width, as all display modes have; the palette is not modelled.
- Calendar.GetWeekDay: months 1 to 12 only, like the other calendar members; a month outside indexes past the table or names no month.
- Calendar: fonts, sprites, the header, the year and the week title; drawing is a log of day, style and corner.
- SystemTime.SystemTimeRecord.FromSecond: the registers of the real-time clock, the alarms and the timers are left out.
- Rotate.MakeRotateRole: an even row length of the source buffer, so that rows start at whole quads; the remaining fields of a role are copied and not modelled.
- `Img_Rotate180` of the library, which ignores row padding, `Img_Rotate90` with odd heights, and the post-processing hardware variants.
- KeyPad, infrared, GPIO, alarm and menu code: tables of cases. Hierarchical state machine, USB, Bluetooth, NAND and PNG code: interfaces to hardware, or missing bodies.
