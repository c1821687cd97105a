/** A file on a FAT drive: a chain of clusters, read in fragments of a sector and in runs of
    neighbouring clusters. */
module FatChain {
  import opened Basics
  import opened Division

  // FAT_READ_END_OF_CHAIN, and the sector number for a position behind the last cluster.
  const NONE := 0xFFFF_FFFF

  class Drive {
    const sectorSize: nat     // 1 << bSectorExp
    const clusterSize: nat    // sectors to a cluster, 1 << ClusterExp
    const clusterBytes: nat   // 1 << (ClusterExp + bSectorExp)
    const dataStart: nat
    const sectors: seq<seq<bv8>>
    const fat: seq<nat>
    const reliable: bool

    constructor (sectorSize: nat, clusterSize: nat, dataStart: nat, sectors: seq<seq<bv8>>, fat: seq<nat>, reliable: bool)
      requires sectorSize > 0 && clusterSize > 0 && |fat| <= NONE && |sectors| <= NONE
      requires Rows(clusterSize, sectorSize) < U32 && exists n: nat :: Rows(n, Rows(clusterSize, sectorSize)) == U32
      requires forall lba :: 0 <= lba < |sectors| ==> |sectors[lba]| == sectorSize
      ensures Valid() && this.sectorSize == sectorSize && this.clusterSize == clusterSize
      ensures this.dataStart == dataStart && this.sectors == sectors && this.fat == fat && this.reliable == reliable
    {
      DivideTwice(0, sectorSize, clusterSize);
      this.sectorSize, this.clusterSize, this.clusterBytes := sectorSize, clusterSize, Rows(clusterSize, sectorSize);
      this.dataStart, this.sectors, this.fat, this.reliable := dataStart, sectors, fat, reliable;
    }

    // Sizes are powers of two, so that whole clusters make up the range of a 32-bit offset.
    ghost predicate Valid() {
      && sectorSize > 0 && clusterSize > 0 && 0 < clusterBytes == Rows(clusterSize, sectorSize) && clusterBytes < U32
      && (exists n: nat :: Rows(n, clusterBytes) == U32)
      && |fat| <= NONE && |sectors| <= NONE
      && forall lba :: 0 <= lba < |sectors| ==> |sectors[lba]| == sectorSize
    }

    lemma SectorSize()
      requires Valid()
      ensures 0 < sectorSize < U32
    {
      RowsApart(0, clusterSize, sectorSize);
    }

    // The first sector of a cluster.
    function ClusterStart(c: nat): int {
      dataStart + Rows(c - 2, clusterSize)
    }

    /** Cluster 2 is the first of the data area, and every cluster takes its number of sectors. */
    lemma ClusterPlace(c: nat)
      requires c >= 2
      ensures ClusterStart(2) == dataStart
      ensures ClusterStart(c) == dataStart + (c - 2) * clusterSize
    {
      RowsIsProduct(c - 2, clusterSize);
    }

    // Byte o of a sector; outside the drive there is nothing.
    function SectorByte(lba: int, o: int): bv8 {
      if 0 <= lba < |sectors| && 0 <= o < |sectors[lba]| then sectors[lba][o] else 0
    }

    // What index k of a buffer holds after sectors from lba on have been read to index at.
    function Loaded(at: nat, lba: nat, k: int): bv8 {
      if sectorSize > 0 then SectorByte(lba + (k - at) / sectorSize, (k - at) % sectorSize) else 0
    }

    /** Behind each other in the buffer, the bytes of consecutive sectors. */
    lemma LoadedAt(at: nat, lba: nat, i: nat)
      requires Valid() && lba + i / sectorSize < |sectors|
      ensures i % sectorSize < |sectors[lba + i / sectorSize]|
      ensures Loaded(at, lba, at + i) == sectors[lba + i / sectorSize][i % sectorSize]
    {
    }

    /** DriveRead: count sectors from lba on. What a failed read leaves in their place in the
        buffer is not specified. */
    method Read(buffer: array<bv8>, at: nat, lba: nat, count: nat) returns (ok: bool)
      requires Valid() && lba + count <= |sectors| && at + Rows(count, sectorSize) <= buffer.Length
      modifies buffer
      ensures reliable ==> ok
      ensures forall k {:trigger buffer[k]} :: 0 <= k < buffer.Length && !(at <= k < at + Rows(count, sectorSize)) ==>
                buffer[k] == old(buffer[k])
      ensures ok ==> forall k {:trigger buffer[k]} :: at <= k < at + Rows(count, sectorSize) ==>
                buffer[k] == Loaded(at, lba, k)
    {
      ok := *;
      if !ok && !reliable {
        return;
      }
      ok := true;
      hide Loaded;
      forall k | at <= k < at + Rows(count, sectorSize) {
        buffer[k] := Loaded(at, lba, k);
      }
    }
  }

  // How the stages of a reading on a reliable drive went: the offsets behind head, body and tail.
  datatype Stages = Stages(p1: nat, okBody: bool, done: nat, p2: nat, okTail: bool, p3: nat)

  /** The chain of a file and the position in it, a 32-bit offset. */
  class Chain {
    const drv: Drive
    const start: nat
    const size: nat
    ghost const clusters: seq<nat>   // the clusters of the file, in order
    ghost var index: nat             // the number of the current one
    var current: nat
    var point: nat

    /** ChainInit: a chain at its start. */
    constructor (drv: Drive, start: nat, size: nat, ghost clusters: seq<nat>)
      ensures this.drv == drv && this.start == start && this.size == size && this.clusters == clusters
      ensures current == start && point == 0 && index == 0
    {
      this.drv, this.start, this.size, this.clusters := drv, start, size, clusters;
      current, point, index := start, 0, 0;
    }

    // ---- The file as the drive holds it ----

    // The chain from start on: each entry of the table leads to the next cluster, the last one
    // to the end, and there are clusters enough for the size.
    ghost predicate Formed() {
      && drv.Valid() && 0 < |clusters| && clusters[0] == start && size < U32
      && (forall i {:trigger clusters[i]} :: 0 <= i < |clusters| ==> OnDrive(clusters[i]) && Linked(i))
      && ClusterCount() <= |clusters|
    }

    ghost predicate Linked(i: nat)
      requires i < |clusters| && clusters[i] < |drv.fat|
    {
      drv.fat[clusters[i]] == if i + 1 < |clusters| then clusters[i + 1] else NONE
    }

    predicate OnDrive(c: nat) {
      2 <= c < |drv.fat| && 0 <= drv.ClusterStart(c) && drv.ClusterStart(c) + drv.clusterSize <= |drv.sectors|
    }

    lemma Sizes()
      requires Formed()
      ensures 0 < drv.clusterBytes && 0 < |clusters| && clusters[0] == start && ClusterCount() <= |clusters|
      ensures drv.Valid() && 0 < drv.sectorSize && 0 < drv.clusterSize && size < U32
    {
    }

    // The number in the chain of the cluster at an offset.
    function ClusterOf(offset: nat): nat
      requires drv.clusterBytes > 0
    {
      offset / drv.clusterBytes
    }

    // The clusters that the size needs: one at least.
    function ClusterCount(): nat
      requires drv.clusterBytes > 0
    {
      if size == 0 then 1 else size / drv.clusterBytes + if size % drv.clusterBytes != 0 then 1 else 0
    }

    // The end of the last cluster needed, which no seek to another cluster should pass.
    function ChainEnd(): int
      requires drv.clusterBytes > 0
    {
      Rows(ClusterCount(), drv.clusterBytes)
    }

    // The same in the 32 bits that the code computes it in.
    function Reach(): int
      requires drv.clusterBytes > 0
    {
      ChainEnd() % U32
    }

    // The number in the chain of the cluster with sector n of the file, and the place in it.
    function ClusterAt(n: nat): nat
      requires drv.clusterSize > 0
    {
      n / drv.clusterSize
    }

    function InCluster(n: nat): nat
      requires drv.clusterSize > 0
    {
      n % drv.clusterSize
    }

    function SectorOf(offset: nat): nat
      requires drv.sectorSize > 0
    {
      offset / drv.sectorSize
    }

    predicate Aligned(offset: nat)
      requires drv.sectorSize > 0
    {
      offset % drv.sectorSize == 0
    }

    // The sector of the drive that holds sector n of the file.
    ghost function Lba(n: nat): int {
      if drv.clusterSize > 0 && ClusterAt(n) < |clusters|
      then drv.ClusterStart(clusters[ClusterAt(n)]) + InCluster(n)
      else 0
    }

    // Byte b of the file.
    ghost function Byte(b: nat): bv8 {
      if drv.sectorSize > 0 then drv.SectorByte(Lba(b / drv.sectorSize), b % drv.sectorSize) else 0
    }

    ghost function Content(): (c: seq<bv8>)
      ensures |c| == size
    {
      seq(size, b requires 0 <= b < size => Byte(b))
    }

    /** The bytes of the file lie on the drive where its clusters lie, in the order of the chain:
        cluster c of the drive at sector dataStart + (c - 2) * clusterSize. */
    lemma ContentAt(b: nat) returns (i: nat, c: nat, lba: nat, o: nat)
      requires Formed() && b < size
      ensures i < |clusters| && c == clusters[i] >= 2 && lba < |drv.sectors| && o < |drv.sectors[lba]|
      ensures Content()[b] == drv.sectors[lba][o]
      ensures PlaceIs(b, i, c, lba, o)
    {
      InFile(b);
      ClusterOfSector(b);
      i, o := ClusterOf(b), b % drv.sectorSize;
      c := clusters[i];
      assert OnDrive(c);
      drv.ClusterPlace(c);
      var t := PartOf(b, drv.sectorSize, drv.clusterSize, drv.clusterBytes, b % drv.clusterBytes);
      SectorOnDrive(SectorOf(b), 0);
      lba := drv.ClusterStart(c) + t;
    }

    // Offset b of the file lies in the i-th cluster of the chain, cluster c of the drive, at offset
    // o of sector lba.
    ghost predicate PlaceIs(b: nat, i: nat, c: nat, lba: nat, o: nat) {
      && drv.clusterBytes > 0 && drv.sectorSize > 0
      && i == b / drv.clusterBytes && o == b % drv.sectorSize
      && lba == drv.dataStart + (c - 2) * drv.clusterSize + b % drv.clusterBytes / drv.sectorSize
    }

    /** Each cluster of the chain leads to the next in the table, and the last one to the end. */
    lemma ChainLinks(i: nat)
      requires Formed() && i < |clusters|
      ensures 2 <= clusters[i] < |drv.fat| && clusters[0] == start
      ensures drv.fat[clusters[i]] == if i + 1 < |clusters| then clusters[i + 1] else 0xFFFF_FFFF
    {
      assert OnDrive(clusters[i]) && Linked(i);
    }

    // ---- The position ----

    // The current cluster is one of the chain. That is all that can be said after a read that
    // went wrong.
    ghost predicate Loose()
      reads this
    {
      Formed() && index < |clusters| && current == clusters[index] && point < U32
    }

    // Cluster i is the one of offset p; behind the last cluster it is the last.
    ghost predicate TracksAt(p: nat, i: nat)
      requires Formed()
    {
      ClusterOf(p) <= |clusters| && i == Min(ClusterOf(p), |clusters| - 1)
    }

    ghost predicate Tracks()
      requires Formed()
      reads this
    {
      TracksAt(point, index)
    }

    ghost predicate Valid()
      reads this
    {
      Loose() && Tracks() && ClusterOf(point) <= ClusterCount()
    }

    // Is_ChainPoint_EOC_and_At_Boundary
    predicate AtEnd()
      requires drv.clusterBytes > 0
      reads this
    {
      IsEnd(point)
    }

    predicate IsEnd(p: nat)
      requires drv.clusterBytes > 0
    {
      ClusterOf(p) > 0 && p % drv.clusterBytes == 0 && p >= size
    }

    // ---- Offsets ----

    lemma ClusterOrder(p: nat, q: nat)
      requires p <= q && drv.clusterBytes > 0
      ensures ClusterOf(p) <= ClusterOf(q)
      ensures q <= ChainEnd() ==> ClusterOf(q) <= ClusterCount()
      ensures ClusterOf(p) < ClusterCount() ==> p < ChainEnd()
    {
      DivideOrder(p, q, drv.clusterBytes);
      DivideBelow(q, drv.clusterBytes, ClusterCount());
      DivideBelow(p, drv.clusterBytes, ClusterCount());
    }

    lemma StartOfChain()
      requires drv.clusterBytes > 0
      ensures ClusterOf(0) == 0
    {
    }

    // When whole clusters up to the n-th make up the 32-bit range.
    lemma CountInRange(n: nat)
      requires drv.clusterBytes > 0 && size < U32 == Rows(n, drv.clusterBytes) && drv.clusterBytes < U32
      ensures 0 < ClusterCount() <= n && size <= ChainEnd() <= U32
      ensures ClusterCount() < n <==> size <= U32 - drv.clusterBytes
      ensures ClusterCount() < n ==> ChainEnd() < U32
    {
      var c := ClusterCount();
      Split(size, drv.clusterBytes);
      DivideBelow(size, drv.clusterBytes, n);
      assert n > 0;
      DivideBelow(size, drv.clusterBytes, n - 1);
      if c < n { RowsApart(c, n, drv.clusterBytes); }
    }

    // The end of the chain is in 32 bits unless it is the first offset that is not: then the
    // code takes it for 0.
    lemma ReachOrZero()
      requires Formed()
      ensures 0 < ChainEnd() <= U32 && size <= ChainEnd()
      ensures ChainEnd() % drv.clusterBytes == 0 && ChainEnd() - drv.clusterBytes < Max(size, 1)
      ensures Reach() == if ChainEnd() < U32 then ChainEnd() else 0
      ensures ChainEnd() < U32 <==> size <= U32 - drv.clusterBytes
    {
      var n: nat :| Rows(n, drv.clusterBytes) == U32;
      hide Formed, Drive.Valid, ClusterCount;
      Sizes();
      CountInRange(n);
      RowsApart(0, ClusterCount(), drv.clusterBytes);
      LastClusterNeeded();
    }

    // The last cluster needed holds a byte of the file, or is the first one.
    lemma LastClusterNeeded()
      requires drv.clusterBytes > 0
      ensures ChainEnd() % drv.clusterBytes == 0 && ChainEnd() - drv.clusterBytes < Max(size, 1)
    {
      var c := drv.clusterBytes;
      Split(size, c);
      AddRows(0, ClusterCount(), c);
    }

    /** A seek is accepted within a cluster, to the start, and up to the end of the chain if that is
        below 2^32. */
    lemma AcceptedIs(p: nat, q: nat)
      requires Formed()
      ensures Accepted(p, q)
              <==> p / drv.clusterBytes == q / drv.clusterBytes || q == 0 || (ChainEnd() < U32 && q <= ChainEnd())
    {
      ReachOrZero();
      hide Formed, Drive.Valid, ClusterCount, ChainEnd, Reach;
      Sizes();
    }

    // A size of whole clusters is its own end.
    lemma WholeClusters()
      requires Formed() && size > 0 && size % drv.clusterBytes == 0
      ensures ChainEnd() == size && ClusterOf(size) == ClusterCount() > 0
    {
      Split(size, drv.clusterBytes);
    }

    // ---- Seeking ----

    // The loop of ChainSeekForward over the table.
    method Follow(from: nat, mary: nat)
      requires Loose()
      modifies `current, `index
      ensures Loose()
      ensures index == if from < mary then Min(old(index) + (mary - from), |clusters| - 1) else old(index)
    {
      var john := from;
      while john < mary
        invariant Loose() && (from <= mary ==> from <= john <= mary) && (from > mary ==> john == from)
        invariant index == old(index) + (john - from)
      {
        assert Linked(index);
        var next := drv.fat[current];
        if next == NONE {
          break;
        }
        current := next;
        index := index + 1;
        john := john + 1;
      }
    }

    // Whether a seek forwards from offset p to offset q is accepted.
    predicate Accepted(p: nat, q: nat)
      requires drv.clusterBytes > 0
    {
      ClusterOf(q) == ClusterOf(p) || q <= Reach()
    }

    /** ChainSeekForward: the sum is a 32-bit one. */
    method SeekForward(distance: nat) returns (ok: bool)
      requires Loose() && distance < U32
      modifies this
      ensures Loose()
      ensures var target := (old(point) + distance) % U32;
              (ok <==> Accepted(old(point), target)) && point == if ok then target else old(point)
      ensures old(Valid()) && old(point) + distance < U32 ==> Valid()
      ensures old(Valid()) && !ok ==> index == old(index)
    {
      hide Formed, Drive.Valid, Reach, ClusterCount, ClusterOf;
      Sizes();
      if distance == 0 {
        return true;
      }
      var oriPoint := point;
      var john := ClusterOf(point);
      point := (point + distance) % U32;
      var mary := ClusterOf(point);
      if mary == john {
        return true;
      }
      var rangeMax := Reach();
      if point > rangeMax {
        point := oriPoint;
        return false;
      }
      Follow(john, mary);
      ReachOrZero();
      ok := true;
      if oriPoint <= point {
        ClusterOrder(oriPoint, point);
      }
    }

    /** ChainSeekSet: back to the start. */
    method SeekSet()
      requires Formed()
      modifies this
      ensures Valid() && point == 0
    {
      hide Formed, Drive.Valid, ClusterCount;
      Sizes();
      StartOfChain();
      current, point, index := start, 0, 0;
    }

    /** ChainSeek: succeeds within the current cluster, and to another one up to the end of the
        chain, as far as 32 bits show it. A seek backwards that fails ends at the start. */
    method Seek(position: nat) returns (ok: bool)
      requires Valid() && position < U32
      modifies this
      ensures Valid()
      ensures ok <==> Accepted(old(point), position) || (position < old(point) && ClusterOf(position) == 0)
      ensures point == if ok then position else if position < old(point) then 0 else old(point)
    {
      hide Formed, Drive.Valid, Reach, ClusterCount, ClusterOf;
      Sizes();
      StartOfChain();
      if position == point {
        return true;
      } else if position < point {
        if ClusterOf(position) == ClusterOf(point) {
          point := position;
          return true;
        } else {
          current, point, index := start, 0, 0;
          ok := SeekForward(position);
        }
      } else {
        ok := SeekForward(position - point);
      }
    }

    // ---- Sectors ----

    // The sector of the file that is read at offset p with cluster i the current one.
    ghost function HereAt(p: nat, i: nat): nat
      requires drv.Valid()
    {
      RowsNonNegative(i, drv.clusterSize);
      Rows(i, drv.clusterSize) + InCluster(SectorOf(p))
    }

    lemma HereIs(p: nat, i: nat)
      requires drv.Valid()
      ensures ClusterAt(HereAt(p, i)) == i && InCluster(HereAt(p, i)) == InCluster(SectorOf(p)) < drv.clusterSize
    {
      RowsNonNegative(i, drv.clusterSize);
      Divide(HereAt(p, i), drv.clusterSize, i, InCluster(SectorOf(p)));
    }

    lemma ClusterOfSector(offset: nat)
      requires drv.Valid()
      ensures ClusterOf(offset) == ClusterAt(SectorOf(offset))
    {
      DivideTwice(offset, drv.sectorSize, drv.clusterSize);
    }

    // In step, that is the sector of the position.
    lemma HereInStep(p: nat, i: nat)
      requires Formed() && TracksAt(p, i) && ClusterOf(p) < |clusters|
      ensures HereAt(p, i) == SectorOf(p)
    {
      ClusterOfSector(p);
      Split(SectorOf(p), drv.clusterSize);
    }

    // The position count sectors further on, in 32 bits.
    function Moved(p: nat, count: nat): (q: nat)
      requires drv.sectorSize > 0
      ensures q < U32
    {
      RowsNonNegative(count, drv.sectorSize);
      (p + Rows(count, drv.sectorSize)) % U32
    }

    lemma MovedTwice(p: nat, k: nat, l: nat)
      requires drv.sectorSize > 0
      ensures Moved(Moved(p, k), l) == Moved(p, k + l)
    {
      RowsAdd(k, l, drv.sectorSize);
      RowsNonNegative(k, drv.sectorSize);
      RowsNonNegative(l, drv.sectorSize);
    }

    // Whole sectors make up the 32-bit range.
    lemma SectorsInRange() returns (n: nat)
      requires drv.Valid()
      ensures Rows(n, drv.sectorSize) == U32
    {
      var k: nat :| Rows(k, drv.clusterBytes) == U32;
      RowsOfRows(k, drv.clusterSize, drv.sectorSize);
      n := Rows(k, drv.clusterSize);
    }

    // Moving by whole sectors keeps the offset in the sector, and in the cluster it adds up.
    lemma MovedPlace(p: nat, count: nat)
      requires drv.Valid()
      ensures Moved(p, count) % drv.sectorSize == p % drv.sectorSize
      ensures InCluster(SectorOf(Moved(p, count))) == InCluster(SectorOf(p) + count)
    {
      var n := SectorsInRange();
      var k: nat :| Rows(k, drv.clusterBytes) == U32;
      hide Drive.Valid;
      RowsNonNegative(count, drv.sectorSize);
      var q := p + Rows(count, drv.sectorSize);
      WrapMod(q, drv.sectorSize, n, U32);
      AddRows(p, count, drv.sectorSize);
      WrapMod(q, drv.clusterBytes, k, U32);
      SamePart(q % U32, q, drv.sectorSize, drv.clusterSize, drv.clusterBytes);
    }

    // The sector k places behind sector n.
    ghost function LbaFrom(n: nat, k: nat): int {
      Lba(n + k)
    }

    // The first count sectors from n on lie side by side on the drive.
    ghost predicate Adjacent(n: nat, count: nat) {
      forall k {:trigger LbaFrom(n, k)} :: 0 <= k < count ==> LbaFrom(n, k) == Lba(n) + k && 0 <= LbaFrom(n, k) < |drv.sectors|
    }

    lemma WithinCluster(n: nat, j: nat)
      requires drv.clusterSize > 0 && j < drv.clusterSize - InCluster(n)
      ensures ClusterAt(n + j) == ClusterAt(n) && InCluster(n + j) == InCluster(n) + j
      ensures InCluster(n) < drv.clusterSize
    {
      StayWithin(n, drv.clusterSize, j);
    }

    lemma BehindCluster(n: nat)
      requires drv.clusterSize > 0
      ensures InCluster(n) < drv.clusterSize
      ensures var m := n + (drv.clusterSize - InCluster(n)); ClusterAt(m) == ClusterAt(n) + 1 && InCluster(m) == 0
    {
      NextMultiple(n, drv.clusterSize);
    }

    lemma SamePlace(a: nat, b: nat, k: nat)
      requires drv.clusterSize > 0 && InCluster(a) == InCluster(b)
      ensures InCluster(a + k) == InCluster(b + k)
    {
      AddMod(a, b, k, drv.clusterSize);
    }

    lemma SectorOnDrive(n: nat, j: nat)
      requires Formed() && ClusterAt(n) < |clusters| && j < drv.clusterSize - InCluster(n)
      ensures Lba(n + j) == Lba(n) + j && 0 <= Lba(n + j) < |drv.sectors|
    {
      WithinCluster(n, j);
      hide ClusterAt, InCluster, Drive.ClusterStart, ClusterCount;
      assert OnDrive(clusters[ClusterAt(n)]);
    }

    // The cluster behind another on the drive begins where that one ends.
    lemma NextStart(c: nat)
      requires drv.clusterSize > 0 && c >= 2
      ensures drv.ClusterStart(c + 1) == drv.ClusterStart(c) + drv.clusterSize
    {
    }

    lemma NextCluster(n: nat)
      requires Formed() && ClusterAt(n) + 1 < |clusters| && clusters[ClusterAt(n) + 1] == clusters[ClusterAt(n)] + 1
      requires InCluster(n) <= drv.clusterSize
      ensures Lba(n + (drv.clusterSize - InCluster(n))) == Lba(n) + (drv.clusterSize - InCluster(n))
    {
      BehindCluster(n);
      hide ClusterAt, InCluster, ClusterCount;
      assert OnDrive(clusters[ClusterAt(n)]);
      NextStart(clusters[ClusterAt(n)]);
      hide Drive.ClusterStart;
    }

    lemma MoreAdjacent(n: nat, count: nat, more: nat)
      requires Formed() && Adjacent(n, count) && LbaFrom(n, count) == Lba(n) + count
      requires ClusterAt(n + count) < |clusters| && more <= drv.clusterSize - InCluster(n + count)
      ensures Adjacent(n, count + more)
    {
      hide ClusterAt, InCluster, ClusterCount, Lba;
      forall k | 0 <= k < count + more
        ensures LbaFrom(n, k) == Lba(n) + k && 0 <= LbaFrom(n, k) < |drv.sectors|
      {
        if k >= count {
          SectorOnDrive(n + count, k - count);
        }
      }
    }

    /** ChainGetLba: NONE behind the last cluster; otherwise the sector on the drive, which in
        step is the one of the position. */
    method GetLba() returns (lba: int)
      requires Loose()
      ensures lba == NONE <==> AtEnd()
      ensures !AtEnd() ==> lba == Lba(HereAt(point, index)) && 0 <= lba < |drv.sectors|
      ensures lba == 0xFFFF_FFFF
              <==> point >= drv.clusterBytes && point % drv.clusterBytes == 0 && point >= size
      ensures lba != 0xFFFF_FFFF ==>
                lba == drv.dataStart + (current - 2) * drv.clusterSize + point / drv.sectorSize % drv.clusterSize
    {
      FirstCluster(point);
      if AtEnd() {
        return NONE;
      }
      LbaHere();
      hide Formed, Drive.Valid;
      Sizes();
      lba := drv.ClusterStart(current) + InCluster(SectorOf(point));
      drv.ClusterPlace(current);
    }

    lemma FirstCluster(p: nat)
      requires Formed()
      ensures ClusterOf(p) > 0 <==> p >= drv.clusterBytes
    {
      Split(p, drv.clusterBytes);
      DivideBelow(p, drv.clusterBytes, 1);
    }

    lemma LbaHere()
      requires Loose()
      ensures drv.ClusterStart(current) + InCluster(SectorOf(point)) == Lba(HereAt(point, index))
      ensures 0 <= Lba(HereAt(point, index)) < |drv.sectors| <= NONE
    {
      HereIs(point, index);
      SectorOnDrive(HereAt(point, index), 0);
    }

    // ---- Runs of neighbouring clusters ----

    // The loop in ChainGetContinuity has taken count sectors from sector n on and is at offset p
    // and cluster i. As long as it goes on, the next sector is adjacent, too.
    ghost predicate Gathered(n: nat, count: nat, again: bool, p: nat, i: nat)
      requires Formed()
    {
      && InCluster(SectorOf(p)) == InCluster(n + count) && Adjacent(n, count) && i < |clusters|
      && ClusterAt(n + count) <= |clusters|
      && if again then i == ClusterAt(n + count) && LbaFrom(n, count) == Lba(n) + count
         else i == Min(ClusterAt(n + count), |clusters| - 1)
    }

    lemma StartGathering(p: nat, i: nat)
      requires Formed() && i < |clusters|
      ensures Gathered(HereAt(p, i), 0, true, p, i)
    {
      HereIs(p, i);
      hide ClusterAt, SectorOf, Lba, HereAt, InCluster;
    }

    // The last sectors taken: some of the cluster, or all of the last one.
    lemma TakeSome(n: nat, count: nat, p: nat, i: nat, taken: nat)
      requires Formed() && Gathered(n, count, true, p, i) && taken <= drv.clusterSize - InCluster(n + count)
      requires i + 1 == |clusters| || taken < drv.clusterSize - InCluster(n + count)
      ensures Gathered(n, count + taken, false, Moved(p, taken), i)
    {
      hide Rows, Lba, Adjacent, ClusterAt, InCluster, SectorOf, ClusterCount, Formed, Drive.Valid, Moved;
      Sizes();
      MovedPlace(p, taken);
      SamePlace(SectorOf(p), n + count, taken);
      MoreAdjacent(n, count, taken);
      if taken < drv.clusterSize - InCluster(n + count) {
        WithinCluster(n + count, taken);
      } else {
        BehindCluster(n + count);
      }
    }

    // All sectors of a cluster taken, and on to the next one.
    lemma TakeCluster(n: nat, count: nat, p: nat, i: nat, taken: nat)
      requires Formed() && Gathered(n, count, true, p, i) && taken == drv.clusterSize - InCluster(n + count)
      requires i + 1 < |clusters|
      ensures Gathered(n, count + taken, clusters[i + 1] == clusters[i] + 1, Moved(p, taken), i + 1)
      ensures InCluster(n + count + taken) == 0 && ClusterAt(n + count + taken) == i + 1
    {
      hide Rows, Lba, Adjacent, ClusterAt, InCluster, SectorOf, ClusterCount, Formed, Drive.Valid, Moved;
      Sizes();
      MovedPlace(p, taken);
      SamePlace(SectorOf(p), n + count, taken);
      MoreAdjacent(n, count, taken);
      BehindCluster(n + count);
      if clusters[i + 1] == clusters[i] + 1 { NextCluster(n + count); }
    }

    lemma OnTable()
      requires Loose()
      ensures current < |drv.fat| && 0 < drv.sectorSize && 0 < drv.clusterSize && drv.Valid()
      ensures drv.fat[current] == if index + 1 < |clusters| then clusters[index + 1] else NONE
      ensures index + 1 < |clusters| ==> clusters[index + 1] < NONE
    {
      assert Linked(index);
    }

    // The body of the loop in ChainGetContinuity.
    method TakeNext(rest: nat, addend: nat, ghost n: nat, ghost count: nat) returns (taken: nat, again: bool)
      requires Loose() && Gathered(n, count, true, point, index) && 0 < addend == drv.clusterSize - InCluster(n + count)
      modifies this
      ensures Loose() && taken <= rest && (rest > 0 ==> taken > 0) && point == Moved(old(point), taken)
      ensures Gathered(n, count + taken, again, point, index)
      ensures again ==> InCluster(n + count + taken) == 0 && index == old(index) + 1
    {
      hide Rows, Lba, Adjacent, ClusterAt, InCluster, SectorOf, ClusterCount, Formed, Drive.Valid, Gathered, Moved;
      OnTable();
      var previous := current;
      var next := drv.fat[current];
      if next == NONE {
        taken, again := if addend >= rest then rest else addend, false;
        TakeSome(n, count, point, index, taken);
        point := Moved(point, taken);
      } else if rest >= addend {
        taken := addend;
        TakeCluster(n, count, point, index, addend);
        point := Moved(point, addend);
        current, index := next, index + 1;
        again := current == previous + 1;
      } else {
        taken, again := rest, false;
        TakeSome(n, count, point, index, rest);
        point := Moved(point, rest);
      }
    }

    // What the loop in ChainGetContinuity keeps: count sectors from offset p and cluster i on have
    // been taken, rest are still requested, and addend are left in the cluster.
    ghost predicate Gathering(p: nat, i: nat, count: nat, request: nat, rest: nat, addend: nat, again: bool)
      requires Formed() && i < |clusters|
      reads this
    {
      && Loose() && Gathered(HereAt(p, i), count, again, point, index) && point == Moved(p, count)
      && rest + count == request && (count == 0 ==> again)
      && (again ==> 0 < addend == drv.clusterSize - InCluster(HereAt(p, i) + count))
    }

    lemma StartOfRun(request: nat)
      requires Loose()
      ensures Gathering(point, index, 0, request, request, drv.clusterSize - InCluster(SectorOf(point)), true)
      ensures InCluster(SectorOf(point)) < drv.clusterSize
    {
      HereIs(point, index);
      StartGathering(point, index);
      NoRows(drv.sectorSize);
    }

    lemma NoRows(s: int)
      ensures Rows(0, s) == 0
    {
    }

    // How it ends: in step, if it was so at the beginning and the offset did not wrap.
    lemma EndOfRun(p: nat, i: nat, count: nat, request: nat, rest: nat, addend: nat)
      requires Formed() && i < |clusters| && Gathering(p, i, count, request, rest, addend, false)
      ensures 0 < count <= request && point == Moved(p, count) && Adjacent(HereAt(p, i), count)
      ensures 0 <= Rows(count, drv.sectorSize)
      ensures TracksAt(p, i) && ClusterOf(p) < |clusters| && p + Rows(count, drv.sectorSize) < U32 ==> Tracks()
    {
      hide Formed, Drive.Valid, Adjacent, ClusterAt, InCluster, HereAt, SectorOf, ClusterOf, Rows;
      Sizes();
      RowsNonNegative(count, drv.sectorSize);
      if TracksAt(p, i) && ClusterOf(p) < |clusters| && p + Rows(count, drv.sectorSize) < U32 {
        HereInStep(p, i);
        SectorsOn(p, count);
        ClusterOfSector(point);
      }
    }

    lemma SectorsOn(p: nat, count: nat)
      requires drv.sectorSize > 0 && 0 <= Rows(count, drv.sectorSize)
      ensures SectorOf(p + Rows(count, drv.sectorSize)) == SectorOf(p) + count
    {
      AddRows(p, count, drv.sectorSize);
    }

    method GatherMore(ghost p: nat, ghost i: nat, count: nat, ghost request: nat, rest: nat, addend: nat)
      returns (count': nat, rest': nat, again: bool)
      requires Formed() && i < |clusters| && Gathering(p, i, count, request, rest, addend, true) && request > 0
      modifies this
      ensures Gathering(p, i, count', request, rest', drv.clusterSize, again)
      ensures again ==> index == old(index) + 1
    {
      hide Rows, Lba, Adjacent, ClusterAt, InCluster, SectorOf, ClusterCount, Formed, Drive.Valid, Gathered, Moved, HereAt;
      Sizes();
      var taken;
      taken, again := TakeNext(rest, addend, HereAt(p, i), count);
      MovedTwice(p, count, taken);
      count', rest' := count + taken, rest - taken;
    }

    /** ChainGetContinuity: how many of the sectors requested lie side by side from the position
        on; the position moves behind them. */
    method GetContinuity(request: nat) returns (result: nat)
      requires Loose() && request > 0
      modifies this
      ensures Loose() && 0 < result <= request && point == Moved(old(point), result)
      ensures 0 <= Rows(result, drv.sectorSize) && Adjacent(old(HereAt(point, index)), result)
      ensures old(Tracks() && ClusterOf(point) < |clusters|) && old(point) + Rows(result, drv.sectorSize) < U32 ==> Tracks()
    {
      hide Formed, Drive.Valid, Gathered, Gathering, InCluster, SectorOf, ClusterOf, Adjacent, HereAt, Rows, Moved;
      Sizes();
      ghost var p, i := point, index;
      StartOfRun(request);
      result := 0;
      var rest := request;
      var addend: nat := drv.clusterSize - InCluster(SectorOf(point));
      var again := true;
      while again
        invariant Gathering(p, i, result, request, rest, addend, again) && Loose()
        decreases again, |clusters| - index
      {
        result, rest, again := GatherMore(p, i, result, request, rest, addend);
        StillLoose(p, i, result, request, rest, drv.clusterSize, again);
        addend := drv.clusterSize;
      }
      EndOfRun(p, i, result, request, rest, addend);
    }

    lemma StillLoose(p: nat, i: nat, count: nat, request: nat, rest: nat, addend: nat, again: bool)
      requires Formed() && i < |clusters| && Gathering(p, i, count, request, rest, addend, again)
      ensures Loose()
    {
    }

    // ---- Reading ----

    // A place inside the file lies in one of the clusters needed.
    lemma InFile(offset: nat)
      requires Formed() && offset <= size
      ensures ClusterOf(offset) <= ClusterCount()
      ensures offset < size ==> ClusterOf(offset) < ClusterCount()
    {
      Split(size, drv.clusterBytes);
      DivideOrder(offset, size, drv.clusterBytes);
      if offset < size && size % drv.clusterBytes == 0 {
        DivideBelow(offset, drv.clusterBytes, size / drv.clusterBytes);
      }
    }

    // What index k of a buffer should hold when the file from offset p on is read to index at.
    ghost function FileByte(p: nat, at: nat, k: int): bv8 {
      if k >= at then Byte(p + (k - at)) else 0
    }

    lemma SameByte(p: nat, at: nat, d: nat, k: int)
      requires k >= at + d
      ensures FileByte(p + d, at + d, k) == FileByte(p, at, k)
    {
    }

    lemma LoadedSectors(p: nat, at: nat, lba: nat, count: nat, k: nat)
      requires Formed() && Aligned(p) && Adjacent(SectorOf(p), count) && lba == Lba(SectorOf(p))
      requires at <= k < at + Rows(count, drv.sectorSize)
      ensures drv.Loaded(at, lba, k) == FileByte(p, at, k)
    {
      hide Formed, Drive.Valid, Rows, Lba, Drive.SectorByte;
      Sizes();
      var s, j := drv.sectorSize, k - at;
      DivideBelow(j, s, count);
      DivideSum(p, j, s);
      assert LbaFrom(SectorOf(p), j / s) == lba + j / s;
    }

    lemma LoadedFragment(p: nat, lba: nat, offset: nat, k: nat)
      requires Formed() && lba == Lba(SectorOf(p)) && offset == p % drv.sectorSize && offset <= k < drv.sectorSize
      ensures drv.Loaded(0, lba, k) == FileByte(p, offset, k)
    {
      StayWithin(p, drv.sectorSize, k - offset);
      NoRows(drv.sectorSize);
      Divide(k, drv.sectorSize, 0, k);
    }

    lemma LastAdjacent(n: nat, count: nat)
      requires Adjacent(n, count) && count > 0
      ensures 0 <= Lba(n) && Lba(n) + count <= |drv.sectors|
    {
      assert LbaFrom(n, 0) == Lba(n);
      assert LbaFrom(n, count - 1) == Lba(n) + (count - 1);
    }

    lemma MoreRows(k: nat, m: nat)
      requires k <= m && drv.sectorSize > 0
      ensures 0 <= Rows(k, drv.sectorSize) <= Rows(m, drv.sectorSize)
      ensures k < m ==> Rows(k, drv.sectorSize) < Rows(m, drv.sectorSize)
    {
      RowsNonNegative(k, drv.sectorSize);
      if k < m { RowsApart(k, m, drv.sectorSize); }
    }

    lemma NotWrapped(p: nat, count: nat)
      requires drv.sectorSize > 0 && p + Rows(count, drv.sectorSize) < U32
      ensures 0 <= Rows(count, drv.sectorSize) && Moved(p, count) == p + Rows(count, drv.sectorSize)
    {
      RowsNonNegative(count, drv.sectorSize);
    }

    // Count sectors from offset p on are sectors of the file.
    ghost predicate SectorsInFile(p: nat, count: nat)
      requires Formed()
    {
      Aligned(p) && p + Rows(count, drv.sectorSize) <= size
    }

    /** One round of the loop in ChainRead. */
    method ReadRun(buffer: array<bv8>, out: nat, rest: nat) returns (ok: bool, count: nat)
      requires Loose() && rest > 0 && out + Rows(rest, drv.sectorSize) <= buffer.Length
      modifies this, buffer
      ensures Loose() && count <= rest && point == Moved(old(point), count)
      ensures old(AtEnd()) ==> !ok && count == 0 && index == old(index)
      ensures !old(AtEnd()) ==> count > 0 && (drv.reliable ==> ok)
      ensures 0 <= Rows(count, drv.sectorSize) <= Rows(rest, drv.sectorSize)
      ensures forall k {:trigger buffer[k]} :: 0 <= k < buffer.Length && !(out <= k < out + Rows(count, drv.sectorSize)) ==>
                buffer[k] == old(buffer[k])
      ensures old(Valid()) && SectorsInFile(old(point), count) ==> Valid()
      ensures ok && old(Valid()) && SectorsInFile(old(point), count) ==>
                forall k {:trigger buffer[k]} :: out <= k < out + Rows(count, drv.sectorSize) ==>
                  buffer[k] == FileByte(old(point), out, k)
    {
      hide Rows, Lba, Adjacent, SectorOf, ClusterOf, Aligned, ClusterCount, HereAt, Moved, AtEnd;
      hide Formed, Drive.Valid, Drive.Loaded, FileByte;
      Sizes();
      ghost var p, i, valid := point, index, Valid();
      MoreRows(0, rest);
      NothingMoved(point);
      var lba := GetLba();
      if lba == NONE {
        return false, 0;
      }
      count := GetContinuity(rest);
      LastAdjacent(HereAt(p, i), count);
      MoreRows(count, rest);
      MoreRows(0, count);
      ok := drv.Read(buffer, out, lba, count);
      if valid && SectorsInFile(p, count) {
        InFile(p);
        InFile(p + Rows(count, drv.sectorSize));
        HereInStep(p, i);
        NotWrapped(p, count);
        if ok {
          forall k | out <= k < out + Rows(count, drv.sectorSize)
            ensures buffer[k] == FileByte(p, out, k)
          {
            LoadedSectors(p, out, lba, count, k);
          }
        }
      }
    }

    lemma NothingMoved(p: nat)
      requires drv.sectorSize > 0 && p < U32
      ensures Moved(p, 0) == p && Rows(0, drv.sectorSize) == 0
    {
    }

    // Sectors further on in the file.
    lemma LaterSectors(p: nat, done: nat, count: nat, sector: nat)
      requires Formed() && SectorsInFile(p, sector) && done + count <= sector
      ensures 0 <= Rows(done, drv.sectorSize) && 0 <= Rows(count, drv.sectorSize)
      ensures Rows(done + count, drv.sectorSize) == Rows(done, drv.sectorSize) + Rows(count, drv.sectorSize)
      ensures Moved(p, done) == p + Rows(done, drv.sectorSize) && SectorsInFile(p + Rows(done, drv.sectorSize), count)
      ensures done < sector ==> p + Rows(done, drv.sectorSize) < size
    {
      hide ClusterCount;
      RowsAdd(done, count, drv.sectorSize);
      MoreRows(done, done + count);
      MoreRows(done + count, sector);
      MoreRows(done, sector);
      MoreRows(0, count);
      AddRows(p, done, drv.sectorSize);
      NotWrapped(p, done);
    }

    /** ChainRead: whole sectors, run by run, until the end of the chain is met. How many were
        taken comes back as done. */
    method ReadSectors(buffer: array<bv8>, at: nat, sector: nat) returns (ok: bool, ghost done: nat)
      requires Loose() && at + Rows(sector, drv.sectorSize) <= buffer.Length
      modifies this, buffer
      ensures Loose() && done <= sector && point == Moved(old(point), done)
      ensures ok ==> done == sector
      ensures !ok && drv.reliable ==> AtEnd()
      ensures old(AtEnd()) && sector > 0 ==> !ok && done == 0 && index == old(index)
      ensures forall k {:trigger buffer[k]} :: 0 <= k < buffer.Length && !(at <= k < at + Rows(sector, drv.sectorSize)) ==>
                buffer[k] == old(buffer[k])
      ensures old(Valid()) && SectorsInFile(old(point), sector) ==>
                Valid() && (drv.reliable ==> ok) && 0 <= Rows(done, drv.sectorSize) <= Rows(sector, drv.sectorSize)
                && point == old(point) + Rows(done, drv.sectorSize)
      ensures ok && old(Valid()) && SectorsInFile(old(point), sector) ==>
                forall k {:trigger buffer[k]} :: at <= k < at + Rows(sector, drv.sectorSize) ==>
                  buffer[k] == FileByte(old(point), at, k)
    {
      hide Rows, Tracks, ClusterOf, ClusterCount, Formed, Drive.Valid, FileByte, Moved, SectorsInFile, IsEnd;
      Sizes();
      NothingMoved(point);
      MoreRows(0, sector);
      ghost var p, good := point, Valid() && SectorsInFile(point, sector);
      var out, rest := at, sector;
      done, ok := 0, true;
      if good { LaterSectors(p, 0, 0, sector); }
      while rest > 0
        invariant Loose() && done + rest == sector && point == Moved(p, done)
        invariant 0 <= Rows(done, drv.sectorSize) <= Rows(sector, drv.sectorSize) && out == at + Rows(done, drv.sectorSize)
        invariant done == 0 ==> AtEnd() == old(AtEnd()) && index == old(index)
        invariant done > 0 && sector > 0 ==> !old(AtEnd())
        invariant forall k {:trigger buffer[k]} :: 0 <= k < buffer.Length && !(at <= k < out) ==> buffer[k] == old(buffer[k])
        invariant good ==> Valid() && point == p + Rows(done, drv.sectorSize)
        invariant good ==> forall k {:trigger buffer[k]} :: at <= k < out ==> buffer[k] == FileByte(p, at, k)
      {
        RowsAdd(done, rest, drv.sectorSize);
        var count;
        NothingMoved(point);
        if good {
          LaterSectors(p, done, rest, sector);
          InsideIsNoEnd(point);
        }
        ok, count := ReadRun(buffer, out, rest);
        MovedTwice(p, done, count);
        RowsAdd(done, count, drv.sectorSize);
        MoreRows(done + count, sector);
        if good {
          LaterSectors(p, done, count, sector);
          LaterSectors(p, done + count, 0, sector);
          if ok { SameBytes(buffer, p, at, Rows(done, drv.sectorSize), Rows(count, drv.sectorSize)); }
        }
        done := done + count;
        if !ok {
          return;
        }
        out, rest := out + Rows(count, drv.sectorSize), rest - count;
      }
    }

    lemma InsideIsNoEnd(p: nat)
      requires drv.clusterBytes > 0 && p < size
      ensures !IsEnd(p)
    {
    }

    // Bytes read to index at + d from offset p + d on belong to a reading from p to at.
    lemma SameBytes(buffer: array<bv8>, p: nat, at: nat, d: nat, length: nat)
      requires at + d + length <= buffer.Length
      requires forall k {:trigger buffer[k]} :: at + d <= k < at + d + length ==> buffer[k] == FileByte(p + d, at + d, k)
      ensures forall k {:trigger buffer[k]} :: at + d <= k < at + d + length ==> buffer[k] == FileByte(p, at, k)
    {
      forall k | at + d <= k < at + d + length ensures FileByte(p + d, at + d, k) == FileByte(p, at, k) {
        SameByte(p, at, d, k);
      }
    }

    // What from an offset on is taken for the part of a sector at the head of a reading: the code
    // adds the place in the sector and the length in 32 bits.
    function HeadLength(p: nat, wanted: nat): nat
      requires drv.sectorSize > 0
    {
      if Aligned(p) then 0
      else if (p % drv.sectorSize + wanted) % U32 <= drv.sectorSize then wanted
      else drv.sectorSize - p % drv.sectorSize
    }

    predicate HeadFits(p: nat, wanted: nat)
      requires drv.sectorSize > 0
    {
      p % drv.sectorSize + wanted < U32
    }

    // The head as it is meant to be, and when it is not: then it is the whole length.
    lemma HeadIs(p: nat, wanted: nat)
      requires 0 < drv.sectorSize < U32 && wanted < U32
      ensures HeadFits(p, wanted) && Aligned(p) ==> HeadLength(p, wanted) == 0
      ensures HeadFits(p, wanted) && !Aligned(p) ==> HeadLength(p, wanted) == Min(wanted, drv.sectorSize - p % drv.sectorSize)
      ensures !HeadFits(p, wanted) ==> !Aligned(p) && HeadLength(p, wanted) == wanted && p + wanted >= U32
    {
      var offset := p % drv.sectorSize;
      assert 0 <= offset < drv.sectorSize;
      PartOfWhole(p, drv.sectorSize);
    }

    lemma PartOfWhole(p: nat, s: nat)
      requires s > 0
      ensures p % s <= p
    {
      Split(p, s);
      RowsNonNegative(p / s, s);
    }

    /** Segmentize: up to the end of the sector, whole sectors, and the rest. */
    method Segmentize(length: nat) returns (head: nat, body: nat, tail: nat)
      requires 0 < drv.sectorSize < U32 && length < U32
      ensures Segments(point, length, head, body, tail)
    {
      hide Rows;
      HeadIs(point, length);
      var rest := length;
      var offset := point % drv.sectorSize;
      if offset != 0 {
        if (offset + rest) % U32 <= drv.sectorSize {
          head := rest;
        } else {
          head := drv.sectorSize - offset;
          NextMultiple(point, drv.sectorSize);
        }
        rest := rest - head;
      } else {
        head := 0;
      }
      tail := rest % drv.sectorSize;
      Split(rest, drv.sectorSize);
      RowsNonNegative(rest / drv.sectorSize, drv.sectorSize);
      body := rest - tail;
      Divide(body, drv.sectorSize, rest / drv.sectorSize, 0);
    }

    ghost predicate Segments(p: nat, length: nat, head: nat, body: nat, tail: nat)
      requires drv.sectorSize > 0
    {
      && head == HeadLength(p, length) && head + body + tail == length
      && body == Rows(SectorOf(body), drv.sectorSize) && tail < drv.sectorSize
      && (body + tail > 0 ==> Aligned(p + head))
    }

    /** ChainFragmentRead: a part of one sector. The closing seek may be refused unnoticed; what
        would come from behind the sector is not specified. */
    method ReadFragment(buffer: array<bv8>, at: nat, length: nat) returns (ok: bool)
      requires Loose() && 0 < length < U32 && at + length <= buffer.Length
      modifies this, buffer
      ensures Loose()
      ensures ok ==> !old(AtEnd())
      ensures drv.reliable && !old(AtEnd()) ==> ok
      ensures !ok ==> index == old(index)
      ensures var target := (old(point) + length) % U32;
              point == if ok && Accepted(old(point), target) then target else old(point)
      ensures old(Valid()) && old(point) + length < U32 ==> Valid()
      ensures forall k {:trigger buffer[k]} :: 0 <= k < buffer.Length && !(ok && at <= k < at + length) ==>
                buffer[k] == old(buffer[k])
      ensures ok && old(Valid()) && old(point) < size && old(point) % drv.sectorSize + length <= drv.sectorSize ==>
                forall k {:trigger buffer[k]} :: at <= k < at + length ==> buffer[k] == FileByte(old(point), at, k)
    {
      hide Rows, Lba, ClusterAt, SectorOf, ClusterOf, ClusterCount, Formed, Drive.Valid, Drive.Loaded, FileByte, HereAt;
      hide IsEnd, Reach;
      Sizes();
      ghost var p, i, good := point, index, Valid() && point < size;
      var offset := point % drv.sectorSize;
      OneRow(drv.sectorSize);
      var fragment := new bv8[drv.sectorSize];
      var lba := GetLba();
      if lba == NONE {
        return false;
      }
      ok := drv.Read(fragment, 0, lba, 1);
      if !ok {
        return;
      }
      if good {
        InFile(p);
        HereInStep(p, i);
        forall k | offset <= k < drv.sectorSize ensures fragment[k] == FileByte(p, offset, k) {
          LoadedFragment(p, lba, offset, k);
        }
      }
      CopyIn(buffer, at, length, fragment, offset, p);
      var _ := SeekForward(length);
    }

    // The copy out of the sector.
    method CopyIn(buffer: array<bv8>, at: nat, length: nat, fragment: array<bv8>, offset: nat, ghost p: nat)
      requires buffer != fragment && at + length <= buffer.Length
      modifies buffer
      ensures forall k {:trigger buffer[k]} :: 0 <= k < buffer.Length && !(at <= k < at + length) ==>
                buffer[k] == old(buffer[k])
      ensures offset + length <= fragment.Length &&
              (forall k {:trigger fragment[k]} :: offset <= k < fragment.Length ==> fragment[k] == FileByte(p, offset, k)) ==>
                forall k {:trigger buffer[k]} :: at <= k < at + length ==> buffer[k] == FileByte(p, at, k)
    {
      hide Byte;
      for i := 0 to length
        invariant forall k {:trigger buffer[k]} :: 0 <= k < buffer.Length && !(at <= k < at + i) ==>
                    buffer[k] == old(buffer[k])
        invariant offset + length <= fragment.Length &&
                  (forall k {:trigger fragment[k]} :: offset <= k < fragment.Length ==> fragment[k] == FileByte(p, offset, k)) ==>
                    forall k {:trigger buffer[k]} :: at <= k < at + i ==> buffer[k] == FileByte(p, at, k)
      {
        if offset + i < fragment.Length {
          buffer[at + i] := fragment[offset + i];
        } else {
          buffer[at + i] := *;
        }
      }
    }

    lemma OneRow(s: int)
      ensures Rows(1, s) == s
    {
    }

    // ---- When a reading is right ----

    // The bytes of the file that a reading should deliver.
    function Wanted(p: nat, length: nat): nat {
      if p < size then Min(length, size - p) else 0
    }

    // The reading begins inside a sector and goes on to its end, and so to the end of a cluster.
    predicate HeadEndsCluster(p: nat, wanted: nat)
      requires drv.sectorSize > 0 && drv.clusterBytes > 0
    {
      !Aligned(p) && drv.sectorSize - p % drv.sectorSize <= wanted
      && (p + (drv.sectorSize - p % drv.sectorSize)) % drv.clusterBytes == 0
    }

    // The offset lies inside the last sector of a file of whole clusters.
    predicate InLastSector(p: nat)
      requires drv.sectorSize > 0 && drv.clusterBytes > 0
    {
      !Aligned(p) && p + (drv.sectorSize - p % drv.sectorSize) == size && size % drv.clusterBytes == 0
    }

    /** When FileRead is right, as a caller can see: nothing is to be read; or the sum of offset
        and length has 32 bits, and, if the end of the chain has not, no head ends a cluster; or
        the chain itself ends with the head, and the sum of the place in the sector and the length
        has 32 bits. */
    predicate ReadRight(p: nat, length: nat)
      requires drv.sectorSize > 0 && drv.clusterBytes > 0
    {
      || p >= size || length == 0
      || (p + length < U32 && (ChainEnd() < U32 || !HeadEndsCluster(p, Wanted(p, length))))
      || (p + length >= U32 && InLastSector(p) && HeadFits(p, length))
    }

    lemma WholeSectors(x: nat)
      requires drv.Valid() && x % drv.clusterBytes == 0
      ensures Aligned(x)
    {
      Split(x, drv.clusterBytes);
      RowsOfRows(x / drv.clusterBytes, drv.clusterSize, drv.sectorSize);
      AddRows(0, Rows(x / drv.clusterBytes, drv.clusterSize), drv.sectorSize);
    }

    lemma WholeCluster(n: nat)
      requires drv.Valid() && InCluster(n) == 0
      ensures 0 <= Rows(n, drv.sectorSize) && Rows(n, drv.sectorSize) % drv.clusterBytes == 0
    {
      Split(n, drv.clusterSize);
      RowsOfRows(n / drv.clusterSize, drv.clusterSize, drv.sectorSize);
      AddRows(0, n / drv.clusterSize, drv.clusterBytes);
    }

    lemma WithinSector(p: nat, h: nat)
      requires drv.Valid() && h < drv.sectorSize - p % drv.sectorSize
      ensures ClusterOf(p + h) == ClusterOf(p)
    {
      StayWithin(p, drv.sectorSize, h);
      ClusterOfSector(p);
      ClusterOfSector(p + h);
    }

    // Where the sector ends, another cluster begins exactly at a multiple of the cluster size.
    lemma SectorEnd(p: nat, e: nat)
      requires drv.Valid() && e == p + (drv.sectorSize - p % drv.sectorSize)
      ensures ClusterOf(e) == ClusterOf(p) <==> e % drv.clusterBytes != 0
    {
      NextMultiple(p, drv.sectorSize);
      Split(e, drv.sectorSize);
      ClusterOfSector(p);
      ClusterOfSector(e);
      if e % drv.clusterBytes == 0 {
        Split(e, drv.clusterBytes);
        DivideBelow(p, drv.clusterBytes, ClusterOf(e));
      } else {
        hide ClusterOf, ClusterAt, InCluster;
        var n := SectorOf(p);
        BehindCluster(n);
        if InCluster(n) + 1 < drv.clusterSize {
          WithinCluster(n, 1);
        } else {
          WholeCluster(n + 1);
        }
      }
    }

    // Whether the seek behind the head is accepted.
    lemma HeadSeek(p: nat, wanted: nat, head: nat)
      requires Formed() && p < size && wanted < U32 && head == HeadLength(p, wanted) > 0 && p + head <= size
      ensures Accepted(p, p + head) <==> ChainEnd() < U32 || !HeadEndsCluster(p, wanted)
    {
      hide Formed, Drive.Valid, ClusterOf, ClusterCount, ChainEnd, Reach, HeadLength;
      Sizes();
      ReachOrZero();
      drv.SectorSize();
      HeadIs(p, wanted);
      if head < drv.sectorSize - p % drv.sectorSize {
        WithinSector(p, head);
      } else {
        SectorEnd(p, p + head);
      }
    }

    lemma FloorWraps(p: nat, wanted: nat, head: nat, body: nat, tail: nat)
      requires drv.Valid() && Segments(p, wanted, head, body, tail) && p + wanted >= U32 && body + tail > 0
      ensures p + head + body >= U32
    {
      hide Drive.Valid, HeadLength, Rows;
      var n := SectorsInRange();
      NotJustBelow(p + head, SectorOf(body), tail, drv.sectorSize, n);
    }

    // The same for a length that has been clipped, or that the wrapped sum left unclipped.
    ghost predicate Fine(p: nat, wanted: nat)
      requires drv.sectorSize > 0 && drv.clusterBytes > 0
    {
      || (p + wanted <= size && (ChainEnd() < U32 || !HeadEndsCluster(p, wanted)))
      || (p + wanted >= U32 && InLastSector(p) && HeadFits(p, wanted))
    }

    // What the stages of FileRead are called with.
    ghost predicate Asked(p: nat, wanted: nat, head: nat, body: nat, tail: nat)
      requires Formed()
    {
      p < size && 0 < wanted < U32 && (p + wanted <= size || p + wanted >= U32) && Segments(p, wanted, head, body, tail)
    }

    // The first n bytes of the buffer are those of the file from offset p on.
    ghost predicate Delivers(buffer: array<bv8>, p: nat, n: nat)
      requires n <= buffer.Length
      reads buffer
    {
      forall k {:trigger buffer[k]} :: 0 <= k < n ==> buffer[k] == FileByte(p, 0, k)
    }

    // The head of a right reading stays in the file.
    lemma FineHead(p: nat, wanted: nat, head: nat, body: nat, tail: nat)
      requires Formed() && Asked(p, wanted, head, body, tail) && Fine(p, wanted)
      ensures p + head <= size
      ensures head > 0 ==> Accepted(p, p + head) && p % drv.sectorSize + head <= drv.sectorSize
      ensures p + wanted >= U32 ==> p + head == size && IsEnd(size) && body + tail > 0 && head > 0
    {
      if p + wanted >= U32 {
        WholeClusters();
      }
      hide Formed, Drive.Valid, ClusterOf, ClusterCount, Reach, Aligned, HeadLength;
      Sizes();
      drv.SectorSize();
      HeadIs(p, wanted);
      if head > 0 { HeadSeek(p, wanted, head); }
    }

    method ReadHead(buffer: array<bv8>, wanted: nat, head: nat, ghost body: nat, ghost tail: nat) returns (ok: bool)
      requires Valid() && wanted <= buffer.Length && Asked(point, wanted, head, body, tail)
      modifies this, buffer
      ensures Loose() && (drv.reliable ==> ok)
      ensures point == if ok && head > 0 && Accepted(old(point), (old(point) + head) % U32) then (old(point) + head) % U32
                       else old(point)
      ensures Fine(old(point), wanted) ==> Valid() && (ok ==> point == old(point) + head && Delivers(buffer, old(point), head))
    {
      hide Formed, Drive.Valid, ClusterOf, ClusterCount, Reach, FileByte, Fine, HeadLength, IsEnd;
      Sizes();
      InsideIsNoEnd(point);
      ok := true;
      if Fine(point, wanted) { FineHead(point, wanted, head, body, tail); }
      if head > 0 {
        ok := ReadFragment(buffer, 0, head);
      }
    }

    // The whole sectors of a right reading are in the file, unless its end is met before them.
    lemma FineBody(p: nat, wanted: nat, head: nat, body: nat, tail: nat)
      requires Formed() && Asked(p, wanted, head, body, tail) && Fine(p, wanted)
      ensures p + wanted <= size && body > 0 ==> SectorsInFile(p + head, SectorOf(body))
      ensures p + wanted <= size ==> p + head + body + tail <= size
      ensures p + wanted >= U32 ==> IsEnd(p + head) && p + head == size
    {
      FineHead(p, wanted, head, body, tail);
    }

    method ReadBody(buffer: array<bv8>, ghost p: nat, wanted: nat, head: nat, body: nat, ghost tail: nat)
      returns (ok: bool, ghost done: nat)
      requires Loose() && wanted <= buffer.Length && Asked(p, wanted, head, body, tail)
      requires Fine(p, wanted) ==> Valid() && point == p + head && Delivers(buffer, p, head)
      modifies this, buffer
      ensures Loose() && point == Moved(old(point), done) && (ok ==> done == SectorOf(body))
      ensures !ok && drv.reliable ==> AtEnd()
      ensures old(AtEnd()) && body > 0 ==> !ok && done == 0
      ensures Fine(p, wanted) ==> Valid() && Delivers(buffer, p, if ok then head + body else head)
      ensures Fine(p, wanted) ==> p + head <= point <= Min(p + wanted, size) && (ok ==> point == p + head + body)
      ensures Fine(p, wanted) && p + wanted <= size && drv.reliable ==> ok
    {
      hide Formed, Drive.Valid, ClusterOf, ClusterCount, Reach, FileByte, HeadLength, IsEnd, Moved, Rows, Fine, TracksAt;
      Sizes();
      NothingMoved(point);
      ok, done := true, 0;
      if Fine(p, wanted) { FineBody(p, wanted, head, body, tail); }
      if body > 0 {
        ghost var before := point;
        ok, done := ReadSectors(buffer, head, SectorOf(body));
        if ok && Fine(p, wanted) { BodyDelivered(buffer, p, head, body); }
      } else {
        NoBody(drv.sectorSize);
      }
    }

    lemma NoBody(s: nat)
      requires s > 0
      ensures 0 / s == 0
    {
    }

    lemma BodyDelivered(buffer: array<bv8>, p: nat, head: nat, body: nat)
      requires head + body <= buffer.Length && Delivers(buffer, p, head)
      requires forall k {:trigger buffer[k]} :: head <= k < head + body ==> buffer[k] == FileByte(p + head, head, k)
      ensures Delivers(buffer, p, head + body)
    {
      SameBytes(buffer, p, 0, head, body);
    }

    method ReadTail(buffer: array<bv8>, ghost p: nat, wanted: nat, ghost head: nat, ghost body: nat, n: nat, tail: nat)
      returns (ok: bool)
      requires Loose() && wanted <= buffer.Length && Asked(p, wanted, head, body, tail) && n == head + body
      requires Fine(p, wanted) ==> Valid() && point == p + n && Delivers(buffer, p, n)
      modifies this, buffer
      ensures Loose()
      ensures !ok ==> point == old(point) && (Fine(p, wanted) ==> Valid() && Delivers(buffer, p, n))
      ensures tail == 0 ==> ok && point == old(point)
      ensures tail > 0 ==> (ok ==> !old(AtEnd())) && (drv.reliable && !old(AtEnd()) ==> ok)
      ensures point == old(point) || point == (old(point) + tail) % U32
      ensures Fine(p, wanted) && p + wanted <= size ==>
                Valid() && Delivers(buffer, p, if ok then wanted else n) && point == if ok then p + wanted else p + n
    {
      hide Formed, Drive.Valid, ClusterOf, ClusterCount, Reach, FileByte, HeadLength, IsEnd, Rows, Fine, TracksAt;
      Sizes();
      ok := true;
      if tail > 0 {
        ghost var inside := Fine(p, wanted) && p + wanted <= size;
        if inside {
          TailInSector(p + head, body, tail, p + n);
          NoWrapBelow(p + wanted);
        }
        hide Accepted, Aligned;
        ok := ReadFragment(buffer, n, tail);
        if ok && inside { BodyDelivered(buffer, p, n, tail); }
      }
    }

    lemma NoWrapBelow(q: nat)
      requires q < U32
      ensures q % U32 == q
    {
    }

    lemma TailInSector(y: nat, body: nat, tail: nat, p: nat)
      requires drv.Valid() && Aligned(y) && body == Rows(SectorOf(body), drv.sectorSize)
      requires p == y + body && tail < drv.sectorSize
      ensures p % drv.sectorSize + tail <= drv.sectorSize && Accepted(p, p + tail)
    {
      hide Drive.Valid, Rows;
      AddRows(y, SectorOf(body), drv.sectorSize);
      WithinSector(p, tail);
    }

    function Reported(head: nat, body: nat, tail: nat, g: Stages): nat {
      if !g.okBody then head else if !g.okTail then head + body else head + body + tail
    }

    ghost predicate Went(p: nat, head: nat, body: nat, tail: nat, g: Stages)
      requires drv.sectorSize > 0 && drv.clusterBytes > 0
    {
      && g.p1 == (if head > 0 && Accepted(p, (p + head) % U32) then (p + head) % U32 else p)
      && g.p2 == Moved(g.p1, g.done) && (g.okBody ==> g.done == SectorOf(body)) && (!g.okBody ==> IsEnd(g.p2))
      && (IsEnd(g.p1) && body > 0 ==> !g.okBody && g.done == 0)
      && (if !g.okBody then g.p3 == g.p2
          else if tail == 0 then g.okTail && g.p3 == g.p2
          else (g.okTail <==> !IsEnd(g.p2)) && (g.p3 == g.p2 || g.p3 == (g.p2 + tail) % U32))
    }

    // The end of the chain is not met inside a sector.
    lemma NoEndInSector(p: nat, count: nat)
      requires Formed() && !Aligned(p)
      ensures !IsEnd(Moved(p, count))
    {
      hide Formed, Drive.Valid, ClusterOf, Moved;
      Sizes();
      MovedPlace(p, count);
      if IsEnd(Moved(p, count)) { WholeSectors(Moved(p, count)); }
    }

    lemma LagsBehind(p: nat, head: nat, body: nat, tail: nat, p3: nat)
      requires head > 0 && p + head + body + tail < U32 && (p3 == p + body || p3 == (p + body + tail) % U32)
      ensures p3 != p + head + body + tail
    {
    }

    // A head that ends a cluster, where the end of the chain has wrapped: the seek behind it is
    // refused, and the position lags behind.
    lemma HeadRefused(p: nat, wanted: nat, head: nat, body: nat, tail: nat, g: Stages)
      requires Formed() && Asked(p, wanted, head, body, tail) && Went(p, head, body, tail, g)
      requires p + wanted <= size && ChainEnd() >= U32 && HeadEndsCluster(p, wanted)
      ensures g.p3 != p + wanted
    {
      hide Formed, Drive.Valid, ClusterOf, ClusterCount, Reach, Rows, HeadLength, ChainEnd, Moved, IsEnd, SectorOf;
      Sizes();
      drv.SectorSize();
      HeadIs(p, wanted);
      HeadSeek(p, wanted, head);
      NoEndInSector(p, g.done);
      NotWrapped(p, g.done);
      LagsBehind(p, head, body, tail, g.p3);
    }

    // An unclipped reading goes on behind the end of the file.
    lemma Unclipped(p: nat, wanted: nat, head: nat, body: nat, tail: nat, g: Stages)
      requires Formed() && Asked(p, wanted, head, body, tail) && Went(p, head, body, tail, g)
      requires p + wanted >= U32 && !(InLastSector(p) && HeadFits(p, wanted))
      ensures Reported(head, body, tail, g) != size - p || g.p3 != size
    {
      hide Formed, Drive.Valid, ClusterOf, ClusterCount, Reach, Rows, Moved, HeadLength;
      Sizes();
      drv.SectorSize();
      HeadIs(p, wanted);
      if body + tail > 0 { FloorWraps(p, wanted, head, body, tail); }
    }

    lemma NotFine(p: nat, wanted: nat, head: nat, body: nat, tail: nat, g: Stages)
      requires Formed() && Asked(p, wanted, head, body, tail) && Went(p, head, body, tail, g) && !Fine(p, wanted)
      ensures var q := Min(p + wanted, size); Reported(head, body, tail, g) != q - p || g.p3 != q
    {
      if p + wanted >= U32 {
        Unclipped(p, wanted, head, body, tail, g);
      } else {
        HeadRefused(p, wanted, head, body, tail, g);
        hide Formed, Drive.Valid, ClusterOf, ClusterCount, Reach, Rows, Moved, Went;
      }
    }

    lemma BodyStopped(p: nat, wanted: nat, head: nat, body: nat, tail: nat, p1: nat, done: nat, p2: nat)
      requires Formed() && Asked(p, wanted, head, body, tail) && !Fine(p, wanted)
      requires p1 == if head > 0 && Accepted(p, (p + head) % U32) then (p + head) % U32 else p
      requires p2 == Moved(p1, done) && IsEnd(p2) && (IsEnd(p1) && body > 0 ==> done == 0)
      ensures var q := Min(p + wanted, size); head != q - p || p2 != q
    {
      NotFine(p, wanted, head, body, tail, Stages(p1, false, done, p2, false, p2));
    }

    lemma TailEnded(p: nat, wanted: nat, head: nat, body: nat, tail: nat, p1: nat, p2: nat, ok: bool, p3: nat)
      requires Formed() && Asked(p, wanted, head, body, tail) && !Fine(p, wanted)
      requires p1 == if head > 0 && Accepted(p, (p + head) % U32) then (p + head) % U32 else p
      requires p2 == Moved(p1, SectorOf(body)) && !(IsEnd(p1) && body > 0)
      requires if tail == 0 then ok && p3 == p2
               else (ok <==> !IsEnd(p2)) && (p3 == p2 || p3 == (p2 + tail) % U32)
      ensures var q := Min(p + wanted, size); (if ok then wanted else head + body) != q - p || p3 != q
    {
      hide Formed, Drive.Valid, Fine, Reach, ClusterOf, ClusterCount, Moved, SectorOf, IsEnd, Rows, HeadLength, Aligned;
      Sizes();
      NotFine(p, wanted, head, body, tail, Stages(p1, true, SectorOf(body), p2, ok, p3));
    }

    // FileRead behind its clip.
    method ReadStages(buffer: array<bv8>, wanted: nat) returns (n: nat)
      requires Valid() && wanted <= buffer.Length && point < size && 0 < wanted < U32
      requires point + wanted <= size || point + wanted >= U32
      modifies this, buffer
      ensures Loose() && n <= wanted
      ensures var p, q := old(point), Min(old(point) + wanted, size);
              && (Fine(p, wanted) ==> Valid() && n <= q - p && p + n <= point <= q && Delivers(buffer, p, n))
              && (drv.reliable ==> (Fine(p, wanted) <==> n == q - p && point == q))
      ensures drv.reliable && ChainEnd() >= U32 ==> n == wanted
    {
      hide Formed, Drive.Valid, ClusterOf, ClusterCount, Reach, FileByte, HeadLength, IsEnd, Rows, Moved, Fine, Tracks;
      hide Accepted, Delivers;
      Sizes();
      ghost var p, fine := point, Fine(point, wanted);
      drv.SectorSize();
      var head, body, tail := Segmentize(wanted);
      if fine { FineBody(p, wanted, head, body, tail); }
      NothingDelivered(buffer, p);
      var ok := ReadHead(buffer, wanted, head, body, tail);
      if !ok {
        NothingDelivered(buffer, p);
        return 0;
      }
      n := ReadRest(buffer, p, wanted, head, body, tail);
    }

    lemma NothingDelivered(buffer: array<bv8>, p: nat)
      ensures Delivers(buffer, p, 0)
    {
    }

    // A chain that makes up the whole 32-bit range has no end that could be met.
    lemma NoEnd(p: nat)
      requires Formed() && ChainEnd() >= U32 && p < U32
      ensures !IsEnd(p)
    {
      ReachOrZero();
      var n: nat :| Rows(n, drv.clusterBytes) == U32;
      Split(p, drv.clusterBytes);
      DivideBelow(p, drv.clusterBytes, n);
      hide Formed, Drive.Valid, ClusterCount;
      if IsEnd(p) {
        RowsApart(p / drv.clusterBytes, n, drv.clusterBytes);
      }
    }

    // What follows the head.
    method ReadRest(buffer: array<bv8>, ghost p: nat, wanted: nat, head: nat, body: nat, tail: nat) returns (n: nat)
      requires Loose() && wanted <= buffer.Length && Asked(p, wanted, head, body, tail)
      requires point == if head > 0 && Accepted(p, (p + head) % U32) then (p + head) % U32 else p
      requires Fine(p, wanted) ==> Valid() && point == p + head && Delivers(buffer, p, head)
      modifies this, buffer
      ensures Loose() && n <= wanted
      ensures var q := Min(p + wanted, size);
              && (Fine(p, wanted) ==> Valid() && n <= q - p && p + n <= point <= q && Delivers(buffer, p, n))
              && (drv.reliable ==> (Fine(p, wanted) <==> n == q - p && point == q))
      ensures drv.reliable && ChainEnd() >= U32 ==> n == wanted
    {
      hide Formed, Drive.Valid, ClusterOf, ClusterCount, Reach, FileByte, HeadLength, IsEnd, Rows, Moved, Fine, Tracks;
      hide Accepted, Delivers, Aligned;
      Sizes();
      ghost var fine := Fine(p, wanted);
      if fine { FineBody(p, wanted, head, body, tail); FineHead(p, wanted, head, body, tail); }
      ghost var p1 := point;
      ghost var done;
      var ok;
      ok, done := ReadBody(buffer, p, wanted, head, body, tail);
      ghost var p2 := point;
      if ChainEnd() >= U32 { NoEnd(point); }
      if !ok {
        n := head;
        if drv.reliable && !fine { BodyStopped(p, wanted, head, body, tail, p1, done, p2); }
        return;
      }
      n := head + body;
      if fine && p + n < size { InsideIsNoEnd(p + n); }
      ok := ReadTail(buffer, p, wanted, head, body, n, tail);
      if drv.reliable && !fine { TailEnded(p, wanted, head, body, tail, p1, p2, ok, point); }
      if ok {
        n := n + tail;
      }
    }

    /** FileRead: clips the length with a 32-bit sum of offset and length. On a reliable drive it
        delivers the bytes of the file that are asked for and there, and moves behind them, if and
        only if ReadRight holds; if the drive fails, what is then reported is still right. */
    method Read(buffer: array<bv8>, length: nat) returns (n: nat)
      requires Valid() && length <= buffer.Length && length < U32
      modifies this, buffer
      ensures Loose() && n <= length
      ensures var p, w := old(point), Wanted(old(point), length);
              && (drv.reliable ==> (ReadRight(p, length) <==> n == w && point == p + n))
              && (ReadRight(p, length) ==> Valid() && n <= w && p + n <= point <= p + w)
              && (ReadRight(p, length) ==> forall k {:trigger buffer[k]} :: 0 <= k < n ==> buffer[k] == Content()[p + k])
      ensures drv.reliable && ChainEnd() >= U32 && old(point) < size && old(point) + length >= U32 ==> n == length
    {
      hide Byte, Formed, Drive.Valid, ClusterOf, ClusterCount, Reach, Tracks, ChainEnd, Fine;
      Sizes();
      if length == 0 || point >= size {
        return 0;
      }
      ClipIs(point, length);
      hide ReadRight, Wanted;
      var wanted := if (point + length) % U32 > size then size - point else length;
      n := ReadStages(buffer, wanted);
    }

    // The length that the clip leaves.
    lemma ClipIs(p: nat, length: nat)
      requires Formed() && p < size && 0 < length < U32
      ensures var wanted := if (p + length) % U32 > size then size - p else length;
              && (Fine(p, wanted) <==> ReadRight(p, length)) && Min(p + wanted, size) == p + Wanted(p, length)
              && (p + wanted <= size || p + wanted >= U32)
      ensures p + length >= U32 ==> (p + length) % U32 <= size
    {
      hide Formed, Drive.Valid, ClusterOf, ClusterCount, ChainEnd;
      Sizes();
    }
  }
}
