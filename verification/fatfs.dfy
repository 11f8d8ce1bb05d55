/** The FAT16 driver over a disk, with its one-sector buffer
    (src/kernel/fs/fatfs/fatfs.c). The disk does not fail. */
module FatFs {
  import opened Basics
  import opened FatVolume
  import opened FatChains
  import opened FatSearch
  import opened FatContent
  import Mmu

  class File {
    var pos: nat
    var size: nat
    var currCluster: nat
  }

  lemma {:induction false} FirstCopyWritten(d: Disk, g: Geometry, s: nat, sector: Sector, n: nat)
    requires Fits(g, d) && 1 <= n <= g.fatNum && s <= g.perFat
    ensures FatSector(g, 0, s) < |d| && CopyTo(d, g, s, sector, n)[FatSector(g, 0, s)] == sector
    decreases n
  {
    SectorsFit(g, d, 0, s);
    SectorsFit(g, d, n - 1, s);
    if n > 1 {
      FirstCopyWritten(d, g, s, sector, n - 1);
    }
  }

  lemma NextCopy(i: nat, perFat: nat)
    ensures (i + 1) * perFat == i * perFat + perFat
  {
  }

  class Fat {
    const g: Geometry
    const disk: array<Sector>
    const fatBuf: array<Byte>
    var currSector: int

    /** When curr_sector is valid, the buffer holds that sector. */
    ghost predicate Coherent()
      reads this, disk, fatBuf
    {
      && Fits(g, disk[..]) && fatBuf.Length == Mmu.PAGE_SIZE
      && (currSector == -1 || (0 <= currSector < disk.Length && fatBuf[..SECTOR_SIZE] == disk[currSector]))
    }

    /** What fatfs_mount leaves behind: a page for the buffer, and nothing in it. */
    constructor (g: Geometry, disk: array<Sector>, fatBuf: array<Byte>)
      requires Fits(g, disk[..]) && fatBuf.Length == Mmu.PAGE_SIZE
      ensures Coherent() && this.g == g && this.disk == disk && this.fatBuf == fatBuf
    {
      this.g, this.disk, this.fatBuf := g, disk, fatBuf;
      currSector := -1;
    }

    /** dev_read: `n` sectors into memory. */
    method DevRead(first: nat, dst: array<Byte>, at: nat, n: nat)
      requires first + n <= disk.Length && at + SECTOR_SIZE * n <= dst.Length
      modifies dst
      ensures dst[at..at + SECTOR_SIZE * n] == SectorRun(disk[..], first, n)
      ensures dst[..at] == old(dst[..at]) && dst[at + SECTOR_SIZE * n..] == old(dst[at + SECTOR_SIZE * n..])
    {
      ghost var run := SectorRun(disk[..], first, n);
      var i := 0;
      while i < n
        invariant 0 <= i <= n
        invariant dst[at..at + SECTOR_SIZE * i] == SectorRun(disk[..], first, i)
        invariant dst[..at] == old(dst[..at]) && dst[at + SECTOR_SIZE * i..] == old(dst[at + SECTOR_SIZE * i..])
      {
        CopySector(disk[first + i], dst, at + SECTOR_SIZE * i);
        i := i + 1;
      }
    }

    method CopySector(s: Sector, dst: array<Byte>, at: nat)
      requires at + SECTOR_SIZE <= dst.Length
      modifies dst
      ensures dst[..] == old(dst[..at]) + s + old(dst[at + SECTOR_SIZE..])
    {
      forall j | 0 <= j < SECTOR_SIZE {
        dst[at + j] := s[j];
      }
    }

    method BufReadSector(sectorNo: nat)
      requires Coherent() && sectorNo < disk.Length
      modifies this`currSector, fatBuf
      ensures Coherent() && currSector == sectorNo && fatBuf[..SECTOR_SIZE] == disk[sectorNo]
    {
      if sectorNo == currSector {
        return;
      }
      DevRead(sectorNo, fatBuf, 0, 1);
      currSector := sectorNo;
    }

    method BufWriteSector(sectorNo: nat)
      requires fatBuf.Length == Mmu.PAGE_SIZE && sectorNo < disk.Length
      modifies disk
      ensures disk[..] == old(disk[..])[sectorNo := fatBuf[..SECTOR_SIZE]]
    {
      disk[sectorNo] := fatBuf[..SECTOR_SIZE];
    }

    method GetNextCluster(curr: Cluster) returns (next: Cluster)
      requires Coherent()
      modifies this`currSector, fatBuf
      ensures Coherent() && next == NextOf(disk[..], g, curr)
    {
      if !ValidCluster(curr) {
        return FAT_CLUSTER_INVALID;
      }
      var sectorNo, sectorOffset := curr * 2 / SECTOR_SIZE, curr * 2 % SECTOR_SIZE;
      EntryPlace(curr);
      if sectorNo > g.perFat {
        return FAT_CLUSTER_INVALID;
      }
      SectorsFit(g, disk[..], 0, sectorNo);
      BufReadSector(g.fatStart + sectorNo);
      next := ReadEntry(sectorOffset, disk[g.fatStart + sectorNo]);
    }

    /** Two bytes at an even offset of the buffer. */
    method ReadEntry(offset: nat, ghost s: Sector) returns (v: Cluster)
      requires fatBuf.Length == Mmu.PAGE_SIZE && fatBuf[..SECTOR_SIZE] == s && offset % 2 == 0 && offset < SECTOR_SIZE
      ensures v == Entry(s, offset / 2)
    {
      var low: nat, high: nat := fatBuf[..SECTOR_SIZE][offset], fatBuf[..SECTOR_SIZE][offset + 1];
      v := low + 0x100 * high;
    }

    method WriteEntry(offset: nat, v: Cluster, ghost s: Sector)
      requires fatBuf.Length == Mmu.PAGE_SIZE && fatBuf[..SECTOR_SIZE] == s && offset % 2 == 0 && offset < SECTOR_SIZE
      modifies fatBuf
      ensures fatBuf[..SECTOR_SIZE] == PutEntry(s, offset / 2, v)
    {
      var low: Byte, high: Byte := v % 0x100, v / 0x100;
      fatBuf[offset] := low;
      fatBuf[offset + 1] := high;
    }

    /** On success one entry is changed in every copy of the table. */
    method SetNextCluster(curr: Cluster, next: Cluster) returns (rc: int)
      requires Coherent()
      modifies this`currSector, fatBuf, disk
      ensures Coherent() && disk[..] == SetNext(old(disk[..]), g, curr, next)
      ensures rc == if ValidCluster(curr) && curr / 256 <= g.perFat then 0 else -1
    {
      if !ValidCluster(curr) {
        return -1;
      }
      var sectorNo, sectorOffset := curr * 2 / SECTOR_SIZE, curr * 2 % SECTOR_SIZE;
      EntryPlace(curr);
      if sectorNo > g.perFat {
        return -1;
      }
      ghost var s := sectorNo;
      SectorsFit(g, disk[..], 0, s);
      BufReadSector(g.fatStart + sectorNo);
      ghost var sector := PutEntry(disk[g.fatStart + s], sectorOffset / 2, next);
      WriteEntry(sectorOffset, next, disk[g.fatStart + s]);
      WriteCopies(sectorNo, sector);
      rc := 0;
    }

    /** The loop of set_next_cluster over the copies. */
    method WriteCopies(s: nat, ghost sector: Sector)
      requires Fits(g, disk[..]) && s <= g.perFat && fatBuf.Length == Mmu.PAGE_SIZE && fatBuf[..SECTOR_SIZE] == sector
      requires currSector == FatSector(g, 0, s)
      modifies disk
      ensures Coherent() && disk[..] == CopyTo(old(disk[..]), g, s, sector, g.fatNum)
    {
      ghost var d := disk[..];
      var i, sectorNo := 0, s;
      while i < g.fatNum
        invariant 0 <= i <= g.fatNum && sectorNo == s + i * g.perFat
        invariant disk[..] == CopyTo(d, g, s, sector, i)
      {
        SectorsFit(g, d, i, s);
        BufWriteSector(g.fatStart + sectorNo);
        NextCopy(i, g.perFat);
        i := i + 1;
        sectorNo := sectorNo + g.perFat;
      }
      FirstCopyWritten(d, g, s, sector, g.fatNum);
    }

    // ---------- Allocation ----------

    /** The table is `t` in every copy, and all else is as in `d`. */
    ghost predicate Holds(t: Entries, d: Disk)
      reads this, disk, fatBuf
    {
      && Coherent() && Mirrored(disk[..], g) && Table(disk[..], g) == t && disk.Length == |d|
      && (forall x: nat :: x < |d| && Outside(g, x) ==> disk[..][x] == d[x])
    }

    method GetEntry(c: Cluster, ghost t: Entries, ghost d: Disk) returns (next: Cluster)
      requires Holds(t, d) && c < Total(g)
      modifies this`currSector, fatBuf
      ensures Holds(t, d) && next == if ValidCluster(c) then t[c] else FAT_CLUSTER_INVALID
    {
      NextIsTable(disk[..], g, c);
      next := GetNextCluster(c);
    }

    method SetEntry(c: Cluster, v: Cluster, ghost t: Entries, ghost d: Disk) returns (rc: int)
      requires Holds(t, d) && ValidCluster(c) && c < Total(g)
      modifies this`currSector, fatBuf, disk
      ensures Holds(t[c := v], d) && rc == 0
    {
      SetNextUpdates(disk[..], g, c, v);
      rc := SetNextCluster(c, v);
    }

    /** cluster_alloc_free, on every table and request for which it ends. */
    method ClusterAllocFree(n: nat) returns (result: Cluster)
      requires Coherent() && Mirrored(disk[..], g)
      requires Stops(Table(disk[..], g), n)
      modifies this`currSector, fatBuf, disk
      ensures Holds(Outcome(Table(old(disk[..]), g), n).0, old(disk[..]))
      ensures result == Outcome(Table(old(disk[..]), g), n).1
    {
      ghost var d, t := disk[..], Table(disk[..], g);
      ghost var stop := SearchStops(t, n);
      var clusters, prev, start;
      ghost var s;
      clusters, prev, start, s := SearchLoop(n, t, d, stop);
      if clusters == 0 {
        var ok := Terminate(prev, s.t, d);
        if ok {
          return start;
        }
      }
      return FAT_CLUSTER_INVALID;
    }

    /** The search loop of cluster_alloc_free. */
    method SearchLoop(n: nat, ghost t: Entries, ghost d: Disk, ghost stop: nat)
      returns (clusters: nat, prev: Cluster, start: Cluster, ghost s: Search)
      requires Holds(t, d) && |t| == Total(g) && !Running(Steps(Start(t, n), stop))
      modifies this`currSector, fatBuf, disk
      ensures s == Steps(Start(t, n), stop) && (clusters, prev, start) == (s.clusters, s.prev, s.start)
      ensures PrevInside(s) && |s.t| == |t| && Holds(s.t, d)
    {
      prev, start := FAT_CLUSTER_INVALID, FAT_CLUSTER_INVALID;
      clusters := n;
      var total := g.perFat * SECTOR_SIZE / 2;
      var curr: Cluster := CLUSTER_START_NO;
      s := Start(t, n);
      ghost var k := 0;
      while clusters != 0 && curr < total
        invariant k <= stop && s == Steps(Start(t, n), k) && s == Search(curr, clusters, prev, start, s.t)
        invariant Holds(s.t, d) && |s.t| == |t|
        decreases stop - k
      {
        NextStep(t, n, k, stop);
        clusters, prev, start := VisitCluster(s, d, curr, clusters, prev, start);
        curr := NextNumber(curr);
        s := Visit(s);
        k := k + 1;
      }
      StepsInside(t, n, k);
      StopsOnce(Start(t, n), k, stop);
    }

    /** The body of the search loop: a free cluster is linked behind the last one found. */
    method VisitCluster(ghost s: Search, ghost d: Disk, curr: Cluster, clusters: nat, prev: Cluster, start: Cluster)
      returns (clusters': nat, prev': Cluster, start': Cluster)
      requires s == Search(curr, clusters, prev, start, s.t) && Running(s) && PrevInside(s)
      requires Holds(s.t, d) && |s.t| == Total(g)
      modifies this`currSector, fatBuf, disk
      ensures Visit(s) == Search(NextNumber(curr), clusters', prev', start', Visit(s).t) && Holds(Visit(s).t, d)
    {
      clusters', prev', start' := clusters, prev, start;
      var next := GetEntry(curr, s.t, d);
      if next == FAT_CLUSTER_FREE {
        if !ValidCluster(start) {
          start' := curr;
        }
        if ValidCluster(prev) {
          var rc := SetEntry(prev, curr, s.t, d);
        }
        prev' := curr;
        clusters' := clusters - 1;
      }
    }

    /** The last cluster found becomes the end of the chain; without one, nothing is
        written and the request fails. */
    method Terminate(prev: Cluster, ghost t: Entries, ghost d: Disk) returns (ok: bool)
      requires Holds(t, d) && (ValidCluster(prev) ==> prev < Total(g))
      modifies this`currSector, fatBuf, disk
      ensures ok == ValidCluster(prev) && Holds(if ok then t[prev := FAT_CLUSTER_INVALID] else t, d)
    {
      if ValidCluster(prev) {
        SetNextUpdates(disk[..], g, prev, FAT_CLUSTER_INVALID);
      }
      var rc := SetNextCluster(prev, FAT_CLUSTER_INVALID);
      ok := rc == 0;
    }

    // ---------- Reading ----------

    ghost predicate Readable(file: File, chain: seq<Cluster>)
      reads this, disk, fatBuf, file
    {
      Coherent() && ReadState(disk[..], g, chain, file.pos, file.size, file.currCluster)
    }

    /** kernel_memcpy from the buffer. */
    method CopyOut(from: nat, dst: array<Byte>, at: nat, n: nat)
      requires from + n <= fatBuf.Length && at + n <= dst.Length && dst != fatBuf
      modifies dst
      ensures dst[at..at + n] == fatBuf[from..from + n]
      ensures dst[..at] == old(dst[..at]) && dst[at + n..] == old(dst[at + n..])
    {
      var i := 0;
      while i < n
        invariant 0 <= i <= n && dst[at..at + i] == fatBuf[from..from + i]
        invariant dst[..at] == old(dst[..at]) && dst[at + n..] == old(dst[at + n..])
      {
        dst[at + i] := fatBuf[from + i];
        i := i + 1;
      }
    }

    /** Where a position lies in its cluster. */
    method ClusterOffset(pos: nat, ghost k: nat, ghost off: nat) returns (clusterOffset: nat)
      requires pos == Base(k, BytesPerCluster(g)) + off && off < BytesPerCluster(g)
      ensures clusterOffset == off
    {
      PieceOf(pos, k, off, BytesPerCluster(g));
      clusterOffset := pos % (g.perCluster * SECTOR_SIZE);
    }

    /** One turn of the loop of fatfs_read, up to the copy: a whole cluster goes straight
        to the caller, anything else through the buffer. */
    method ReadPiece(clusterOffset: nat, currCluster: nat, size: nat, dst: array<Byte>, at: nat, ghost c: Cluster) returns (n: nat)
      requires Coherent() && clusterOffset < BytesPerCluster(g) <= Mmu.PAGE_SIZE
      requires OnDisk(disk[..], g, c) && currCluster == c
      requires at + size <= dst.Length && dst != fatBuf
      modifies this`currSector, fatBuf, dst
      ensures Coherent() && n == Min(size, BytesPerCluster(g) - clusterOffset)
      ensures dst[at..at + n] == ClusterBytes(disk[..], g, c)[clusterOffset..clusterOffset + n]
      ensures dst[..at] == old(dst[..at]) && dst[at + n..] == old(dst[at + n..])
    {
      var bytesPerCluster := g.perCluster * SECTOR_SIZE;
      n := size;
      var startSector := g.dataStart + (currCluster - CLUSTER_START_NO) * g.perCluster;
      if clusterOffset == 0 && n == bytesPerCluster {
        DevRead(startSector, dst, at, g.perCluster);
        n := bytesPerCluster;
      } else {
        if clusterOffset + n > bytesPerCluster {
          n := bytesPerCluster - clusterOffset;
        }
        ReadPart(startSector, clusterOffset, n, dst, at);
      }
    }

    method ReadPart(startSector: nat, clusterOffset: nat, n: nat, dst: array<Byte>, at: nat)
      requires Coherent() && startSector + g.perCluster <= disk.Length && BytesPerCluster(g) <= Mmu.PAGE_SIZE
      requires clusterOffset + n <= BytesPerCluster(g) && at + n <= dst.Length && dst != fatBuf
      modifies this`currSector, fatBuf, dst
      ensures Coherent()
      ensures dst[at..at + n] == SectorRun(disk[..], startSector, g.perCluster)[clusterOffset..clusterOffset + n]
      ensures dst[..at] == old(dst[..at]) && dst[at + n..] == old(dst[at + n..])
    {
      currSector := -1;
      DevRead(startSector, fatBuf, 0, g.perCluster);
      ghost var run := SectorRun(disk[..], startSector, g.perCluster);
      SameSlice(fatBuf[..], run, clusterOffset, clusterOffset + n);
      CopyOut(clusterOffset, dst, at, n);
    }

    /** move_file_pos, without expansion; the old position is at `off` in its cluster. */
    method MoveFilePos(file: File, bytes: nat, ghost k: nat, ghost off: nat, ghost c: Cluster)
      requires Coherent() && file.pos == Base(k, BytesPerCluster(g)) + off && off < BytesPerCluster(g) && file.currCluster == c
      modifies this`currSector, fatBuf, file
      ensures Coherent() && file.pos == old(file.pos) + bytes && file.size == old(file.size)
      ensures file.currCluster == if off + bytes >= BytesPerCluster(g) then NextOf(disk[..], g, c) else c
    {
      var clusterOffset := ClusterOffset(file.pos, k, off);
      if clusterOffset + bytes >= g.perCluster * SECTOR_SIZE {
        var next := GetNextCluster(file.currCluster % 0x1_0000);
        file.currCluster := next;
      }
      file.pos := file.pos + bytes;
    }

    /** fatfs_read returns the bytes from the position to the end of the request or of the
        file, and leaves the cursor in the cluster of the new position. */
    method Read(file: File, size: nat, dst: array<Byte>, ghost chain: seq<Cluster>) returns (readBytes: nat)
      requires Readable(file, chain) && dst != fatBuf && size < TWO32
      requires ReadCount(file.pos, size, file.size) == Min(size, file.size - file.pos) <= dst.Length
      modifies this`currSector, fatBuf, dst, file
      ensures Readable(file, chain) && file.size == old(file.size)
      ensures readBytes == Min(size, file.size - old(file.pos)) && file.pos == old(file.pos) + readBytes
      ensures file.size <= |Content(disk[..], g, chain)|
      ensures dst[..readBytes] == ReadBytes(Content(disk[..], g, chain)[..file.size], old(file.pos), size)
      ensures dst[readBytes..] == old(dst[readBytes..])
    {
      ghost var pos, content := file.pos, Content(disk[..], g, chain);
      CountFits(disk[..], g, chain, file.pos, file.size);
      var count := ReadCount(file.pos, size, file.size);
      readBytes := ReadLoop(file, count, dst, chain);
      Delivered(content, file.size, pos, count, size);
    }

    /** Two reads one after the other, into two buffers. */
    method ReadBoth(file: File, a: nat, b: nat, first: array<Byte>, second: array<Byte>, ghost chain: seq<Cluster>)
      returns (n: nat, m: nat)
      requires Readable(file, chain) && first != fatBuf && second != fatBuf && first != second
      requires first.Length >= a && second.Length >= b && file.pos + a + b < TWO32
      modifies this`currSector, fatBuf, first, second, file
      ensures n <= a && m <= b && Readable(file, chain) && file.size == old(file.size) && file.pos == old(file.pos) + n + m
      ensures file.size <= |Content(disk[..], g, chain)|
      ensures first[..n] + second[..m] == ReadBytes(Content(disk[..], g, chain)[..file.size], old(file.pos), a + b)
    {
      ghost var pos, size, content := file.pos, file.size, Content(disk[..], g, chain);
      ReadCountExact(pos, a, size);
      n := Read(file, a, first, chain);
      ReadCountExact(file.pos, b, size);
      m := Read(file, b, second, chain);
      TwoReads(content[..size], pos, a, b);
    }

    /** Reading `a` bytes and then `b` bytes gives what one read of `a + b` bytes gives
        through another file in the same state, and leaves the same position and cursor. */
    method ReadTwice(file: File, other: File, a: nat, b: nat, first: array<Byte>, second: array<Byte>, whole: array<Byte>,
                     ghost chain: seq<Cluster>)
      returns (n: nat, m: nat, all: nat)
      requires Readable(file, chain) && other != file
      requires other.pos == file.pos && other.size == file.size && other.currCluster == file.currCluster
      requires first != fatBuf && second != fatBuf && whole != fatBuf && first != second && first != whole && second != whole
      requires first.Length >= a && second.Length >= b && whole.Length >= a + b && file.pos + a + b < TWO32
      modifies this`currSector, fatBuf, first, second, whole, file, other
      ensures n <= a && m <= b && n + m == all <= a + b && first[..n] + second[..m] == whole[..all]
      ensures other.pos == file.pos && Readable(file, chain) && Readable(other, chain)
      ensures file.pos < file.size ==> other.currCluster == file.currCluster
    {
      ReadCountExact(file.pos, a + b, file.size);
      n, m := ReadBoth(file, a, b, first, second, chain);
      all := Read(other, a + b, whole, chain);
      assert |first[..n] + second[..m]| == |whole[..all]|;
      SameCursor(disk[..], g, chain, file.pos, file.size, file.currCluster, other.currCluster);
    }

    /** The loop of fatfs_read. */
    method ReadLoop(file: File, count: nat, dst: array<Byte>, ghost chain: seq<Cluster>) returns (readBytes: nat)
      requires Readable(file, chain) && dst != fatBuf && count <= file.size - file.pos && count <= dst.Length
      modifies this`currSector, fatBuf, dst, file
      ensures Readable(file, chain) && file.size == old(file.size)
      ensures readBytes == count && file.pos == old(file.pos) + readBytes
      ensures file.pos <= |Content(disk[..], g, chain)|
      ensures dst[..readBytes] == Content(disk[..], g, chain)[old(file.pos)..file.pos]
      ensures dst[readBytes..] == old(dst[readBytes..])
    {
      readBytes := 0;
      var left: nat := count;
      ghost var start, content, d := file.pos, Content(disk[..], g, chain), disk[..];
      CountFits(d, g, chain, file.pos, file.size);
      while left != 0
        invariant Readable(file, chain) && file.size == old(file.size) && disk[..] == d && left <= file.size - file.pos
        invariant 0 <= readBytes && readBytes + left == count && file.pos == start + readBytes <= |content|
        invariant dst[..readBytes] == content[start..file.pos] && dst[readBytes..] == old(dst[readBytes..])
        decreases left
      {
        ghost var mid, before := file.pos, dst[..];
        var n := ReadOne(file, left, dst, readBytes, chain);
        Joined(content, start, mid, file.pos);
        assert dst[..readBytes + n] == before[..readBytes] + dst[readBytes..readBytes + n];
        SameTail(before, old(dst[..]), readBytes, readBytes + n);
        left := left - n;
        readBytes := readBytes + n;
      }
    }

    /** The whole body of the loop of fatfs_read. */
    method ReadOne(file: File, left: nat, dst: array<Byte>, at: nat, ghost chain: seq<Cluster>) returns (n: nat)
      requires Readable(file, chain) && 0 < left <= file.size - file.pos && at + left <= dst.Length && dst != fatBuf
      modifies this`currSector, fatBuf, dst, file
      ensures 0 < n <= left && Readable(file, chain) && file.size == old(file.size) && file.pos == old(file.pos) + n
      ensures file.pos <= |Content(disk[..], g, chain)|
      ensures dst[at..at + n] == Content(disk[..], g, chain)[old(file.pos)..file.pos]
      ensures dst[..at] == old(dst[..at]) && dst[at + n..] == old(dst[at + n..])
    {
      ghost var d, pos, size := disk[..], file.pos, file.size;
      ghost var k, off;
      n, k, off := ReadHere(file, left, dst, at, chain);
      Turn(d, g, chain, pos, size, k, off, n);
      MoveFilePos(file, n, k, off, chain[k]);
      assert disk[..] == d;
    }

    method ReadHere(file: File, left: nat, dst: array<Byte>, at: nat, ghost chain: seq<Cluster>) returns (n: nat, ghost k: nat, ghost off: nat)
      requires Readable(file, chain) && 0 < left <= file.size - file.pos && at + left <= dst.Length && dst != fatBuf
      modifies this`currSector, fatBuf, dst
      ensures Coherent() && k < |chain| && file.pos == Base(k, BytesPerCluster(g)) + off && off < BytesPerCluster(g)
      ensures 0 < n <= left && off + n <= BytesPerCluster(g)
      ensures OnDisk(disk[..], g, chain[k]) && file.currCluster == chain[k]
      ensures dst[at..at + n] == ClusterBytes(disk[..], g, chain[k])[off..off + n]
      ensures dst[..at] == old(dst[..at]) && dst[at + n..] == old(dst[at + n..])
    {
      k, off := Locate(disk[..], g, chain, file.pos, file.size, file.currCluster);
      var clusterOffset := ClusterOffset(file.pos, k, off);
      n := ReadPiece(clusterOffset, file.currCluster, left, dst, at, chain[k]);
    }
  }

  /** What a read needs of its file: the chain covers it, clusters fit the buffer, and
      the cursor is in the cluster of the position. */
  ghost predicate ReadState(d: Disk, g: Geometry, chain: seq<Cluster>, pos: nat, size: nat, currCluster: nat) {
    && Covers(d, g, chain, size) && BytesPerCluster(g) <= Mmu.PAGE_SIZE && pos <= size < TWO32
    && (pos < size ==> Cursor(pos, currCluster, chain, BytesPerCluster(g)))
  }

  /** Positions have one cursor each. */
  lemma SameCursor(d: Disk, g: Geometry, chain: seq<Cluster>, pos: nat, size: nat, c: nat, c': nat)
    requires ReadState(d, g, chain, pos, size, c) && ReadState(d, g, chain, pos, size, c')
    ensures pos < size ==> c == c'
  {
    if pos < size {
      CursorIsQuotient(pos, c, chain, BytesPerCluster(g));
      CursorIsQuotient(pos, c', chain, BytesPerCluster(g));
    }
  }

  lemma Locate(d: Disk, g: Geometry, chain: seq<Cluster>, pos: nat, size: nat, currCluster: nat) returns (k: nat, off: nat)
    requires ReadState(d, g, chain, pos, size, currCluster) && pos < size
    ensures k < |chain| && pos == Base(k, BytesPerCluster(g)) + off && off < BytesPerCluster(g) <= Mmu.PAGE_SIZE
    ensures OnDisk(d, g, chain[k]) && currCluster == chain[k]
  {
    k :| CursorAt(pos, currCluster, chain, BytesPerCluster(g), k);
    off := pos - Base(k, BytesPerCluster(g));
  }

  lemma Turn(d: Disk, g: Geometry, chain: seq<Cluster>, pos: nat, size: nat, k: nat, off: nat, n: nat)
    requires k < |chain| && ReadState(d, g, chain, pos, size, chain[k]) && n <= size - pos
    requires pos == Base(k, BytesPerCluster(g)) + off < size && off < BytesPerCluster(g) && off + n <= BytesPerCluster(g)
    ensures OnDisk(d, g, chain[k])
    ensures ReadState(d, g, chain, pos + n, size, if off + n >= BytesPerCluster(g) then NextOf(d, g, chain[k]) else chain[k])
    ensures pos + n <= |Content(d, g, chain)|
    ensures Content(d, g, chain)[pos..pos + n] == ClusterBytes(d, g, chain[k])[off..off + n]
  {
    Advance(d, g, chain, pos, size, k, off, n);
    if pos + n < size {
      CursorAdvances(d, g, chain, pos, size, k, off, n);
    }
  }

  /** What one piece of a read is, and where it leaves the cursor. */
  lemma Advance(d: Disk, g: Geometry, chain: seq<Cluster>, pos: nat, size: nat, k: nat, off: nat, n: nat)
    requires Covers(d, g, chain, size) && k < |chain| && pos == Base(k, BytesPerCluster(g)) + off < size
    requires n <= size - pos && off < BytesPerCluster(g) && off + n <= BytesPerCluster(g)
    ensures pos + n <= |Content(d, g, chain)|
    ensures Content(d, g, chain)[pos..pos + n] == ClusterBytes(d, g, chain[k])[off..off + n]
  {
    ContentAt(d, g, chain, k, pos, off, n);
  }

  lemma CursorAdvances(d: Disk, g: Geometry, chain: seq<Cluster>, pos: nat, size: nat, k: nat, off: nat, n: nat)
    requires Covers(d, g, chain, size) && k < |chain| && pos == Base(k, BytesPerCluster(g)) + off < size
    requires off < BytesPerCluster(g) && off + n <= BytesPerCluster(g) && pos + n < size
    ensures Cursor(pos + n, if off + n >= BytesPerCluster(g) then NextOf(d, g, chain[k]) else chain[k], chain, BytesPerCluster(g))
  {
    var b := BytesPerCluster(g);
    if off + n < b {
      assert CursorAt(pos + n, chain[k], chain, b, k);
    } else {
      assert Base(k + 1, b) == pos + n;
      if k + 1 < |chain| {
        NextIsTable(d, g, chain[k]);
        assert Table(d, g)[chain[k]] == chain[k + 1];
        assert CursorAt(pos + n, chain[k + 1], chain, b, k + 1);
      }
    }
  }

  lemma CountFits(d: Disk, g: Geometry, chain: seq<Cluster>, pos: nat, size: nat)
    requires Covers(d, g, chain, size) && pos <= size
    ensures pos <= size <= |Content(d, g, chain)|
  {
  }

  lemma Delivered(content: seq<Byte>, fileSize: nat, pos: nat, count: nat, size: nat)
    requires pos <= fileSize <= |content| && count == Min(size, fileSize - pos)
    ensures content[pos..pos + count] == ReadBytes(content[..fileSize], pos, size)
  {
  }

  lemma SameTail(a: seq<Byte>, b: seq<Byte>, i: nat, j: nat)
    requires i <= j <= |a| == |b| && a[i..] == b[i..]
    ensures a[j..] == b[j..]
  {
    assert a[j..] == a[i..][j - i..] && b[j..] == b[i..][j - i..];
  }

  lemma SameSlice(a: seq<Byte>, b: seq<Byte>, i: nat, j: nat)
    requires i <= j <= |b| <= |a| && a[0..|b|] == b
    ensures a[i..j] == b[i..j]
  {
    forall k | i <= k < j ensures a[k] == b[k] {
      assert a[0..|b|][k] == a[k];
    }
  }

  lemma Joined(content: seq<Byte>, start: nat, mid: nat, end: nat)
    requires start <= mid <= end <= |content|
    ensures content[start..end] == content[start..mid] + content[mid..end]
  {
  }

  lemma EntryPlace(c: Cluster)
    ensures c * 2 / SECTOR_SIZE == c / 256 && c * 2 % SECTOR_SIZE == 2 * (c % 256)
  {
  }
}
