/** Where a FAT16 volume keeps what, as addresses of bytes on the disk. */
module FatLayout {
  import opened Basics
  import opened FatVolume
  import opened FatChains
  import opened FatContent

  /** The byte at an address of the whole disk, in sectors of 512 bytes. */
  function DiskByte(d: Disk, a: nat): Byte
    requires a < 512 * |d|
  {
    d[a / 512][a % 512]
  }

  lemma ByteAt(d: Disk, s: nat, o: nat, a: nat)
    requires s < |d| && o < 512 && a == 512 * s + o
    ensures a < 512 * |d| && DiskByte(d, a) == d[s][o]
  {
    assert a / 512 == s && a % 512 == o;
  }

  // ---------- The table ----------

  /** Entry `c` of the table is the two bytes at offset 2 c of its first copy, the low
      byte first. */
  lemma EntryOnDisk(d: Disk, g: Geometry, c: nat)
    requires Fits(g, d) && c < Total(g)
    ensures var a := 512 * g.fatStart + 2 * c;
            a + 1 < 512 * |d| && Table(d, g)[c] == DiskByte(d, a) + 0x100 * DiskByte(d, a + 1)
  {
    var a, s, j := 512 * g.fatStart + 2 * c, g.fatStart + c / 256, c % 256;
    SectorsFit(g, d, 0, g.perFat);
    ByteAt(d, s, 2 * j, a);
    ByteAt(d, s, 2 * j + 1, a + 1);
  }

  /** A copy holds two bytes for each entry: 256 entries to the sector. */
  lemma EntriesFill(g: Geometry)
    ensures 2 * Total(g) == 512 * g.perFat
  {
  }

  /** The copies lie one behind the other from `fatStart` on, and fill the space up to
      the root directory. */
  lemma CopiesTile(g: Geometry, x: nat)
    requires g.perFat > 0
    ensures Outside(g, x) <==> !(g.fatStart <= x < g.fatStart + g.fatNum * g.perFat)
    ensures !Outside(g, x) <==> exists k: nat, s: nat :: k < g.fatNum && s < g.perFat && x == FatSector(g, k, s)
    ensures forall k: nat, s: nat :: FatSector(g, k, s) == g.fatStart + k * g.perFat + s
  {
    if g.fatStart <= x < g.fatStart + g.fatNum * g.perFat {
      var o := x - g.fatStart;
      var k, s := o / g.perFat, o % g.perFat;
      QuotientRemainder(o, g.perFat);
      MulLess(k, g.fatNum, g.perFat);
      assert x == FatSector(g, k, s);
    }
    forall k: nat, s: nat | k < g.fatNum && s < g.perFat ensures !Outside(g, FatSector(g, k, s)) {
      StepOver(g, k, s, g.fatNum);
    }
  }

  /** The numbers that mark entries: 0 is free, from 0xFFF8 on a chain ends, and
      clusters count from 2. */
  lemma MarkersAre(t: Entries, c: nat, n: nat)
    ensures IsFree(t, c) <==> 2 <= c < 0xFFF8 && c < |t| && t[c] == 0
    ensures 1 <= n <= |AllFrees(t)| ==> |Alloc(t, n).0| == |t| && AllFrees(t)[n - 1] < |t| && Alloc(t, n).0[AllFrees(t)[n - 1]] == 0xFFF8
  {
    FreesBelow(t, |t|);
  }

  // ---------- The data area ----------

  lemma {:induction false} RunOnDisk(d: Disk, first: nat, n: nat, i: nat)
    requires first + n <= |d| && i < 512 * n
    ensures 512 * first + i < 512 * |d| && SectorRun(d, first, n)[i] == DiskByte(d, 512 * first + i)
    decreases n
  {
    if i < 512 * (n - 1) {
      RunOnDisk(d, first, n - 1, i);
    } else {
      ByteAt(d, first + n - 1, i - 512 * (n - 1), 512 * first + i);
    }
  }

  lemma {:induction false} RunsJoin(d: Disk, first: nat, a: nat, b: nat)
    requires first + a + b <= |d|
    ensures SectorRun(d, first, a) + SectorRun(d, first + a, b) == SectorRun(d, first, a + b)
    decreases b
  {
    if b > 0 {
      RunsJoin(d, first, a, b - 1);
      var last := d[first + a + b - 1];
      assert SectorRun(d, first, a) + (SectorRun(d, first + a, b - 1) + last) == SectorRun(d, first, a) + SectorRun(d, first + a, b - 1) + last;
    }
  }

  /** Clusters 2, 3 and so on, `n` of them. */
  function InOrder(n: nat): (chain: seq<Cluster>)
    requires n < 0xFFF0
    ensures |chain| == n && forall i :: 0 <= i < n ==> chain[i] == i + 2
  {
    seq(n, i requires 0 <= i < n => i + 2)
  }

  /** The clusters in order are the data area: they start at `dataStart` with cluster 2
      and follow one another without gaps. */
  lemma {:induction false} DataAreaInOrder(d: Disk, g: Geometry, n: nat)
    requires n < 0xFFF0 && forall i :: 0 <= i < n ==> OnDisk(d, g, InOrder(n)[i])
    requires g.dataStart + n * g.perCluster <= |d|
    ensures Content(d, g, InOrder(n)) == SectorRun(d, g.dataStart, n * g.perCluster)
    decreases n
  {
    if n > 0 {
      var chain := InOrder(n);
      assert chain[..n - 1] == InOrder(n - 1);
      NextProduct(n - 1, g.perCluster);
      DataAreaInOrder(d, g, n - 1);
      RunsJoin(d, g.dataStart, (n - 1) * g.perCluster, g.perCluster);
      assert OnDisk(d, g, chain[n - 1]);
    }
  }

  lemma NextProduct(k: nat, b: nat)
    ensures (k + 1) * b == k * b + b
  {
  }

  /** `x` is byte `off` of cluster `c`, which begins `(c - 2) * perCluster` sectors into
      the data area. */
  predicate LiesAt(d: Disk, g: Geometry, c: Cluster, off: nat, x: Byte) {
    var a := 512 * (g.dataStart + (c - 2) * g.perCluster) + off;
    0 <= a < 512 * |d| && x == DiskByte(d, a)
  }

  /** Byte `off` of the k-th cluster of a chain is byte `k * b + off` of the file, for
      clusters of `b` bytes. */
  lemma ContentOnDisk(d: Disk, g: Geometry, chain: seq<Cluster>, k: nat, off: nat, p: nat)
    requires forall i :: 0 <= i < |chain| ==> OnDisk(d, g, chain[i])
    requires k < |chain| && off < 512 * g.perCluster && p == k * (512 * g.perCluster) + off
    ensures p < |Content(d, g, chain)| && LiesAt(d, g, chain[k], off, Content(d, g, chain)[p])
  {
    BaseIsProduct(k, BytesPerCluster(g));
    ContentAt(d, g, chain, k, p, off, 1);
    assert OnDisk(d, g, chain[k]);
    RunOnDisk(d, FirstSector(g, chain[k]), g.perCluster, off);
    assert Content(d, g, chain)[p..p + 1][0] == ClusterBytes(d, g, chain[k])[off..off + 1][0];
  }

  lemma PieceIn(p: nat, b: nat, n: nat) returns (k: nat, off: nat)
    requires b > 0 && p < Base(n, b)
    ensures k < n && off < b && p == k * b + off
  {
    k, off := p / b, p % b;
    QuotientRemainder(p, b);
    BaseIsProduct(k, b);
    if k > n {
      BaseOrder(n, k, b);
    }
  }

  /** A read gives the bytes of the file from its position on, up to the end of the
      request or of the file, each from where it lies on the disk. */
  lemma ReadOnDisk(d: Disk, g: Geometry, chain: seq<Cluster>, fileSize: nat, pos: nat, size: nat, i: nat)
    returns (k: nat, off: nat)
    requires forall i :: 0 <= i < |chain| ==> OnDisk(d, g, chain[i])
    requires pos <= fileSize <= |Content(d, g, chain)| && 1 <= g.perCluster && i < size && pos + i < fileSize
    ensures var r := ReadBytes(Content(d, g, chain)[..fileSize], pos, size);
            && |r| == (if size < fileSize - pos then size else fileSize - pos)
            && k < |chain| && off < 512 * g.perCluster && pos + i == k * (512 * g.perCluster) + off
            && LiesAt(d, g, chain[k], off, r[i])
  {
    k, off := PieceIn(pos + i, BytesPerCluster(g), |chain|);
    ContentOnDisk(d, g, chain, k, off, pos + i);
    ReadAt(Content(d, g, chain), fileSize, pos, size, i);
  }

  lemma ReadAt(content: seq<Byte>, fileSize: nat, pos: nat, size: nat, i: nat)
    requires pos <= fileSize <= |content| && i < size && pos + i < fileSize
    ensures var r := ReadBytes(content[..fileSize], pos, size);
            |r| == (if size < fileSize - pos then size else fileSize - pos) && r[i] == content[pos + i]
  {
  }
}
