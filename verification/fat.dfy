/** A FAT16 volume as an array of sectors (src/kernel/fs/fatfs/fatfs.c): table entries,
    mirrored copies of the table, chains of clusters, and what the operations on the
    table do. Sectors have 512 bytes. */
module FatVolume {
  import opened Basics

  const SECTOR_SIZE: nat := 512
  function Blank(): (s: seq<Byte>)
    ensures |s| == SECTOR_SIZE
  {
    seq(SECTOR_SIZE, _ => 0)
  }

  type Sector = s: seq<Byte> | |s| == SECTOR_SIZE witness Blank()
  type Disk = seq<Sector>

  const CLUSTER_START_NO: nat := 2
  const FAT_CLUSTER_FREE: nat := 0
  const FAT_CLUSTER_INVALID: nat := 0xFFF8

  /** A 16-bit cluster number. */
  type Cluster = c: nat | c < 0x1_0000

  predicate ValidCluster(c: Cluster) {
    CLUSTER_START_NO <= c < FAT_CLUSTER_INVALID
  }

  /** Where the parts of the volume are: `fatNum` copies of the table, `perFat` sectors
      each, from `fatStart`, and the data from `dataStart`. */
  datatype Geometry = Geometry(fatStart: nat, fatNum: nat, perFat: nat, perCluster: nat, dataStart: nat)

  /** Sector `s` of table copy `k`. */
  function FatSector(g: Geometry, k: nat, s: nat): nat {
    g.fatStart + k * g.perFat + s
  }

  predicate Fits(g: Geometry, d: Disk) {
    1 <= g.fatNum && 1 <= g.perFat && FatSector(g, g.fatNum, 0) < |d|
  }

  function Entry(s: Sector, j: nat): Cluster
    requires j < 256
  {
    var low: nat, high: nat := s[2 * j], s[2 * j + 1];
    low + 0x100 * high
  }

  function PutEntry(s: Sector, j: nat, v: Cluster): (s': Sector)
    requires j < 256
    ensures Entry(s', j) == v
    ensures forall i :: 0 <= i < 256 && i != j ==> Entry(s', i) == Entry(s, i)
  {
    var (low: Byte, high: Byte) := (v % 0x100, v / 0x100);
    s[2 * j := low][2 * j + 1 := high]
  }

  /** The number of entries of one copy. */
  function Total(g: Geometry): nat {
    256 * g.perFat
  }

  lemma SectorsFit(g: Geometry, d: Disk, k: nat, s: nat)
    requires Fits(g, d) && k < g.fatNum && s <= g.perFat
    ensures FatSector(g, k, s) <= FatSector(g, g.fatNum, 0) < |d|
    ensures s < g.perFat ==> FatSector(g, k, s) < FatSector(g, g.fatNum, 0)
  {
    assert (k + 1) * g.perFat <= g.fatNum * g.perFat;
    assert (k + 1) * g.perFat == k * g.perFat + g.perFat;
  }

  /** The first copy of the table. */
  function Table(d: Disk, g: Geometry): (t: seq<Cluster>)
    requires Fits(g, d)
    ensures |t| == Total(g)
  {
    SectorsFit(g, d, 0, g.perFat);
    seq(Total(g), c requires 0 <= c < Total(g) => Entry(d[g.fatStart + c / 256], c % 256))
  }

  /** All copies of the table agree. */
  ghost predicate Mirrored(d: Disk, g: Geometry)
    requires Fits(g, d)
  {
    forall k: nat, s: nat :: k < g.fatNum && s < g.perFat ==>
      (SectorsFit(g, d, k, s); SectorsFit(g, d, 0, s); d[FatSector(g, k, s)] == d[FatSector(g, 0, s)])
  }

  // ---------- Reading and writing one entry ----------

  /** get_next_cluster. The guard lets through one sector too many. */
  function NextOf(d: Disk, g: Geometry, c: Cluster): Cluster
    requires Fits(g, d)
  {
    if !ValidCluster(c) || c / 256 > g.perFat then FAT_CLUSTER_INVALID
    else
      SectorsFit(g, d, 0, c / 256);
      Entry(d[FatSector(g, 0, c / 256)], c % 256)
  }

  /** Writing one sector into the first `n` copies of the table. */
  function CopyTo(d: Disk, g: Geometry, s: nat, sector: Sector, n: nat): (d': Disk)
    requires Fits(g, d) && n <= g.fatNum && s <= g.perFat
    ensures |d'| == |d|
    decreases n
  {
    if n == 0 then d else
      SectorsFit(g, d, n - 1, s);
      CopyTo(d, g, s, sector, n - 1)[FatSector(g, n - 1, s) := sector]
  }

  /** set_next_cluster: the sector of the first copy with one entry changed goes to
      every copy. */
  function SetNext(d: Disk, g: Geometry, c: Cluster, v: Cluster): (d': Disk)
    requires Fits(g, d)
    ensures |d'| == |d|
  {
    if !ValidCluster(c) || c / 256 > g.perFat then d
    else
      SectorsFit(g, d, 0, c / 256);
      CopyTo(d, g, c / 256, PutEntry(d[FatSector(g, 0, c / 256)], c % 256, v), g.fatNum)
  }

  predicate Settable(g: Geometry, c: Cluster) {
    ValidCluster(c) && c / 256 <= g.perFat
  }

  lemma StepOver(g: Geometry, k: nat, s: nat, l: nat)
    requires k < l && s < g.perFat
    ensures FatSector(g, k, s) < FatSector(g, l, 0)
  {
    assert (k + 1) * g.perFat <= l * g.perFat;
  }

  /** Sectors of different copies, or different sectors of one copy, are different. */
  lemma SectorsDiffer(g: Geometry, k: nat, s: nat, l: nat, u: nat)
    requires s < g.perFat && u < g.perFat && FatSector(g, k, s) == FatSector(g, l, u)
    ensures k == l && s == u
  {
    if k < l {
      StepOver(g, k, s, l);
    } else if l < k {
      StepOver(g, l, u, k);
    }
  }

  lemma {:induction false} CopyToAt(d: Disk, g: Geometry, s: nat, sector: Sector, n: nat, x: nat)
    requires Fits(g, d) && n <= g.fatNum && s < g.perFat && x < |d|
    ensures var d' := CopyTo(d, g, s, sector, n);
            && (forall k: nat :: k < n && x == FatSector(g, k, s) ==> d'[x] == sector)
            && ((forall k: nat :: k < n ==> x != FatSector(g, k, s)) ==> d'[x] == d[x])
    decreases n
  {
    if n > 0 {
      SectorsFit(g, d, n - 1, s);
      CopyToAt(d, g, s, sector, n - 1, x);
      forall k: nat | k < n && x == FatSector(g, k, s) ensures CopyTo(d, g, s, sector, n)[x] == sector {
        if k == n - 1 {
          SectorsDiffer(g, k, s, n - 1, s);
        }
      }
    }
  }

  /** Outside the table copies. */
  predicate Outside(g: Geometry, x: nat) {
    x < g.fatStart || FatSector(g, g.fatNum, 0) <= x
  }

  lemma SetNextAt(d: Disk, g: Geometry, c: Cluster, v: Cluster, k: nat, s: nat)
    requires Fits(g, d) && Mirrored(d, g) && ValidCluster(c) && c < Total(g) && k < g.fatNum && s < g.perFat
    ensures FatSector(g, k, s) < |d| && FatSector(g, 0, s) < |d|
    ensures SetNext(d, g, c, v)[FatSector(g, k, s)] ==
            if s == c / 256 then PutEntry(d[FatSector(g, 0, s)], c % 256, v) else d[FatSector(g, 0, s)]
  {
    SectorsFit(g, d, k, s);
    SectorsFit(g, d, 0, s);
    SectorsFit(g, d, 0, c / 256);
    var sector := PutEntry(d[FatSector(g, 0, c / 256)], c % 256, v);
    CopyToAt(d, g, c / 256, sector, g.fatNum, FatSector(g, k, s));
    if s != c / 256 {
      forall l: nat | l < g.fatNum ensures FatSector(g, k, s) != FatSector(g, l, c / 256) {
        if FatSector(g, k, s) == FatSector(g, l, c / 256) {
          SectorsDiffer(g, k, s, l, c / 256);
        }
      }
    }
  }

  /** set_next_cluster changes one entry, in every copy, and nothing else. */
  lemma SetNextUpdates(d: Disk, g: Geometry, c: Cluster, v: Cluster)
    requires Fits(g, d) && Mirrored(d, g) && ValidCluster(c) && c < Total(g)
    ensures var d' := SetNext(d, g, c, v);
            && Fits(g, d') && Mirrored(d', g) && Table(d', g) == Table(d, g)[c := v]
            && (forall x: nat :: x < |d| && Outside(g, x) ==> d'[x] == d[x])
  {
    var d' := SetNext(d, g, c, v);
    forall k: nat, s: nat | k < g.fatNum && s < g.perFat
      ensures FatSector(g, k, s) < |d'| && FatSector(g, 0, s) < |d'| && d'[FatSector(g, k, s)] == d'[FatSector(g, 0, s)]
    {
      SetNextAt(d, g, c, v, k, s);
      SetNextAt(d, g, c, v, 0, s);
    }
    forall e | 0 <= e < Total(g) ensures Table(d', g)[e] == Table(d, g)[c := v][e] {
      SetNextAt(d, g, c, v, 0, e / 256);
      assert e == 256 * (e / 256) + e % 256 && c == 256 * (c / 256) + c % 256;
    }
    forall x: nat | x < |d| && Outside(g, x) ensures d'[x] == d[x] {
      SetNextOutside(d, g, c, v, x);
    }
  }

  lemma InsideFats(g: Geometry, d: Disk, k: nat, s: nat)
    requires Fits(g, d) && k < g.fatNum && s < g.perFat
    ensures !Outside(g, FatSector(g, k, s))
  {
    SectorsFit(g, d, k, s);
  }

  lemma SetNextOutside(d: Disk, g: Geometry, c: Cluster, v: Cluster, x: nat)
    requires Fits(g, d) && ValidCluster(c) && c < Total(g) && x < |d| && Outside(g, x)
    ensures SetNext(d, g, c, v)[x] == d[x]
  {
    assert c / 256 < g.perFat;
    SectorsFit(g, d, 0, c / 256);
    CopyToAt(d, g, c / 256, PutEntry(d[FatSector(g, 0, c / 256)], c % 256, v), g.fatNum, x);
    forall k: nat | k < g.fatNum ensures x != FatSector(g, k, c / 256) {
      InsideFats(g, d, k, c / 256);
    }
  }

  /** get_next_cluster reads the table, so it returns what was set last. */
  lemma NextIsTable(d: Disk, g: Geometry, c: Cluster)
    requires Fits(g, d)
    ensures ValidCluster(c) && c < Total(g) ==> NextOf(d, g, c) == Table(d, g)[c]
    ensures !ValidCluster(c) ==> NextOf(d, g, c) == FAT_CLUSTER_INVALID
  {
  }

  /** A cluster whose entry would lie one sector past the table passes the guard: every
      copy is then written one sector too far, and the sector after the last copy, the
      first of the root directory, receives the sector after the first copy. */
  lemma OneSectorTooFar(d: Disk, g: Geometry, c: Cluster, v: Cluster)
    requires Fits(g, d) && ValidCluster(c) && c / 256 == g.perFat
    ensures FatSector(g, 1, 0) < |d|
    ensures SetNext(d, g, c, v)[FatSector(g, g.fatNum, 0)] == PutEntry(d[FatSector(g, 1, 0)], c % 256, v)
  {
    SectorsFit(g, d, 0, g.perFat);
    assert FatSector(g, 0, g.perFat) == FatSector(g, 1, 0);
    assert (g.fatNum - 1) * g.perFat + g.perFat == g.fatNum * g.perFat;
  }

  /** Whatever the disk holds, set_next_cluster stays inside the tables for every value
      exactly when the cluster has an entry there; the guard does not ensure that. */
  lemma ConfinedIffInside(d: Disk, g: Geometry, c: Cluster)
    requires Fits(g, d) && Settable(g, c)
    ensures c < Total(g) <==> forall v: Cluster, x: nat :: x < |d| && Outside(g, x) ==> SetNext(d, g, c, v)[x] == d[x]
  {
    if c < Total(g) {
      forall v: Cluster, x: nat | x < |d| && Outside(g, x) ensures SetNext(d, g, c, v)[x] == d[x] {
        SetNextOutside(d, g, c, v, x);
      }
    } else {
      var root := FatSector(g, g.fatNum, 0);
      var v: Cluster := if Entry(d[root], c % 256) == 0 then 1 else 0;
      OneSectorTooFar(d, g, c, v);
      assert Entry(SetNext(d, g, c, v)[root], c % 256) == v;
      assert Outside(g, root) && SetNext(d, g, c, v)[root] != d[root];
    }
  }
}
