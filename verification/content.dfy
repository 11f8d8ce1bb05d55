/** The contents of a file on a FAT16 volume as one flat string of bytes, and how many of
    them a read returns (src/kernel/fs/fatfs/fatfs.c). */
module FatContent {
  import opened Basics
  import opened FatVolume

  /** `n` sectors one after the other. */
  function SectorRun(d: Disk, first: nat, n: nat): (s: seq<Byte>)
    requires first + n <= |d|
    ensures |s| == SECTOR_SIZE * n
    decreases n
  {
    if n == 0 then [] else SectorRun(d, first, n - 1) + d[first + n - 1]
  }

  function BytesPerCluster(g: Geometry): nat {
    g.perCluster * SECTOR_SIZE
  }

  /** Where the k-th of several pieces of `b` bytes begins. */
  function Base(k: nat, b: nat): nat {
    if k == 0 then 0 else Base(k - 1, b) + b
  }

  lemma {:induction false} BaseOrder(k: nat, n: nat, b: nat)
    requires k < n
    ensures Base(k, b) + b <= Base(n, b)
    decreases n
  {
    if k < n - 1 {
      BaseOrder(k, n - 1, b);
    }
  }

  lemma {:induction false} BaseIsProduct(k: nat, b: nat)
    ensures Base(k, b) == k * b
    decreases k
  {
    if k > 0 {
      BaseIsProduct(k - 1, b);
      assert (k - 1) * b + b == k * b;
    }
  }

  lemma QuotientRemainder(pos: nat, b: nat)
    requires b > 0
    ensures pos == pos / b * b + pos % b && 0 <= pos % b < b
  {
  }

  lemma MulLess(a: nat, c: nat, b: nat)
    ensures a <= c ==> a * b <= c * b
    ensures a * b < c * b ==> a < c
  {
    if a <= c {
      assert (c - a) * b >= 0;
    } else {
      assert (a - c) * b >= 0;
    }
  }

  lemma QuotientIs(q: nat, r: nat, b: nat)
    requires r < b
    ensures (q * b + r) / b == q
  {
    var x := (q * b + r) / b;
    QuotientRemainder(q * b + r, b);
    MulLess(x, q + 1, b);
    MulLess(q, x + 1, b);
    assert x * b < (q + 1) * b && q * b < (x + 1) * b;
  }

  /** Quotient and remainder, in terms of pieces. */
  lemma PieceOf(pos: nat, k: nat, off: nat, b: nat)
    requires pos == Base(k, b) + off && off < b
    ensures pos / b == k && pos % b == off
  {
    BaseIsProduct(k, b);
    QuotientIs(k, off, b);
    QuotientRemainder(pos, b);
  }

  function FirstSector(g: Geometry, c: Cluster): nat
    requires ValidCluster(c)
  {
    g.dataStart + (c - CLUSTER_START_NO) * g.perCluster
  }

  predicate OnDisk(d: Disk, g: Geometry, c: Cluster) {
    ValidCluster(c) && c < Total(g) && FirstSector(g, c) + g.perCluster <= |d|
  }

  function ClusterBytes(d: Disk, g: Geometry, c: Cluster): (s: seq<Byte>)
    requires OnDisk(d, g, c)
    ensures |s| == BytesPerCluster(g)
  {
    SectorRun(d, FirstSector(g, c), g.perCluster)
  }

  /** The table links the clusters of `chain`, and they hold at least `size` bytes. */
  ghost predicate Covers(d: Disk, g: Geometry, chain: seq<Cluster>, size: nat) {
    && Fits(g, d) && 1 <= g.perCluster
    && (forall i :: 0 <= i < |chain| ==> OnDisk(d, g, chain[i]))
    && (forall i {:trigger Table(d, g)[chain[i]]} :: 0 <= i < |chain| - 1 ==> Table(d, g)[chain[i]] == chain[i + 1])
    && size <= Base(|chain|, BytesPerCluster(g))
  }

  /** The concatenated chain. */
  function Content(d: Disk, g: Geometry, chain: seq<Cluster>): (s: seq<Byte>)
    requires forall i :: 0 <= i < |chain| ==> OnDisk(d, g, chain[i])
    ensures |s| == Base(|chain|, BytesPerCluster(g))
    decreases |chain|
  {
    if chain == [] then [] else
      Content(d, g, chain[..|chain| - 1]) + ClusterBytes(d, g, chain[|chain| - 1])
  }

  lemma SliceOfSum(a: seq<Byte>, b: seq<Byte>, i: nat, j: nat)
    requires i <= j <= |a + b|
    ensures j <= |a| ==> (a + b)[i..j] == a[i..j]
    ensures i >= |a| ==> (a + b)[i..j] == b[i - |a|..j - |a|]
  {
  }

  /** Within one cluster, the flat string is what the cluster holds. */
  lemma {:induction false} ContentAt(d: Disk, g: Geometry, chain: seq<Cluster>, k: nat, at: nat, off: nat, m: nat)
    requires forall i :: 0 <= i < |chain| ==> OnDisk(d, g, chain[i])
    requires k < |chain| && off + m <= BytesPerCluster(g) && at == Base(k, BytesPerCluster(g)) + off
    ensures at + m <= |Content(d, g, chain)|
    ensures Content(d, g, chain)[at..at + m] == ClusterBytes(d, g, chain[k])[off..off + m]
    decreases |chain|
  {
    var last := |chain| - 1;
    BaseOrder(k, |chain|, BytesPerCluster(g));
    SliceOfSum(Content(d, g, chain[..last]), ClusterBytes(d, g, chain[last]), at, at + m);
    if k < last {
      BaseOrder(k, last, BytesPerCluster(g));
      ContentAt(d, g, chain[..last], k, at, off, m);
    }
  }

  // ---------- The cursor ----------

  predicate CursorAt(pos: nat, currCluster: nat, chain: seq<Cluster>, b: nat, k: nat) {
    k < |chain| && Base(k, b) <= pos < Base(k, b) + b && currCluster == chain[k]
  }

  /** The cursor is the cluster of the chain that holds the position. */
  ghost predicate Cursor(pos: nat, currCluster: nat, chain: seq<Cluster>, b: nat) {
    exists k: nat :: CursorAt(pos, currCluster, chain, b, k)
  }

  lemma CursorIsQuotient(pos: nat, currCluster: nat, chain: seq<Cluster>, b: nat)
    requires b > 0
    ensures Cursor(pos, currCluster, chain, b) <==> pos / b < |chain| && currCluster == chain[pos / b]
  {
    if k: nat :| CursorAt(pos, currCluster, chain, b, k) {
      PieceOf(pos, k, pos - Base(k, b), b);
    } else {
      var q := pos / b;
      BaseIsProduct(q, b);
      assert pos == q * b + pos % b;
      assert !CursorAt(pos, currCluster, chain, b, q);
    }
  }

  // ---------- How much is read ----------

  /** The count that fatfs_read settles on; sums are taken modulo 2^32. */
  function ReadCount(pos: nat, size: nat, fileSize: nat): nat {
    if (pos + size) % TWO32 > fileSize then (fileSize - pos) % TWO32 else size
  }

  function Min(a: int, b: int): int {
    if a < b then a else b
  }

  /** The count is right exactly when the sum does not wrap. */
  lemma ReadCountExact(pos: nat, size: nat, fileSize: nat)
    requires pos <= fileSize < TWO32 && size < TWO32
    ensures ReadCount(pos, size, fileSize) == Min(size, fileSize - pos) <==>
            pos + size < 0x1_0000_0000
  {
  }

  /** What a read at `pos` gives. */
  function ReadBytes(content: seq<Byte>, pos: nat, size: nat): seq<Byte>
    requires pos <= |content|
  {
    content[pos..Min(pos + size, |content|)]
  }

  /** Two successive reads give what one combined read gives. */
  lemma TwoReads(content: seq<Byte>, pos: nat, a: nat, b: nat)
    requires pos <= |content|
    ensures var first := ReadBytes(content, pos, a);
            pos + |first| <= |content| &&
            first + ReadBytes(content, pos + |first|, b) == ReadBytes(content, pos, a + b)
  {
  }
}
