/** memory_copy_uvm_data on bytes: writes into the pages of one address space, read
    back through its directory. */
module Transfer {
  import opened Basics
  import opened Mmu
  import opened Vm
  import opened Ownership
  import opened Bytes

  /** The byte at `a` lies in RAM outside frame `to`, and so do the tables it is
      reached through. */
  predicate SourceApart(m: seq<Page>, dir: nat, a: Word, to: nat) {
    FrameAt(m, dir, a) < |m| && FrameAt(m, dir, a) != to &&
    (a >= MEM_TASK_BASE ==> dir != to && FrameOf(Entry(m, dir, PdeIndex(a))) != to)
  }

  /** The bytes at `src` can be read while frame `to` is being written. */
  ghost predicate Readable(m: seq<Page>, dir: nat, src: nat, size: nat, to: nat) {
    src + size <= 0x1_0000_0000 && forall a: Word :: src <= a < src + size ==> SourceApart(m, dir, a, to)
  }

  lemma ReadUnchanged(m: seq<Page>, m': seq<Page>, dir: nat, src: nat, size: nat, to: nat, a: Word)
    requires Readable(m, dir, src, size, to) && src <= a < src + size && |m'| == |m|
    requires forall f :: 0 <= f < |m| && f != to ==> m'[f] == m[f]
    ensures FrameAt(m', dir, a) == FrameAt(m, dir, a) < |m| && VirtByte(m', dir, a) == VirtByte(m, dir, a)
  {
    assert SourceApart(m, dir, a, to);
  }

  predicate TableFor(m: seq<Page>, d: nat, a: Word) {
    Present(Entry(m, d, PdeIndex(a)))
  }

  /** Byte `a` of user space `d` is backed by a mapped page. */
  predicate Backed(m: seq<Page>, d: nat, a: Word) {
    a >= MEM_TASK_BASE && UserPte(m, d, PdeIndex(a), PteIndex(a))
  }

  /** What memory_get_paddr gives: 0 without a table, and otherwise the frame of the
      entry, present or not, with the page offset. */
  function PhysAddr(m: seq<Page>, d: nat, a: Word): Word {
    if TableFor(m, d, a) then Translate(m, d, a) * PAGE_SIZE + a % PAGE_SIZE else 0
  }

  /** For a page that is not mapped it should be 0. It is another address exactly when
      there is a table and the frame field of the entry, or the page offset, is not 0. */
  lemma UnmappedPhysAddr(m: seq<Page>, d: nat, a: Word)
    requires a >= MEM_TASK_BASE && !Backed(m, d, a)
    ensures PhysAddr(m, d, a) != 0 <==> TableFor(m, d, a) && (Translate(m, d, a) != 0 || a % PAGE_SIZE != 0)
  {
    assert Translate(m, d, a) > 0 ==> Translate(m, d, a) * PAGE_SIZE > 0;
  }

  /** The bytes that one round of memory_copy_uvm_data moves: up to the end of the page,
      or of the request. */
  function Chunk(paddr: Word, size: nat): (n: nat)
    ensures n <= size && paddr % PAGE_SIZE + n <= PAGE_SIZE && (n == size || paddr % PAGE_SIZE + n == PAGE_SIZE)
  {
    var room := PAGE_SIZE - paddr % PAGE_SIZE;
    if room > size then size else room
  }

  /** What a caller asks for: user addresses that are backed or have no table, and
      source bytes apart from the frames written to. */
  ghost predicate CopyRequest(m: seq<Page>, d: nat, dir: nat, dest: Word, src: Word, size: nat) {
    && dest + size <= 0x1_0000_0000 && src + size <= 0x1_0000_0000
    && (forall a: Word :: dest <= a < dest + size ==> a >= MEM_TASK_BASE && (TableFor(m, d, a) ==> Backed(m, d, a)))
    && (forall a: Word, b: Word :: src <= a < src + size && dest <= b < dest + size && TableFor(m, d, b) ==>
          SourceApart(m, dir, a, Translate(m, d, b)))
  }

  /** Physical byte (f, o) is one of the first `n` destination bytes. */
  ghost predicate Target(m: seq<Page>, d: nat, dest: Word, n: nat, f: nat, o: nat) {
    exists a: Word :: dest <= a < dest + n && Translate(m, d, a) == f && a % PAGE_SIZE == o
  }

  ghost predicate TargetFrame(m: seq<Page>, d: nat, dest: Word, n: nat, f: nat) {
    exists a: Word :: dest <= a < dest + n && Translate(m, d, a) == f
  }

  /** The first `size` bytes at `src`, as the processor reads them. */
  ghost function SourceBytes(m: seq<Page>, dir: nat, src: Word, size: nat): (r: seq<Byte>)
    requires src + size <= 0x1_0000_0000
    ensures |r| == size && forall k :: 0 <= k < size ==> r[k] == VirtByte(m, dir, src + k)
  {
    seq<Byte>(size, k requires 0 <= k < size => VirtByte(m, dir, src + k))
  }

  /** The first `n` of `bytes` have reached backed user addresses from `dest` on, and
      all other bytes of RAM are as they were. */
  ghost predicate Transferred(m: seq<Page>, m': seq<Page>, d: nat, dest: Word, bytes: seq<Byte>, n: nat) {
    && n <= |bytes| && dest + n <= 0x1_0000_0000 && |m'| == |m|
    && (forall a: Word :: dest <= a < dest + n ==> TableFor(m, d, a))
    && (forall a: Word :: dest <= a < dest + n ==> VirtByte(m', d, a) == bytes[a - dest])
    && (forall f: nat, o: nat :: f < |m| && o < PAGE_SIZE && !Target(m, d, dest, n, f, o) ==>
          PageByte(m'[f], o) == PageByte(m[f], o))
    && (forall f: nat :: f < |m| && !TargetFrame(m, d, dest, n, f) ==> m'[f] == m[f])
  }

  /** `m'` differs from `m` only in pages that `d` maps. */
  ghost predicate DataOnly(m: seq<Page>, m': seq<Page>, d: nat) {
    |m'| == |m| && forall f: nat :: f < |m| && m'[f] != m[f] ==> DataFrame(m, d, f)
  }

  ghost predicate DataFrame(m: seq<Page>, d: nat, f: nat) {
    exists i: nat, j: nat :: UserPte(m, d, i, j) && FrameOf(Pte(m, d, i, j)) == f
  }

  lemma NotData(s: State, kd: nat, live: set<nat>, d: nat, p: Path)
    requires Inv(s, kd, live) && d in live && Has(s.mem, kd, live, p) && (p.Leaf? ==> p.dir != d)
    ensures !DataFrame(s.mem, d, At(s.mem, kd, p))
  {
    forall i: nat, j: nat | UserPte(s.mem, d, i, j) ensures FrameOf(Pte(s.mem, d, i, j)) != At(s.mem, kd, p) {
      assert Has(s.mem, kd, live, Leaf(d, i, j));
    }
  }

  lemma DataOnlyPath(s: State, m': seq<Page>, kd: nat, live: set<nat>, d: nat, p: Path)
    requires Inv(s, kd, live) && d in live && DataOnly(s.mem, m', d)
    ensures Has(m', kd, live, p) <==> Has(s.mem, kd, live, p)
    ensures Has(s.mem, kd, live, p) ==> At(m', kd, p) == At(s.mem, kd, p)
    ensures p.Root? && p.dir in live ==> p.dir < |m'| && m'[p.dir] == s.mem[p.dir]
    ensures m'[kd] == s.mem[kd]
    ensures p.Table? && Has(s.mem, kd, live, p) ==>
              At(s.mem, kd, p) < |m'| && m'[At(s.mem, kd, p)] == s.mem[At(s.mem, kd, p)]
  {
    forall i: nat, j: nat | UserPte(s.mem, d, i, j) ensures FrameOf(Pte(s.mem, d, i, j)) != kd {
      assert Has(s.mem, kd, live, Leaf(d, i, j));
    }
    FramesOfPath(s, kd, live, p);
    if !p.KernelTable? && p.dir in live {
      assert Has(s.mem, kd, live, Root(p.dir));
      NotData(s, kd, live, d, Root(p.dir));
      if !p.Root? && UserPde(s.mem, p.dir, p.i) {
        assert Has(s.mem, kd, live, Table(p.dir, p.i));
        NotData(s, kd, live, d, Table(p.dir, p.i));
      }
    }
  }

  /** Writing data changes no translation of `d` and keeps the invariant. */
  lemma DataOnlyKeeps(s: State, m': seq<Page>, kd: nat, live: set<nat>, d: nat)
    requires Inv(s, kd, live) && d in live && DataOnly(s.mem, m', d)
    ensures Inv(WithMem(s, m'), kd, live)
    ensures forall i: nat :: Entry(m', d, i) == Entry(s.mem, d, i)
    ensures forall a: Word :: a >= MEM_TASK_BASE && TableFor(s.mem, d, a) ==> Translate(m', d, a) == Translate(s.mem, d, a)
  {
    forall p
      ensures Has(m', kd, live, p) <==> Has(s.mem, kd, live, p)
      ensures Has(s.mem, kd, live, p) ==> At(m', kd, p) == At(s.mem, kd, p)
    {
      DataOnlyPath(s, m', kd, live, d, p);
    }
    forall d', i: nat | d' in live && i < USER_PDE ensures Entry(m', d', i) == Entry(m', kd, i) {
      DataOnlyPath(s, m', kd, live, d, Root(d'));
      assert Entry(s.mem, d', i) == Entry(s.mem, kd, i);
    }
    forall d', i: nat | d' in live && UserPde(m', d', i) ensures TableBits(m', d', i) == 7 {
      DataOnlyPath(s, m', kd, live, d, Root(d'));
      assert TableBits(s.mem, d', i) == TableBits(m', d', i);
    }
    DataOnlyPath(s, m', kd, live, d, Root(d));
    forall a: Word | a >= MEM_TASK_BASE && TableFor(s.mem, d, a)
      ensures Translate(m', d, a) == Translate(s.mem, d, a)
    {
      assert Has(s.mem, kd, live, Table(d, PdeIndex(a)));
      DataOnlyPath(s, m', kd, live, d, Table(d, PdeIndex(a)));
    }
  }

  /** The source bytes still read as they did at the start. */
  lemma SourceKept(m: seq<Page>, m': seq<Page>, d: nat, dir: nat, dest: Word, src: Word, size: nat, bytes: seq<Byte>, n: nat, a: Word)
    requires CopyRequest(m, d, dir, dest, src, size) && n <= size && Transferred(m, m', d, dest, bytes, n)
    requires src <= a < src + size && FrameAt(m, dir, a) < |m|
    ensures FrameAt(m', dir, a) == FrameAt(m, dir, a) && VirtByte(m', dir, a) == VirtByte(m, dir, a)
    ensures Entry(m', dir, PdeIndex(a)) == Entry(m, dir, PdeIndex(a)) || a < MEM_TASK_BASE
  {
    forall f: nat | f < |m| && (f == FrameAt(m, dir, a) ||
                                (a >= MEM_TASK_BASE && (f == dir || f == FrameOf(Entry(m, dir, PdeIndex(a))))))
      ensures m'[f] == m[f]
    {
      forall b: Word | dest <= b < dest + n ensures Translate(m, d, b) != f {
        assert TableFor(m, d, b);
        assert SourceApart(m, dir, a, Translate(m, d, b));
      }
      assert !TargetFrame(m, d, dest, n, f);
    }
  }

  /** The destination bytes of one round: `chunk` bytes from `at` on, in one page. */
  ghost predicate InPage(at: Word, chunk: nat) {
    at % PAGE_SIZE + chunk <= PAGE_SIZE && at + chunk <= 0x1_0000_0000
  }

  lemma SamePageNumber(at: Word, chunk: nat, a: Word)
    requires InPage(at, chunk) && at <= a < at + chunk
    ensures a % PAGE_SIZE == at % PAGE_SIZE + (a - at) && a / PAGE_SIZE == at / PAGE_SIZE
  {
    var q, r := at / PAGE_SIZE, at % PAGE_SIZE;
    assert a == PAGE_SIZE * q + (r + (a - at));
  }

  lemma SamePage(m: seq<Page>, d: nat, at: Word, chunk: nat, a: Word)
    requires InPage(at, chunk) && at <= a < at + chunk
    ensures PdeIndex(a) == PdeIndex(at) && PteIndex(a) == PteIndex(at) && Translate(m, d, a) == Translate(m, d, at)
    ensures a % PAGE_SIZE == at % PAGE_SIZE + (a - at) && a / PAGE_SIZE == at / PAGE_SIZE
  {
    SamePageNumber(at, chunk, a);
    SameIndices(at, a);
  }

  /** The indices of an address depend on its page only. */
  lemma SameIndices(a: Word, b: Word)
    requires a / PAGE_SIZE == b / PAGE_SIZE
    ensures PdeIndex(a) == PdeIndex(b) && PteIndex(a) == PteIndex(b)
  {
    IndexRanges(a);
    IndexRanges(b);
  }

  /** Two backed addresses in one frame lie in one page. */
  lemma SameFrame(s: State, kd: nat, live: set<nat>, d: nat, a: Word, b: Word)
    requires Inv(s, kd, live) && d in live && Backed(s.mem, d, a) && Backed(s.mem, d, b)
    requires Translate(s.mem, d, a) == Translate(s.mem, d, b)
    ensures a / PAGE_SIZE == b / PAGE_SIZE
  {
    assert Has(s.mem, kd, live, Leaf(d, PdeIndex(a), PteIndex(a)));
    assert Has(s.mem, kd, live, Leaf(d, PdeIndex(b), PteIndex(b)));
    IndexRanges(a);
    IndexRanges(b);
  }

  lemma BackedInRam(s: State, kd: nat, live: set<nat>, d: nat, a: Word)
    requires Inv(s, kd, live) && d in live && Backed(s.mem, d, a)
    ensures 0 < Translate(s.mem, d, a) < |s.mem|
  {
    assert Has(s.mem, kd, live, Leaf(d, PdeIndex(a), PteIndex(a)));
  }

  /** The next chunk of the source can be read while its frame is written. */
  lemma ChunkReadable(m: seq<Page>, m': seq<Page>, d: nat, dir: nat, dest: Word, src: Word, size: nat, bytes: seq<Byte>, n: nat, chunk: nat)
    requires CopyRequest(m, d, dir, dest, src, size) && Transferred(m, m', d, dest, bytes, n)
    requires 0 < chunk && n + chunk <= size && TableFor(m, d, dest + n)
    ensures Readable(m', dir, src + n, chunk, Translate(m, d, dest + n))
  {
    var to := Translate(m, d, dest + n);
    forall a: Word | src + n <= a < src + n + chunk ensures SourceApart(m', dir, a, to) {
      ByteReadable(m, m', d, dir, dest, src, size, bytes, n, a, dest + n);
    }
  }

  /** What is read now is what was there at the start. */
  lemma ChunkUnchanged(m: seq<Page>, m': seq<Page>, d: nat, dir: nat, dest: Word, src: Word, size: nat, bytes: seq<Byte>, n: nat, chunk: nat)
    requires CopyRequest(m, d, dir, dest, src, size) && Transferred(m, m', d, dest, bytes, n)
    requires bytes == SourceBytes(m, dir, src, size)
    requires 0 < chunk && n + chunk <= size && TableFor(m, d, dest + n)
    ensures SourceBytes(m', dir, src + n, chunk) == bytes[n..n + chunk]
  {
    var from: Word := src + n;
    forall a: Word | from <= a < from + chunk ensures VirtByte(m', dir, a) == VirtByte(m, dir, a) {
      ByteReadable(m, m', d, dir, dest, src, size, bytes, n, a, dest + n);
    }
    SameBytes(m, m', dir, from, chunk);
    SubBytes(m, dir, src, size, n, chunk);
  }

  lemma SameBytes(m: seq<Page>, m': seq<Page>, dir: nat, src: Word, size: nat)
    requires src + size <= 0x1_0000_0000
    requires forall a: Word :: src <= a < src + size ==> VirtByte(m', dir, a) == VirtByte(m, dir, a)
    ensures SourceBytes(m', dir, src, size) == SourceBytes(m, dir, src, size)
  {
    var r, r' := SourceBytes(m, dir, src, size), SourceBytes(m', dir, src, size);
    forall k | 0 <= k < size ensures r'[k] == r[k] {
      var a: Word := src + k;
    }
  }

  lemma SubBytes(m: seq<Page>, dir: nat, src: Word, size: nat, n: nat, chunk: nat)
    requires n < size && n + chunk <= size && src + size <= 0x1_0000_0000
    ensures SourceBytes(m, dir, src + n, chunk) == SourceBytes(m, dir, src, size)[n..n + chunk]
  {
    var r, r' := SourceBytes(m, dir, src, size), SourceBytes(m, dir, src + n, chunk);
    forall k | 0 <= k < chunk ensures r'[k] == r[n + k] {
      assert src + n + k == src + (n + k);
    }
  }

  lemma ByteReadable(m: seq<Page>, m': seq<Page>, d: nat, dir: nat, dest: Word, src: Word, size: nat,
                     bytes: seq<Byte>, n: nat, a: Word, at: Word)
    requires CopyRequest(m, d, dir, dest, src, size) && Transferred(m, m', d, dest, bytes, n) && n <= size
    requires src <= a < src + size && dest <= at < dest + size && TableFor(m, d, at)
    ensures VirtByte(m', dir, a) == VirtByte(m, dir, a)
    ensures SourceApart(m', dir, a, Translate(m, d, at))
  {
    assert SourceApart(m, dir, a, Translate(m, d, at));
    SourceKept(m, m', d, dir, dest, src, size, bytes, n, a);
  }

  /** `chunk` has been written into frame `f` at offset `off`. */
  ghost predicate ChunkWritten(m': seq<Page>, m'': seq<Page>, f: nat, off: nat, chunk: seq<Byte>) {
    && |m''| == |m'| && f < |m'|
    && (forall g: nat :: g < |m'| && g != f ==> m''[g] == m'[g])
    && (forall o: nat :: o < PAGE_SIZE ==>
          PageByte(m''[f], o) ==
          if off <= o < off + |chunk| then chunk[o - off] else PageByte(m'[f], o))
  }

  /** What one round to physical address `paddr` needs: its frame lies in RAM, apart from
      what is read. */
  ghost predicate RoundPossible(m: seq<Page>, paddr: Word, dir: nat, src: Word, size: nat) {
    paddr != 0 ==> paddr / PAGE_SIZE < |m| && Readable(m, dir, src, Chunk(paddr, size), paddr / PAGE_SIZE)
  }

  /** One round of memory_copy_uvm_data: `chunk` bytes are written to the frame that
      memory_get_paddr names, or nothing is if it names none. */
  ghost predicate RoundDone(m: seq<Page>, m': seq<Page>, paddr: Word, dir: nat, src: Word, size: nat, chunk: nat) {
    if paddr == 0 then chunk == 0 && m' == m
    else chunk == Chunk(paddr, size) && src + chunk <= 0x1_0000_0000 &&
         ChunkWritten(m, m', paddr / PAGE_SIZE, paddr % PAGE_SIZE, SourceBytes(m, dir, src, chunk))
  }

  /** `paddr` is where address `at` of space `d` lies in `m0`, or 0 if that has no table;
      the next bytes of the source can be read, and are `bytes` from `done` on. */
  ghost predicate Aimed(m0: seq<Page>, m: seq<Page>, d: nat, dir: nat, at: Word, src: Word, size: nat,
                        bytes: seq<Byte>, done: nat, paddr: Word)
  {
    && done + size == |bytes| && size > 0
    && (paddr == 0 ==> !TableFor(m0, d, at))
    && (paddr != 0 ==> TableFor(m0, d, at) && paddr / PAGE_SIZE == Translate(m0, d, at) && paddr % PAGE_SIZE == at % PAGE_SIZE)
    && (paddr != 0 ==> InPage(at, Chunk(paddr, size)) && src + Chunk(paddr, size) <= 0x1_0000_0000)
    && (paddr != 0 ==> SourceBytes(m, dir, src, Chunk(paddr, size)) == bytes[done..done + Chunk(paddr, size)])
  }

  lemma AimsAt(m0: seq<Page>, m: seq<Page>, d: nat, dir: nat, at: Word, src: Word, size: nat,
               bytes: seq<Byte>, done: nat, paddr: Word, chunk: nat)
    requires done + size == |bytes| && chunk == Chunk(paddr, size) && 0 < chunk <= size && paddr % PAGE_SIZE + chunk <= PAGE_SIZE
    requires at + size <= 0x1_0000_0000 && src + size <= 0x1_0000_0000 && paddr != 0
    requires TableFor(m0, d, at) && paddr / PAGE_SIZE == Translate(m0, d, at) < |m| && paddr % PAGE_SIZE == at % PAGE_SIZE
    requires Readable(m, dir, src, chunk, Translate(m0, d, at)) && SourceBytes(m, dir, src, chunk) == bytes[done..done + chunk]
    ensures Aimed(m0, m, d, dir, at, src, size, bytes, done, paddr) && RoundPossible(m, paddr, dir, src, size)
  {
  }

  lemma AimsNowhere(m0: seq<Page>, m: seq<Page>, d: nat, dir: nat, at: Word, src: Word, size: nat, bytes: seq<Byte>, done: nat)
    requires done + size == |bytes| && size > 0 && !TableFor(m0, d, at)
    ensures Aimed(m0, m, d, dir, at, src, size, bytes, done, 0) && RoundPossible(m, 0, dir, src, size)
  {
  }

  /** What a round has written. */
  lemma RoundWrites(m0: seq<Page>, m: seq<Page>, m': seq<Page>, d: nat, dir: nat, at: Word, src: Word, size: nat,
                    bytes: seq<Byte>, done: nat, paddr: Word, chunk: nat)
    requires Aimed(m0, m, d, dir, at, src, size, bytes, done, paddr) && RoundDone(m, m', paddr, dir, src, size, chunk)
    ensures chunk <= size && (chunk == 0 ==> !TableFor(m0, d, at) && m' == m)
    ensures chunk > 0 ==> TableFor(m0, d, at) && InPage(at, chunk)
    ensures chunk > 0 ==> ChunkWritten(m, m', Translate(m0, d, at), at % PAGE_SIZE, bytes[done..done + chunk])
  {
  }

  /** One more byte. */
  lemma ExtendChunk(m: seq<Page>, m': seq<Page>, f: nat, off: nat, bytes: seq<Byte>, n: nat)
    requires n < |bytes| && off + n < PAGE_SIZE && ChunkWritten(m, m', f, off, bytes[..n])
    ensures ChunkWritten(m, m'[f := PutPageByte(m'[f], off + n, bytes[n])], f, off, bytes[..n + 1])
  {
  }

  lemma TransferredNothing(m: seq<Page>, d: nat, dest: Word, bytes: seq<Byte>)
    ensures Transferred(m, m, d, dest, bytes, 0)
  {
  }

  /** One round changes nothing but the bytes of the chunk. */
  lemma ChunkElsewhere(m: seq<Page>, m': seq<Page>, m'': seq<Page>, d: nat, dest: Word, bytes: seq<Byte>, n: nat, chunk: seq<Byte>)
    requires Transferred(m, m', d, dest, bytes, n) && 0 < |chunk|
    requires dest + n < 0x1_0000_0000 && InPage(dest + n, |chunk|)
    requires ChunkWritten(m', m'', Translate(m, d, dest + n), (dest + n) % PAGE_SIZE, chunk)
    ensures forall f: nat, o: nat :: f < |m| && o < PAGE_SIZE && !Target(m, d, dest, n + |chunk|, f, o) ==>
              PageByte(m''[f], o) == PageByte(m[f], o)
    ensures forall f: nat :: f < |m| && !TargetFrame(m, d, dest, n + |chunk|, f) ==> m''[f] == m[f]
  {
    var at: Word := dest + n;
    var f, n' := Translate(m, d, at), n + |chunk|;
    forall g: nat | g < |m| && !TargetFrame(m, d, dest, n', g) ensures m''[g] == m[g] {
      assert !TargetFrame(m, d, dest, n, g) && g != f;
    }
    forall o: nat | at % PAGE_SIZE <= o < at % PAGE_SIZE + |chunk| ensures Target(m, d, dest, n', f, o) {
      SamePage(m, d, at, |chunk|, at + (o - at % PAGE_SIZE));
    }
    forall g: nat, o: nat | g < |m| && o < PAGE_SIZE && !Target(m, d, dest, n', g, o)
      ensures PageByte(m''[g], o) == PageByte(m[g], o)
    {
      assert !Target(m, d, dest, n, g, o);
    }
  }

  /** One round: the bytes of the chunk reach their addresses, the earlier ones stay. */
  lemma TransferChunk(s: State, m': seq<Page>, m'': seq<Page>, kd: nat, live: set<nat>,
                      d: nat, dest: Word, bytes: seq<Byte>, n: nat, chunk: seq<Byte>)
    requires Inv(s, kd, live) && d in live && Transferred(s.mem, m', d, dest, bytes, n) && DataOnly(s.mem, m', d)
    requires 0 < |chunk| && n + |chunk| <= |bytes| && chunk == bytes[n..n + |chunk|]
    requires dest + n < 0x1_0000_0000 && InPage(dest + n, |chunk|)
    requires forall a: Word :: dest <= a < dest + n + |chunk| && TableFor(s.mem, d, a) ==> Backed(s.mem, d, a)
    requires TableFor(s.mem, d, dest + n)
    requires ChunkWritten(m', m'', Translate(s.mem, d, dest + n), (dest + n) % PAGE_SIZE, chunk)
    ensures Transferred(s.mem, m'', d, dest, bytes, n + |chunk|) && DataOnly(s.mem, m'', d)
  {
    var m, at: Word := s.mem, dest + n;
    ChunkElsewhere(m, m', m'', d, dest, bytes, n, chunk);
    assert Backed(m, d, at);
    ChunkIsData(m, m', m'', d, at, chunk);
    forall a: Word | dest <= a < dest + n + |chunk| ensures TableFor(m, d, a) && VirtByte(m'', d, a) == bytes[a - dest] {
      TransferredByte(s, m', m'', kd, live, d, dest, bytes, n, chunk, a);
    }
  }

  lemma TransferredByte(s: State, m': seq<Page>, m'': seq<Page>, kd: nat, live: set<nat>,
                        d: nat, dest: Word, bytes: seq<Byte>, n: nat, chunk: seq<Byte>, a: Word)
    requires Inv(s, kd, live) && d in live && Transferred(s.mem, m', d, dest, bytes, n)
    requires DataOnly(s.mem, m', d) && DataOnly(s.mem, m'', d)
    requires 0 < |chunk| && n + |chunk| <= |bytes| && chunk == bytes[n..n + |chunk|]
    requires dest + n < 0x1_0000_0000 && InPage(dest + n, |chunk|) && TableFor(s.mem, d, dest + n)
    requires forall a: Word :: dest <= a < dest + n + |chunk| && TableFor(s.mem, d, a) ==> Backed(s.mem, d, a)
    requires ChunkWritten(m', m'', Translate(s.mem, d, dest + n), (dest + n) % PAGE_SIZE, chunk)
    requires dest <= a < dest + n + |chunk|
    ensures TableFor(s.mem, d, a) && VirtByte(m'', d, a) == bytes[a - dest]
  {
    var at: Word := dest + n;
    if a >= at {
      SamePage(s.mem, d, at, |chunk|, a);
    }
    TransferByte(s, m', m'', kd, live, d, at, chunk, a);
    if a < at {
      assert VirtByte(m', d, a) == bytes[a - dest];
    }
  }

  lemma ChunkIsData(m: seq<Page>, m': seq<Page>, m'': seq<Page>, d: nat, at: Word, chunk: seq<Byte>)
    requires DataOnly(m, m', d) && Backed(m, d, at)
    requires ChunkWritten(m', m'', Translate(m, d, at), at % PAGE_SIZE, chunk)
    ensures DataOnly(m, m'', d)
  {
    assert DataFrame(m, d, Translate(m, d, at)) by {
      assert UserPte(m, d, PdeIndex(at), PteIndex(at));
    }
  }

  lemma TransferByte(s: State, m': seq<Page>, m'': seq<Page>, kd: nat, live: set<nat>, d: nat, at: Word, chunk: seq<Byte>, a: Word)
    requires Inv(s, kd, live) && d in live && Backed(s.mem, d, a) && Backed(s.mem, d, at)
    requires DataOnly(s.mem, m', d) && DataOnly(s.mem, m'', d) && InPage(at, |chunk|) && a < at + |chunk|
    requires ChunkWritten(m', m'', Translate(s.mem, d, at), at % PAGE_SIZE, chunk)
    ensures VirtByte(m'', d, a) == if a >= at then chunk[a - at] else VirtByte(m', d, a)
  {
    ReadThrough(s, m', kd, live, d, a);
    ReadThrough(s, m'', kd, live, d, a);
    if a >= at {
      NewByte(s.mem, m', m'', d, at, chunk, a);
    } else {
      OldByte(s, m', m'', kd, live, d, at, chunk, a);
    }
  }

  /** A backed byte is read from its frame, before and after data writes. */
  lemma ReadThrough(s: State, m': seq<Page>, kd: nat, live: set<nat>, d: nat, a: Word)
    requires Inv(s, kd, live) && d in live && DataOnly(s.mem, m', d) && Backed(s.mem, d, a)
    ensures Translate(s.mem, d, a) < |m'|
    ensures VirtByte(m', d, a) == PageByte(m'[Translate(s.mem, d, a)], a % PAGE_SIZE)
  {
    DataOnlyKeeps(s, m', kd, live, d);
    BackedInRam(s, kd, live, d, a);
  }

  lemma NewByte(m: seq<Page>, m': seq<Page>, m'': seq<Page>, d: nat, at: Word, chunk: seq<Byte>, a: Word)
    requires InPage(at, |chunk|) && at <= a < at + |chunk|
    requires ChunkWritten(m', m'', Translate(m, d, at), at % PAGE_SIZE, chunk)
    ensures Translate(m, d, a) < |m''|
    ensures PageByte(m''[Translate(m, d, a)], a % PAGE_SIZE) == chunk[a - at]
  {
    SamePage(m, d, at, |chunk|, a);
  }

  lemma OldByte(s: State, m': seq<Page>, m'': seq<Page>, kd: nat, live: set<nat>, d: nat, at: Word, chunk: seq<Byte>, a: Word)
    requires Inv(s, kd, live) && d in live && Backed(s.mem, d, a) && Backed(s.mem, d, at)
    requires ChunkWritten(m', m'', Translate(s.mem, d, at), at % PAGE_SIZE, chunk)
    requires Translate(s.mem, d, a) < |m'| && a < at
    ensures PageByte(m''[Translate(s.mem, d, a)], a % PAGE_SIZE) == PageByte(m'[Translate(s.mem, d, a)], a % PAGE_SIZE)
  {
    if Translate(s.mem, d, a) == Translate(s.mem, d, at) {
      SameFrame(s, kd, live, d, a, at);
    }
    KeptByte(m', m'', Translate(s.mem, d, at), at, chunk, Translate(s.mem, d, a), a);
  }

  lemma KeptByte(m': seq<Page>, m'': seq<Page>, f: nat, at: Word, chunk: seq<Byte>, g: nat, a: Word)
    requires ChunkWritten(m', m'', f, at % PAGE_SIZE, chunk) && g < |m'|
    requires a < at && (g == f ==> a / PAGE_SIZE == at / PAGE_SIZE)
    ensures PageByte(m''[g], a % PAGE_SIZE) == PageByte(m'[g], a % PAGE_SIZE)
  {
    assert g == f ==> a % PAGE_SIZE < at % PAGE_SIZE;
  }
}
