/** The kernel's memory manager over real arrays (src/kernel/core/memory.c): every
    method refines the function of the same operation in module Vm. */
module MemoryManager {
  import opened Basics
  import opened Mmu
  import opened Vm
  import opened Ownership
  import opened Mapping
  import opened Growth
  import opened PageAlloc
  import opened Copy
  import opened Destruction
  import opened Fork
  import opened Bytes
  import opened Transfer
  import Demand
  import Bitmaps
  import Heap

  /** The directory and its tables lie in RAM, none of them is free, and no table is
      the directory itself: what walking and storing needs. */
  ghost predicate Walkable(s: State, d: nat) {
    && Shape(s) && d < |s.mem| && !Free(s, d)
    && (forall i: nat :: Present(Entry(s.mem, d, i)) ==> Tab(s.mem, d, i) < |s.mem| && Tab(s.mem, d, i) != d)
  }

  lemma LiveIsWalkable(s: State, kd: nat, live: set<nat>, d: nat)
    requires Inv(s, kd, live) && d in live
    ensures Walkable(s, d)
  {
    assert Has(s.mem, kd, live, Root(d));
    forall i: nat | Present(Entry(s.mem, d, i)) ensures Tab(s.mem, d, i) < |s.mem| && Tab(s.mem, d, i) != d {
      if i < USER_PDE {
        assert Entry(s.mem, d, i) == Entry(s.mem, kd, i);
        assert Has(s.mem, kd, live, KernelTable(i));
      } else {
        assert Has(s.mem, kd, live, Table(d, i));
      }
    }
  }

  /** A table linked into a free frame, or an entry stored in a table, leaves the
      directory walkable. */
  lemma FindPteWalkable(s: State, d: nat, vaddr: Word)
    requires Walkable(s, d)
    ensures var (s', pte) := FindPte(s, d, vaddr, true);
            Walkable(s', d) && |s'.mem| == |s.mem| && |s'.bits| == |s.bits| &&
            (pte.Ref? ==> pte.frame < |s'.mem| && pte.frame != d && pte.index < ENTRIES)
  {
    AllocPageFresh(s);
    var (s1, page) := AllocPage(s);
    var (s', pte) := FindPte(s, d, vaddr, true);
    if !Present(Entry(s.mem, d, PdeIndex(vaddr))) && page != 0 {
      assert forall i: nat :: Entry(s'.mem, d, i) ==
                              if i == PdeIndex(vaddr) then page + TABLE_FLAGS else Entry(s.mem, d, i);
    }
  }

  lemma StoreWalkable(s: State, d: nat, f: nat, i: nat, v: Word)
    requires Walkable(s, d) && f != d
    ensures Walkable(WithMem(s, Poke(s.mem, f, i, v)), d)
  {
    var s' := WithMem(s, Poke(s.mem, f, i, v));
    assert forall i: nat :: Entry(s'.mem, d, i) == Entry(s.mem, d, i);
  }

  lemma ZeroBytes(p: Page)
    requires forall o: nat :: o < PAGE_SIZE ==> PageByte(p, o) == 0
    ensures p == ZeroPage()
  {
    BytesMakePage(p, ZeroPage());
  }

  /** The addresses of one page go through one entry. */
  lemma SamePageIndex(i: nat, j: nat, a: nat)
    requires USER_PDE <= i < ENTRIES && j < ENTRIES
    requires PageTableVaddr(i, j) <= a < PageTableVaddr(i, j) + PAGE_SIZE
    ensures MEM_TASK_BASE <= a < 0x1_0000_0000 && PdeIndex(a) == i && PteIndex(a) == j
    ensures a % PAGE_SIZE == a - PageTableVaddr(i, j)
  {
  }

  /** In memory_copy_uvm the source page can be read while the new frame is filled. */
  lemma SourceReadable(s0: State, s: State, s1: State, s2: State, kd: nat, live: set<nat>,
                       src: nat, t: nat, i: nat, j: nat, x: nat, v: Word)
    requires CopyInv(s0, s, kd, live, src, t, i, j) && UserPte(s0.mem, src, i, j)
    requires Adding(s, s1, s2, s2, kd, live, t, i, j, x, v)
    ensures Readable(s2.mem, src, PageTableVaddr(i, j), PAGE_SIZE, x)
    ensures Pte(s2.mem, src, i, j) == Pte(s0.mem, src, i, j) && FrameOf(Pte(s0.mem, src, i, j)) < |s2.mem|
  {
    AddPage(s, s1, s2, s2, kd, live, t, i, j, x, v);
    GrownTrans(s0, s, s2, kd, live, t);
    OthersKept(s0, s2, kd, live, t, src);
    assert Has(s0.mem, kd, live, Leaf(src, i, j)) && Has(s0.mem, kd, live, Table(src, i));
    assert Has(s0.mem, kd, live, Root(src));
    VaddrRoundTrip(i, j);
    forall a: Word | PageTableVaddr(i, j) <= a < PageTableVaddr(i, j) + PAGE_SIZE
      ensures FrameAt(s2.mem, src, a) == FrameOf(Pte(s0.mem, src, i, j)) &&
              FrameOf(Entry(s2.mem, src, PdeIndex(a))) == Tab(s0.mem, src, i)
    {
      SamePageIndex(i, j, a);
    }
    assert Used(s0, FrameOf(Pte(s0.mem, src, i, j))) && Used(s0, Tab(s0.mem, src, i)) && Used(s0, src);
  }

  ghost predicate SourceReady(m: seq<Page>, src: nat, i: nat, j: nat, x: nat) {
    Readable(m, src, PageTableVaddr(i, j), PAGE_SIZE, x) && FrameOf(Pte(m, src, i, j)) < |m|
  }

  /** Mapping the frame does not panic and leaves the source page readable. */
  ghost predicate MapReady(s1: State, src: nat, t: nat, i: nat, j: nat, page: Word, e: Word)
    requires PageTableVaddr(i, j) < 0x1_0000_0000
  {
    var (s2, st) := MapPages(s1, t, PageTableVaddr(i, j), page, 1, Privilege(e));
    st != Panic && (st == Ok ==> SourceReady(s2.mem, src, i, j, page / PAGE_SIZE))
  }

  /** What the allocated frame and the mapping need, and what they leave readable. */
  lemma CopyPteFacts(s0: State, s: State, s1: State, kd: nat, live: set<nat>, src: nat, t: nat, i: nat, j: nat,
                     page: Word, e: Word)
    requires CopyInv(s0, s, kd, live, src, t, i, j) && UserPte(s0.mem, src, i, j) && e == Pte(s0.mem, src, i, j)
    requires page % PAGE_SIZE == 0 && Free(s, page / PAGE_SIZE)
    requires s1 == State(s.mem, s.bits[page / PAGE_SIZE - FIRST_FRAME := true], s1.cursor)
    requires PageTableVaddr(i, j) < 0x1_0000_0000
    ensures Walkable(s1, t)
    ensures MapReady(s1, src, t, i, j, page, e)
  {
    VaddrRoundTrip(i, j);
    var vaddr: Word, x := PageTableVaddr(i, j), page / PAGE_SIZE;
    assert page == x * PAGE_SIZE;
    assert !Before(i, j, i, j);
    MapNewFrame(s, s1, kd, live, t, vaddr, x, Privilege(e));
    MarkUsed(s, s1, kd, live, x);
    LiveIsWalkable(s1, kd, live, t);
    var (s2, st) := MapPages(s1, t, vaddr, x * PAGE_SIZE, 1, Privilege(e));
    if st == Ok {
      MappedIsAdding(s, s1, s2, kd, live, t, i, j, x, Pte(s2.mem, t, i, j));
      SourceReadable(s0, s, s1, s2, kd, live, src, t, i, j, x, Pte(s2.mem, t, i, j));
    }
  }

  /** The source's entries are read in place and are those of the start. */
  lemma SourceEntry(s0: State, s: State, kd: nat, live: set<nat>, src: nat, t: nat, i: nat)
    requires CopyInv(s0, s, kd, live, src, t, i, 0) && USER_PDE <= i < ENTRIES
    ensures src < |s.mem| && s.mem[src][i] == Entry(s0.mem, src, i)
    ensures Present(s.mem[src][i]) <==> UserPde(s0.mem, src, i)
  {
    OthersKept(s0, s, kd, live, t, src);
    assert Has(s.mem, kd, live, Root(src));
    assert Entry(s.mem, src, i) == Entry(s0.mem, src, i);
  }

  lemma EntryToCopy(s0: State, s: State, kd: nat, live: set<nat>, src: nat, t: nat, i: nat, j: nat)
    requires CopyInv(s0, s, kd, live, src, t, i, j) && UserPde(s0.mem, src, i) && j < ENTRIES
    ensures var table := Tab(s0.mem, src, i);
            table < |s.mem| && s.mem[table][j] == Pte(s0.mem, src, i, j) && table == Tab(s.mem, src, i)
  {
    OthersKept(s0, s, kd, live, t, src);
    assert Has(s0.mem, kd, live, Table(src, i));
    assert Entry(s.mem, src, i) == Entry(s0.mem, src, i);
    assert Pte(s.mem, src, i, j) == Pte(s0.mem, src, i, j);
  }

  lemma CopyTableStep(s: State, src: nat, t: nat, i: nat, table: nat, j: nat, s': State, st: Status)
    requires j < ENTRIES && Present(Entry(s.mem, table, j))
    requires (s', st) == CopyEntry(s, src, t, i, j, Entry(s.mem, table, j))
    ensures CopyTable(s, src, t, i, table, j) ==
            if st != Ok then (s', st) else CopyTable(s', src, t, i, table, j + 1)
  {
  }

  lemma CopyDirStep(s: State, src: nat, t: nat, i: nat, s': State, st: Status)
    requires i < ENTRIES && Present(Entry(s.mem, src, i))
    requires CopyTable(s, src, t, i, FrameOf(Entry(s.mem, src, i)), 0) == (s', st)
    ensures CopyDir(s, src, t, i) == if st != Ok then (s', st) else CopyDir(s', src, t, i + 1)
  {
  }

  /** A round that does not stop at the ASSERT keeps the invariant. */
  lemma StepKeepsInv(s: State, kd: nat, live: set<nat>, d: nat, vaddr: Word, privilege: nat)
    requires Inv(s, kd, live) && d in live && vaddr >= MEM_TASK_BASE && privilege < PAGE_SIZE
    requires AllocStep(s, d, vaddr, privilege).1 != Panic
    ensures Inv(AllocStep(s, d, vaddr, privilege).0, kd, live)
  {
    if PageMapped(s.mem, d, vaddr / PAGE_SIZE) {
      Demand.StepPanics(s, d, vaddr, privilege);
      Demand.AllocPageCounts(s);
      AllocPageFresh(s);
    } else {
      AllocStepAllocates(s, kd, live, d, vaddr, privilege);
    }
  }

  /** What the rest of a mapping leads to: the state, both addresses and the pages left. */
  type MapRest = (State, Word, Word, nat) -> (State, Status)

  ghost predicate IsMapRest(run: MapRest, d: nat, privilege: nat) {
    forall s, v, p, n {:trigger MapPages(s, d, v, p, n, privilege)} :: run(s, v, p, n) == MapPages(s, d, v, p, n, privilege)
  }

  function MapRestOf(d: nat, privilege: nat): (run: MapRest)
    ensures IsMapRest(run, d, privilege)
  {
    (s: State, v: Word, p: Word, n: nat) => MapPages(s, d, v, p, n, privilege)
  }

  lemma MapRestStep(run: MapRest, s: State, d: nat, vaddr: Word, paddr: Word, num: nat, privilege: nat)
    requires num > 0 && IsMapRest(run, d, privilege)
    ensures var (s1, pte) := FindPte(s, d, vaddr, true);
            run(s, vaddr, paddr, num) ==
            if pte.Null? then (s1, NoMemory)
            else if Present(Entry(s1.mem, pte.frame, pte.index)) then (s1, Panic)
            else run(WithMem(s1, Poke(s1.mem, pte.frame, pte.index, Truncate(PteValue(paddr, privilege)))),
                     Truncate(vaddr + PAGE_SIZE), Truncate(paddr + PAGE_SIZE), num - 1)
  {
    var (s1, pte) := FindPte(s, d, vaddr, true);
    assert run(s, vaddr, paddr, num) == MapPages(s, d, vaddr, paddr, num, privilege);
    if pte.Ref? {
      var s2 := WithMem(s1, Poke(s1.mem, pte.frame, pte.index, Truncate(PteValue(paddr, privilege))));
      assert run(s2, Truncate(vaddr + PAGE_SIZE), Truncate(paddr + PAGE_SIZE), num - 1) ==
             MapPages(s2, d, Truncate(vaddr + PAGE_SIZE), Truncate(paddr + PAGE_SIZE), num - 1, privilege);
    }
  }

  lemma MapRestNothing(run: MapRest, s: State, d: nat, vaddr: Word, paddr: Word, privilege: nat)
    requires IsMapRest(run, d, privilege)
    ensures run(s, vaddr, paddr, 0) == (s, Ok)
  {
    assert run(s, vaddr, paddr, 0) == MapPages(s, d, vaddr, paddr, 0, privilege);
  }

  /** What the rest of a request leads to: the state, the address and the pages left. */
  type Rest = (State, Word, nat) -> (State, Status)

  /** `run` is the loop of memory_alloc_for_page_dir. (Written so that a proof unfolds the
      loop only where it mentions it.) */
  ghost predicate IsRest(run: Rest, d: nat, privilege: nat) {
    forall s, v, n {:trigger Vm.AllocForDir(s, d, v, n, privilege)} :: run(s, v, n) == Vm.AllocForDir(s, d, v, n, privilege)
  }

  function RestOf(d: nat, privilege: nat): (run: Rest)
    ensures IsRest(run, d, privilege)
  {
    (s: State, v: Word, n: nat) => Vm.AllocForDir(s, d, v, n, privilege)
  }

  lemma RestStep(run: Rest, s: State, d: nat, vaddr: Word, pages: nat, privilege: nat)
    requires 0 < pages && IsRest(run, d, privilege)
    ensures var (s1, st) := AllocStep(s, d, vaddr, privilege);
            run(s, vaddr, pages) == if st != Ok then (s1, st) else run(s1, Truncate(vaddr + PAGE_SIZE), pages - 1)
  {
    var (s1, st) := AllocStep(s, d, vaddr, privilege);
    assert run(s, vaddr, pages) == Vm.AllocForDir(s, d, vaddr, pages, privilege);
    assert run(s1, Truncate(vaddr + PAGE_SIZE), pages - 1) == Vm.AllocForDir(s1, d, Truncate(vaddr + PAGE_SIZE), pages - 1, privilege);
  }

  lemma RestNothing(run: Rest, s: State, d: nat, vaddr: Word, privilege: nat)
    requires IsRest(run, d, privilege)
    ensures run(s, vaddr, 0) == (s, Ok)
  {
    assert run(s, vaddr, 0) == Vm.AllocForDir(s, d, vaddr, 0, privilege);
  }

  /** Copying a page byte by byte copies the page. */
  lemma PageCopied(m: seq<Page>, m': seq<Page>, src: nat, i: nat, j: nat, x: nat)
    requires USER_PDE <= i < ENTRIES && j < ENTRIES && FrameOf(Pte(m, src, i, j)) < |m|
    requires PageTableVaddr(i, j) + PAGE_SIZE <= 0x1_0000_0000
    requires ChunkWritten(m, m', x, 0, SourceBytes(m, src, PageTableVaddr(i, j), PAGE_SIZE))
    ensures m' == CopyPage(m, src, PageTableVaddr(i, j), x)
  {
    VaddrRoundTrip(i, j);
    var p, q := m'[x], m[FrameOf(Pte(m, src, i, j))];
    var bytes := SourceBytes(m, src, PageTableVaddr(i, j), PAGE_SIZE);
    forall o: nat | o < PAGE_SIZE ensures PageByte(p, o) == PageByte(q, o) {
      SamePageIndex(i, j, PageTableVaddr(i, j) + o);
      assert PageByte(p, o) == bytes[o];
    }
    BytesMakePage(p, q);
  }

  /** The loop of memory_copy_uvm_data has moved `done` bytes. */
  ghost predicate InTransfer(s: State, now: State, kd: nat, live: set<nat>, d: nat, dir: nat,
                             dest: Word, src: Word, size: nat, bytes: seq<Byte>, done: nat)
  {
    && Inv(s, kd, live) && Inv(now, kd, live) && d in live && now == WithMem(s, now.mem) && DataOnly(s.mem, now.mem, d)
    && CopyRequest(s.mem, d, dir, dest, src, size) && bytes == SourceBytes(s.mem, dir, src, size)
    && done <= size && Transferred(s.mem, now.mem, d, dest, bytes, done)
  }

  /** The destination still translates as at the start; memory_get_paddr gives 0
      exactly when the table is missing. */
  lemma Destination(s: State, now: State, kd: nat, live: set<nat>, d: nat, dir: nat,
                    dest: Word, src: Word, size: nat, bytes: seq<Byte>, done: nat)
    requires InTransfer(s, now, kd, live, d, dir, dest, src, size, bytes, done) && done < size
    ensures dest + done < 0x1_0000_0000 && TableFor(now.mem, d, dest + done) == TableFor(s.mem, d, dest + done)
    ensures TableFor(s.mem, d, dest + done) ==>
              Translate(now.mem, d, dest + done) == Translate(s.mem, d, dest + done) &&
              0 < Translate(s.mem, d, dest + done) < |s.mem|
  {
    var at: Word := dest + done;
    DataOnlyKeeps(s, now.mem, kd, live, d);
    if TableFor(s.mem, d, at) {
      assert Backed(s.mem, d, at);
      BackedInRam(s, kd, live, d, at);
    }
  }

  lemma NextChunk(s: State, now: State, kd: nat, live: set<nat>, d: nat, dir: nat,
                  dest: Word, src: Word, size: nat, bytes: seq<Byte>, done: nat, chunk: nat)
    requires InTransfer(s, now, kd, live, d, dir, dest, src, size, bytes, done)
    requires 0 < chunk && done + chunk <= size && dest + done < 0x1_0000_0000 && TableFor(s.mem, d, dest + done)
    ensures src + done + chunk <= 0x1_0000_0000
    ensures Readable(now.mem, dir, src + done, chunk, Translate(s.mem, d, dest + done))
    ensures SourceBytes(now.mem, dir, src + done, chunk) == bytes[done..done + chunk]
  {
    ChunkReadable(s.mem, now.mem, d, dir, dest, src, size, bytes, done, chunk);
    ChunkUnchanged(s.mem, now.mem, d, dir, dest, src, size, bytes, done, chunk);
  }

  lemma ChunkDone(s: State, m: seq<Page>, now: State, kd: nat, live: set<nat>, d: nat, dir: nat,
                  dest: Word, src: Word, size: nat, bytes: seq<Byte>, done: nat, chunk: nat)
    requires InTransfer(s, WithMem(s, m), kd, live, d, dir, dest, src, size, bytes, done) && now == WithMem(s, now.mem)
    requires 0 < chunk && done + chunk <= size && dest + done < 0x1_0000_0000
    requires TableFor(s.mem, d, dest + done) && InPage(dest + done, chunk)
    requires ChunkWritten(m, now.mem, Translate(s.mem, d, dest + done), (dest + done) % PAGE_SIZE, bytes[done..done + chunk])
    ensures InTransfer(s, now, kd, live, d, dir, dest, src, size, bytes, done + chunk)
  {
    TransferChunk(s, m, now.mem, kd, live, d, dest, bytes, done, bytes[done..done + chunk]);
    DataOnlyKeeps(s, now.mem, kd, live, d);
  }

  /** `paddr` is the physical address of `at`, or 0 without a table: what the proofs need
      of PhysAddr. */
  ghost predicate Leads(m: seq<Page>, d: nat, at: Word, paddr: Word) {
    if TableFor(m, d, at) then
      paddr / PAGE_SIZE == Translate(m, d, at) && paddr % PAGE_SIZE == at % PAGE_SIZE && (Translate(m, d, at) > 0 ==> paddr != 0)
    else paddr == 0
  }

  /** The next round of a transfer writes to the frame of the destination, and what it
      reads is the next part of the source. */
  lemma RoundReady(s: State, now: State, kd: nat, live: set<nat>, d: nat, dir: nat,
                   dest: Word, src: Word, size: nat, bytes: seq<Byte>, done: nat, at: Word, from: Word, paddr: Word)
    requires InTransfer(s, now, kd, live, d, dir, dest, src, size, bytes, done) && done < size
    requires at == dest + done && from == src + done && Leads(now.mem, d, at, paddr)
    ensures Aimed(s.mem, now.mem, d, dir, at, from, size - done, bytes, done, paddr)
    ensures RoundPossible(now.mem, paddr, dir, from, size - done)
  {
    Destination(s, now, kd, live, d, dir, dest, src, size, bytes, done);
    if TableFor(s.mem, d, at) {
      var chunk := ChunkFits(paddr, size - done);
      PartInBounds(s, now, kd, live, d, dir, dest, src, size, bytes, done);
      PartReady(s, now, kd, live, d, dir, dest, src, size, bytes, done, chunk, at, from);
      AimsAt(s.mem, now.mem, d, dir, at, from, size - done, bytes, done, paddr, chunk);
    } else {
      AimsNowhere(s.mem, now.mem, d, dir, at, from, size - done, bytes, done);
    }
  }

  lemma PartReady(s: State, now: State, kd: nat, live: set<nat>, d: nat, dir: nat,
                  dest: Word, src: Word, size: nat, bytes: seq<Byte>, done: nat, chunk: nat, at: Word, from: Word)
    requires InTransfer(s, now, kd, live, d, dir, dest, src, size, bytes, done) && at == dest + done && from == src + done
    requires 0 < chunk && done + chunk <= size && TableFor(s.mem, d, at)
    ensures Readable(now.mem, dir, from, chunk, Translate(s.mem, d, at))
    ensures from + chunk <= 0x1_0000_0000 && SourceBytes(now.mem, dir, from, chunk) == bytes[done..done + chunk]
  {
    NextChunk(s, now, kd, live, d, dir, dest, src, size, bytes, done, chunk);
  }

  lemma PartInBounds(s: State, now: State, kd: nat, live: set<nat>, d: nat, dir: nat,
                     dest: Word, src: Word, size: nat, bytes: seq<Byte>, done: nat)
    requires InTransfer(s, now, kd, live, d, dir, dest, src, size, bytes, done)
    ensures |bytes| == size && dest + size <= 0x1_0000_0000 && src + size <= 0x1_0000_0000
  {
  }

  lemma PhysParts(m: seq<Page>, d: nat, at: Word) returns (paddr: Word)
    ensures paddr == PhysAddr(m, d, at) && Leads(m, d, at, paddr)
  {
    paddr := PhysAddr(m, d, at);
    AddressParts(Translate(m, d, at), at);
  }

  lemma ChunkFits(paddr: Word, size: nat) returns (chunk: nat)
    requires size > 0
    ensures chunk == Chunk(paddr, size) && 0 < chunk <= size && paddr % PAGE_SIZE + chunk <= PAGE_SIZE
  {
    chunk := Chunk(paddr, size);
  }

  /** How far a transfer is, as a function of the state and the bytes moved. */
  type Progress = (State, nat) -> bool

  /** `moved` is the invariant of the transfer. (Written so that a proof unfolds it only
      where it mentions it.) */
  ghost predicate IsProgress(moved: Progress, s: State, kd: nat, live: set<nat>, d: nat, dir: nat,
                             dest: Word, src: Word, size: nat, bytes: seq<Byte>)
  {
    forall now, done {:trigger InTransfer(s, now, kd, live, d, dir, dest, src, size, bytes, done)} ::
      moved(now, done) == InTransfer(s, now, kd, live, d, dir, dest, src, size, bytes, done)
  }

  ghost function ProgressOf(s: State, kd: nat, live: set<nat>, d: nat, dir: nat, dest: Word, src: Word, size: nat, bytes: seq<Byte>)
    : (moved: Progress)
    ensures IsProgress(moved, s, kd, live, d, dir, dest, src, size, bytes)
  {
    (now: State, done: nat) => InTransfer(s, now, kd, live, d, dir, dest, src, size, bytes, done)
  }

  lemma RoundCanRun(moved: Progress, s: State, now: State, kd: nat, live: set<nat>, d: nat, dir: nat,
                    dest: Word, src: Word, size: nat, bytes: seq<Byte>, done: nat) returns (at: Word, from: Word, paddr: Word)
    requires IsProgress(moved, s, kd, live, d, dir, dest, src, size, bytes) && moved(now, done) && done < size
    ensures at == dest + done && from == src + done && Inv(now, kd, live) && d in live && now == WithMem(s, now.mem)
    ensures paddr == PhysAddr(now.mem, d, at) && Aimed(s.mem, now.mem, d, dir, at, from, size - done, bytes, done, paddr)
    ensures RoundPossible(now.mem, paddr, dir, from, size - done)
  {
    assert InTransfer(s, now, kd, live, d, dir, dest, src, size, bytes, done);
    InBounds(s, now, kd, live, d, dir, dest, src, size, bytes, done);
    at, from := dest + done, src + done;
    paddr := PhysParts(now.mem, d, at);
    RoundReady(s, now, kd, live, d, dir, dest, src, size, bytes, done, at, from, paddr);
  }

  lemma InBounds(s: State, now: State, kd: nat, live: set<nat>, d: nat, dir: nat,
                 dest: Word, src: Word, size: nat, bytes: seq<Byte>, done: nat)
    requires InTransfer(s, now, kd, live, d, dir, dest, src, size, bytes, done) && done < size
    ensures dest + done < 0x1_0000_0000 && src + done < 0x1_0000_0000
  {
  }

  /** After the round the transfer is that much further. */
  lemma TransferAdvances(s: State, m: seq<Page>, now: State, kd: nat, live: set<nat>, d: nat, dir: nat,
                         dest: Word, src: Word, size: nat, bytes: seq<Byte>, done: nat, at: Word, from: Word, paddr: Word, chunk: nat)
    requires InTransfer(s, WithMem(s, m), kd, live, d, dir, dest, src, size, bytes, done)
    requires now == WithMem(s, now.mem) && done < size && at == dest + done && from == src + done
    requires Aimed(s.mem, m, d, dir, at, from, size - done, bytes, done, paddr)
    requires RoundDone(m, now.mem, paddr, dir, from, size - done, chunk)
    ensures done + chunk <= size && (chunk == 0 ==> !TableFor(s.mem, d, at))
    ensures InTransfer(s, now, kd, live, d, dir, dest, src, size, bytes, done + chunk)
  {
    RoundWrites(s.mem, m, now.mem, d, dir, at, from, size - done, bytes, done, paddr, chunk);
    if chunk > 0 {
      ChunkDone(s, m, now, kd, live, d, dir, dest, src, size, bytes, done, chunk);
    }
  }

  lemma RoundAdvances(moved: Progress, s: State, m: seq<Page>, now: State, kd: nat, live: set<nat>, d: nat, dir: nat,
                      dest: Word, src: Word, size: nat, bytes: seq<Byte>, done: nat, at: Word, from: Word, paddr: Word, chunk: nat)
    requires IsProgress(moved, s, kd, live, d, dir, dest, src, size, bytes) && moved(WithMem(s, m), done)
    requires now == WithMem(s, now.mem) && done < size && at == dest + done && from == src + done
    requires Aimed(s.mem, m, d, dir, at, from, size - done, bytes, done, paddr)
    requires RoundDone(m, now.mem, paddr, dir, from, size - done, chunk)
    ensures done + chunk <= size && (chunk == 0 ==> !TableFor(s.mem, d, at)) && moved(now, done + chunk)
  {
    assert InTransfer(s, WithMem(s, m), kd, live, d, dir, dest, src, size, bytes, done);
    TransferAdvances(s, m, now, kd, live, d, dir, dest, src, size, bytes, done, at, from, paddr, chunk);
    assert InTransfer(s, now, kd, live, d, dir, dest, src, size, bytes, done + chunk);
  }

  lemma StoppedShort(moved: Progress, s: State, now: State, kd: nat, live: set<nat>, d: nat, dir: nat,
                     dest: Word, src: Word, size: nat, bytes: seq<Byte>, done: nat)
    requires IsProgress(moved, s, kd, live, d, dir, dest, src, size, bytes) && moved(now, done)
    requires done < size && dest + done < 0x1_0000_0000 && !TableFor(s.mem, d, dest + done)
    ensures InTransfer(s, now, kd, live, d, dir, dest, src, size, bytes, done)
  {
    assert InTransfer(s, now, kd, live, d, dir, dest, src, size, bytes, done) == moved(now, done);
  }

  /** Frame and offset of a physical address. */
  lemma AddressParts(f: nat, at: Word)
    ensures (f * PAGE_SIZE + at % PAGE_SIZE) / PAGE_SIZE == f
    ensures (f * PAGE_SIZE + at % PAGE_SIZE) % PAGE_SIZE == at % PAGE_SIZE
  {
  }

  /** What sys_sbrk asks of the allocator is user memory, at least one page. */
  lemma HeapRequest(s: State, d: nat, heapEnd: Word, incr: nat)
    requires MEM_TASK_BASE <= heapEnd && heapEnd + incr <= 0xFFFF_F000 && !Heap.InsidePage(heapEnd, incr)
    ensures MEM_TASK_BASE <= Heap.Start(heapEnd) < 0x1_0000_0000 && heapEnd + incr < 0x1_0000_0000
    ensures Truncate(heapEnd + incr) == heapEnd + incr && Truncate(Heap.Start(heapEnd)) == Heap.Start(heapEnd)
    ensures var size := heapEnd + incr - Heap.Start(heapEnd);
            0 < size && Truncate(size) == size && Heap.Start(heapEnd) / PAGE_SIZE + Heap.PageUp(size) <= 0x10_0000 &&
            Heap.Sbrk(s, d, heapEnd, incr) ==
              Heap.AllocBrk(s, d, heapEnd, heapEnd + incr, Heap.Start(heapEnd), Heap.PageUp(size))
  {
    RequestRange(heapEnd, incr);
    Heap.SbrkUnfolds(s, d, heapEnd, incr);
  }

  lemma SbrkInside(s: State, d: nat, heapEnd: Word, incr: nat)
    requires heapEnd + incr <= 0xFFFF_F000
    ensures Heap.InsidePage(heapEnd, incr) ==> Heap.Sbrk(s, d, heapEnd, incr) == Heap.Brk(s, heapEnd + incr, heapEnd, Ok)
    ensures Truncate(heapEnd + incr) == heapEnd + incr
  {
  }

  lemma RequestRange(heapEnd: Word, incr: nat)
    requires MEM_TASK_BASE <= heapEnd && heapEnd + incr <= 0xFFFF_F000 && !Heap.InsidePage(heapEnd, incr)
    ensures MEM_TASK_BASE <= Heap.Start(heapEnd) < heapEnd + incr && Truncate(heapEnd + incr) == heapEnd + incr
    ensures Heap.Start(heapEnd) / PAGE_SIZE + Heap.PageUp(heapEnd + incr - Heap.Start(heapEnd)) <= 0x10_0000
  {
    Heap.SbrkPages(heapEnd, incr);
  }

  lemma BrkState(s: State, d: nat, heapEnd: Word, end: Word, start: Word, pages: nat, b: Heap.Brk)
    requires b == Heap.AllocBrk(s, d, heapEnd, end, start, pages)
    ensures (b.s, b.st) == Vm.AllocForDir(s, d, start, pages, Heap.HEAP_FLAGS)
  {
  }

  /** The break of a task's heap. */
  class Task {
    var heapEnd: Word

    constructor (heapEnd: Word)
      ensures this.heapEnd == heapEnd
    {
      this.heapEnd := heapEnd;
    }
  }

  class Memory {
    /** All of RAM, frame by frame. */
    const mem: array<Page>
    const bitmap: Bitmaps.Bitmap
    const cursor: Bitmaps.Cursor
    /** The frame of the static array kernel_page_dir. */
    const kernelDir: nat
    /** The page directory register. */
    var cr3: Word
    /** The directories in use. */
    ghost var live: set<nat>

    ghost predicate Wired() {
      && bitmap.Valid() && mem.Length == FIRST_FRAME + bitmap.bits && mem.Length <= MAX_FRAMES
      && mem as object != bitmap.bitArr
    }

    ghost function View(): (s: State)
      reads mem, bitmap.bitArr, cursor
      requires Wired()
      ensures Shape(s)
    {
      State(mem[..], bitmap.Bits(), cursor.lastAllocIndex)
    }

    ghost predicate Valid()
      reads this, mem, bitmap.bitArr, cursor
    {
      Wired() && Inv(View(), kernelDir, live)
    }

    constructor (mem: array<Page>, bitmap: Bitmaps.Bitmap, cursor: Bitmaps.Cursor, kernelDir: nat)
      requires bitmap.Valid() && mem.Length == FIRST_FRAME + bitmap.bits && mem.Length <= MAX_FRAMES
      requires mem as object != bitmap.bitArr
      requires Inv(State(mem[..], bitmap.Bits(), cursor.lastAllocIndex), kernelDir, {})
      ensures Valid() && live == {} && this.mem == mem && this.bitmap == bitmap && this.cursor == cursor
      ensures this.kernelDir == kernelDir && cr3 == kernelDir % MAX_FRAMES * PAGE_SIZE
    {
      this.mem, this.bitmap, this.cursor, this.kernelDir := mem, bitmap, cursor, kernelDir;
      cr3 := kernelDir % MAX_FRAMES * PAGE_SIZE;
      live := {};
    }

    // ---------- The allocator ----------

    method AllocPage() returns (addr: Word)
      requires Wired()
      modifies bitmap.bitArr, cursor
      ensures (View(), addr) == Vm.AllocPage(old(View()))
    {
      AllocPageFresh(View());
      var index := bitmap.AllocMultiBit(cursor, false, 1);
      addr := 0;
      if index >= 0 {
        addr := MEM_EXT_START + index * PAGE_SIZE;
      }
    }

    method FreePage(addr: Word)
      requires Wired()
      modifies bitmap.bitArr
      ensures View() == Vm.FreePage(old(View()), addr)
    {
      var index := Truncate(addr - MEM_EXT_START) / PAGE_SIZE;
      bitmap.SetBit(index, 1, false);
    }

    // ---------- kernel_memset and kernel_memcpy on physical frames ----------

    /** kernel_memset inside one frame. */
    method KernelMemset(dest: Word, data: Byte, size: nat)
      requires dest != 0 && dest / PAGE_SIZE < mem.Length && dest % PAGE_SIZE + size <= PAGE_SIZE
      modifies mem
      ensures forall f :: 0 <= f < mem.Length && f != dest / PAGE_SIZE ==> mem[f] == old(mem[f])
      ensures forall o: nat :: o < PAGE_SIZE ==>
                PageByte(mem[dest / PAGE_SIZE], o) ==
                if dest % PAGE_SIZE <= o < dest % PAGE_SIZE + size then data else old(PageByte(mem[dest / PAGE_SIZE], o))
    {
      var f, off := dest / PAGE_SIZE, dest % PAGE_SIZE;
      var n := 0;
      while n < size
        invariant n <= size
        invariant forall g :: 0 <= g < mem.Length && g != f ==> mem[g] == old(mem[g])
        invariant forall o: nat :: o < PAGE_SIZE ==>
                    PageByte(mem[f], o) == if off <= o < off + n then data else old(PageByte(mem[f], o))
      {
        mem[f] := PutPageByte(mem[f], off + n, data);
        n := n + 1;
      }
    }

    /** kernel_memcpy from virtual memory into one physical frame. */
    method KernelMemcpy(dest: Word, src: Word, size: nat)
      requires dest / PAGE_SIZE < mem.Length && dest % PAGE_SIZE + size <= PAGE_SIZE
      requires dest != 0 && src != 0
      requires Readable(mem[..], cr3 / PAGE_SIZE, src, size, dest / PAGE_SIZE)
      modifies mem
      ensures ChunkWritten(old(mem[..]), mem[..], dest / PAGE_SIZE, dest % PAGE_SIZE,
                           SourceBytes(old(mem[..]), cr3 / PAGE_SIZE, src, size))
    {
      ghost var m := mem[..];
      ghost var bytes := SourceBytes(m, cr3 / PAGE_SIZE, src, size);
      var f, off := dest / PAGE_SIZE, dest % PAGE_SIZE;
      var n := 0;
      while n < size
        invariant n <= size
        invariant ChunkWritten(m, mem[..], f, off, bytes[..n])
      {
        CopyByte(m, bytes, f, off, n, src, size);
        n := n + 1;
      }
      assert bytes[..size] == bytes;
    }

    /** The next byte of the source follows those already written. */
    method CopyByte(ghost m: seq<Page>, ghost bytes: seq<Byte>, f: nat, off: nat, n: nat, src: Word, ghost size: nat)
      requires n < size && f < mem.Length && off + size <= PAGE_SIZE && Readable(m, cr3 / PAGE_SIZE, src, size, f)
      requires bytes == SourceBytes(m, cr3 / PAGE_SIZE, src, size) && ChunkWritten(m, mem[..], f, off, bytes[..n])
      modifies mem
      ensures ChunkWritten(m, mem[..], f, off, bytes[..n + 1])
    {
      ReadUnchanged(m, mem[..], cr3 / PAGE_SIZE, src, size, f, src + n);
      ExtendChunk(m, mem[..], f, off, bytes, n);
      MoveByte(f, off + n, src + n);
    }

    method MoveByte(f: nat, o: nat, a: Word)
      requires f < mem.Length && o < PAGE_SIZE && FrameAt(mem[..], cr3 / PAGE_SIZE, a) < mem.Length
      modifies mem
      ensures mem[..] == old(mem[..])[f := PutPageByte(old(mem[f]), o, VirtByte(old(mem[..]), cr3 / PAGE_SIZE, a))]
    {
      var b := ReadByte(a);
      mem[f] := PutPageByte(mem[f], o, b);
    }

    /** One byte as the processor reads it. */
    method ReadByte(a: Word) returns (b: Byte)
      requires FrameAt(mem[..], cr3 / PAGE_SIZE, a) < mem.Length
      ensures b == VirtByte(mem[..], cr3 / PAGE_SIZE, a)
    {
      var f := a / PAGE_SIZE;
      if a >= MEM_TASK_BASE {
        var dir := cr3 / PAGE_SIZE;
        var pde: Word := if dir < mem.Length then mem[dir][PdeIndex(a)] else 0;
        var pte: Word := if FrameOf(pde) < mem.Length then mem[FrameOf(pde)][PteIndex(a)] else 0;
        f := FrameOf(pte);
      }
      b := PageByte(mem[f], a % PAGE_SIZE);
    }

    // ---------- Page tables ----------

    method FindPte(dir: nat, vaddr: Word, alloc: bool) returns (pte: PtePtr)
      requires Wired() && Walkable(View(), dir)
      modifies mem, bitmap.bitArr, cursor
      ensures (View(), pte) == Vm.FindPte(old(View()), dir, vaddr, alloc)
    {
      var e := mem[dir][PdeIndex(vaddr)];
      if Present(e) {
        return Ref(FrameOf(e), PteIndex(vaddr));
      }
      if !alloc {
        return Null;
      }
      AllocPageFresh(View());
      var page := AllocPage();
      if page == 0 {
        return Null;
      }
      LinkTable(dir, PdeIndex(vaddr), page);
      pte := Ref(page / PAGE_SIZE, PteIndex(vaddr));
    }

    /** A new table in slot `i` of the directory, cleared. */
    method LinkTable(dir: nat, i: nat, page: Word)
      requires dir < mem.Length && i < ENTRIES && page / PAGE_SIZE < mem.Length && page / PAGE_SIZE != dir
      requires page != 0 && page % PAGE_SIZE == 0 && TableValue(page) < 0x1_0000_0000
      modifies mem
      ensures mem[..] == SetPage(Poke(old(mem[..]), dir, i, TableValue(page)), page / PAGE_SIZE, ZeroPage())
    {
      mem[dir] := mem[dir][i := TableValue(page)];
      KernelMemset(page, 0, PAGE_SIZE);
      ZeroBytes(mem[page / PAGE_SIZE]);
    }

    method StoreEntry(ghost dir: nat, f: nat, i: nat, v: Word)
      requires Wired() && Walkable(View(), dir) && f != dir && f < mem.Length && i < ENTRIES
      modifies mem
      ensures View() == WithMem(old(View()), Poke(old(View()).mem, f, i, v)) && Walkable(View(), dir)
    {
      ghost var s := View();
      StoreWalkable(s, dir, f, i, v);
      mem[f] := mem[f][i := v];
      assert View().mem == Poke(s.mem, f, i, v);
    }

    /** memory_create_map; its ASSERT that no entry is present is the precondition. */
    method CreateMap(dir: nat, vaddr: Word, paddr: Word, num: nat, privilege: nat) returns (err: int)
      requires Wired() && Walkable(View(), dir)
      requires MapPages(View(), dir, vaddr, paddr, num, privilege).1 != Panic
      modifies mem, bitmap.bitArr, cursor
      ensures View() == MapPages(old(View()), dir, vaddr, paddr, num, privilege).0
      ensures err == if MapPages(old(View()), dir, vaddr, paddr, num, privilege).1 == Ok then 0 else -1
      ensures Walkable(View(), dir)
    {
      ghost var goal := MapPages(View(), dir, vaddr, paddr, num, privilege);
      err := MapLoop(MapRestOf(dir, privilege), dir, vaddr, paddr, num, privilege, goal);
    }

    /** The loop of memory_create_map. */
    method MapLoop(ghost run: MapRest, dir: nat, vaddr: Word, paddr: Word, num: nat, privilege: nat, ghost goal: (State, Status))
      returns (err: int)
      requires Wired() && Walkable(View(), dir) && IsMapRest(run, dir, privilege)
      requires run(View(), vaddr, paddr, num) == goal && goal.1 != Panic
      modifies mem, bitmap.bitArr, cursor
      ensures View() == goal.0 && err == (if goal.1 == Ok then 0 else -1) && Walkable(View(), dir)
    {
      var v: Word, p: Word := vaddr, paddr;
      for i := 0 to num
        invariant Wired() && Walkable(View(), dir) && run(View(), v, p, num - i) == goal
      {
        FindPteWalkable(View(), dir, v);
        MapRestStep(run, View(), dir, v, p, num - i, privilege);
        var pte := FindPte(dir, v, true);
        if pte.Null? {
          return -1;
        }
        assert !Present(mem[pte.frame][pte.index]);
        StoreEntry(dir, pte.frame, pte.index, Truncate(PteValue(p, privilege)));
        v := Truncate(v + PAGE_SIZE);
        p := Truncate(p + PAGE_SIZE);
      }
      MapRestNothing(run, View(), dir, v, p, privilege);
      return 0;
    }

    // ---------- Address spaces ----------

    /** The loop of memory_create_uvm over the kernel half. */
    method CopyKernelHalf(f: nat)
      requires Wired() && f < mem.Length && kernelDir < mem.Length && f != kernelDir && mem[f] == ZeroPage()
      modifies mem
      ensures View() == WithMem(old(View()), SetPage(old(View()).mem, f, FreshDir(old(View()).mem, kernelDir)))
    {
      ghost var m := mem[..];
      for i := 0 to USER_PDE
        invariant forall g :: 0 <= g < mem.Length && g != f ==> mem[g] == m[g]
        invariant forall k :: 0 <= k < ENTRIES ==> mem[f][k] == if k < i then m[kernelDir][k] else 0
      {
        mem[f] := mem[f][i := mem[kernelDir][i]];
      }
      assert mem[f] == FreshDir(m, kernelDir);
      assert mem[..] == SetPage(m, f, FreshDir(m, kernelDir));
    }

    method CreateUvm() returns (page: Word)
      requires Valid()
      modifies this`live, mem, bitmap.bitArr, cursor
      ensures (View(), page) == Vm.CreateUvm(old(View()), kernelDir)
      ensures Valid() && live == if page == 0 then old(live) else old(live) + {page / PAGE_SIZE}
    {
      ghost var s := View();
      CreateUvmCreates(s, kernelDir, live);
      AllocPageFresh(s);
      page := AllocPage();
      if page != 0 {
        ghost var s1 := View();
        KernelMemset(page, 0, PAGE_SIZE);
        ZeroBytes(mem[page / PAGE_SIZE]);
        ghost var s2 := View();
        CopyKernelHalf(page / PAGE_SIZE);
        assert FreshDir(s2.mem, kernelDir) == FreshDir(s1.mem, kernelDir);
        assert View().mem == SetPage(s1.mem, page / PAGE_SIZE, FreshDir(s1.mem, kernelDir));
        live := live + {page / PAGE_SIZE};
      }
    }

    /** One round of memory_alloc_for_page_dir. */
    method AllocOne(d: nat, vaddr: Word, privilege: nat) returns (err: int)
      requires Valid() && d in live && vaddr >= MEM_TASK_BASE && privilege < PAGE_SIZE
      requires AllocStep(View(), d, vaddr, privilege).1 != Panic
      modifies mem, bitmap.bitArr, cursor
      ensures Wired() && View() == AllocStep(old(View()), d, vaddr, privilege).0
      ensures err == if AllocStep(old(View()), d, vaddr, privilege).1 == Ok then 0 else -1
    {
      ghost var s := View();
      var page := AllocPage();
      if page == 0 {
        return -1;
      }
      assert Walkable(View(), d) by {
        AllocPageFresh(s);
        MarkUsed(s, View(), kernelDir, live, page / PAGE_SIZE);
        LiveIsWalkable(View(), kernelDir, live, d);
      }
      assert Truncate(page) == page;
      err := CreateMap(d, vaddr, page, 1, privilege);
    }

    /** The loop of memory_alloc_for_page_dir stands at page `n` of user space, with `left`
        pages to go, and will end in `goal`, without a stop at the ASSERT. */
    ghost predicate Serving(run: Rest, d: nat, v: Word, n: nat, left: nat, privilege: nat, goal: (State, Status))
      reads this, mem, bitmap.bitArr, cursor
    {
      && Valid() && d in live && privilege < PAGE_SIZE && goal.1 != Panic
      && run(View(), v, left) == goal
      && (left > 0 ==> MEM_TASK_BASE <= v && v / PAGE_SIZE == n && n + left <= 0x10_0000)
    }

    /** One turn of the loop. */
    method AllocNext(ghost run: Rest, d: nat, v: Word, ghost n: nat, ghost left: nat, privilege: nat, ghost goal: (State, Status))
      returns (err: int, next: Word)
      requires left > 0 && Serving(run, d, v, n, left, privilege, goal) && IsRest(run, d, privilege)
      modifies mem, bitmap.bitArr, cursor
      ensures if err < 0 then Valid() && View() == goal.0 else Serving(run, d, next, n + 1, left - 1, privilege, goal)
    {
      ghost var turned := Demand.NextPage(v, n);
      RestStep(run, View(), d, v, left, privilege);
      StepKeepsInv(View(), kernelDir, live, d, v, privilege);
      err := AllocOne(d, v, privilege);
      next := Truncate(v + PAGE_SIZE);
    }

    /** memory_alloc_for_page_dir. It returns 0 even when it stops early; the ASSERT in
        memory_create_map is the precondition. */
    method AllocForDir(pageDir: Word, vaddr: Word, size: nat, privilege: nat) returns (err: int)
      requires Valid() && pageDir / PAGE_SIZE in live && vaddr >= MEM_TASK_BASE && privilege < PAGE_SIZE
      requires vaddr / PAGE_SIZE + Heap.PageUp(size) <= 0x10_0000
      requires Vm.AllocForDir(View(), pageDir / PAGE_SIZE, vaddr, Heap.PageUp(size), privilege).1 != Panic
      modifies mem, bitmap.bitArr, cursor
      ensures err == 0 && Valid()
      ensures View() == Vm.AllocForDir(old(View()), pageDir / PAGE_SIZE, vaddr, Heap.PageUp(size), privilege).0
    {
      var pages := (size + PAGE_SIZE - 1) / PAGE_SIZE;
      ghost var goal := Vm.AllocForDir(View(), pageDir / PAGE_SIZE, vaddr, pages, privilege);
      AllocPages(RestOf(pageDir / PAGE_SIZE, privilege), pageDir / PAGE_SIZE, vaddr, vaddr / PAGE_SIZE, pages, privilege, goal);
      return 0;
    }

    /** The loop of memory_alloc_for_page_dir, from page `first` on. */
    method AllocPages(ghost run: Rest, d: nat, vaddr: Word, ghost first: nat, pages: nat, privilege: nat, ghost goal: (State, Status))
      requires Serving(run, d, vaddr, first, pages, privilege, goal) && IsRest(run, d, privilege)
      modifies mem, bitmap.bitArr, cursor
      ensures Valid() && View() == goal.0
    {
      var v: Word := vaddr;
      for i := 0 to pages
        invariant Serving(run, d, v, first + i, pages - i, privilege, goal)
      {
        var e, next := AllocNext(run, d, v, first + i, pages - i, privilege, goal);
        if e < 0 {
          return;
        }
        v := next;
      }
      RestNothing(run, View(), d, v, privilege);
    }

    /** The inner loop of memory_destroy_uvm. */
    method DestroyPages(table: nat)
      requires Wired() && table < mem.Length
      modifies bitmap.bitArr
      ensures View() == DestroyTable(old(View()), table, 0)
    {
      ghost var s := View();
      for j := 0 to ENTRIES
        invariant View().mem == s.mem
        invariant DestroyTable(View(), table, j) == DestroyTable(s, table, 0)
      {
        var pte := mem[table][j];
        assert pte == Entry(View().mem, table, j);
        if Present(pte) {
          FreePage(PdePaddr(pte));
        }
      }
    }

    /** The outer loop of memory_destroy_uvm. */
    method DestroyTables(d: nat)
      requires Wired() && Walkable(View(), d)
      modifies bitmap.bitArr
      ensures View() == DestroyDir(old(View()), d, USER_PDE)
    {
      ghost var s := View();
      for i := USER_PDE to ENTRIES
        invariant View().mem == s.mem
        invariant DestroyDir(View(), d, i) == DestroyDir(s, d, USER_PDE)
      {
        var pde := mem[d][i];
        assert pde == Entry(s.mem, d, i);
        if Present(pde) {
          assert Tab(s.mem, d, i) < |s.mem|;
          TableKeepsMemory(View(), FrameOf(pde), 0);
          DestroyPages(FrameOf(pde));
          FreePage(PdePaddr(pde));
        }
      }
    }

    lemma {:induction false} TableKeepsMemory(s: State, table: nat, j: nat)
      ensures DestroyTable(s, table, j).mem == s.mem
      decreases ENTRIES - j
    {
      if j < ENTRIES {
        var e := Entry(s.mem, table, j);
        TableKeepsMemory(if Present(e) then Vm.FreePage(s, PdePaddr(e)) else s, table, j + 1);
      }
    }

    /** memory_destroy_uvm. */
    method DestroyUvm(pageDir: Word)
      requires Valid() && pageDir / PAGE_SIZE in live && pageDir % PAGE_SIZE == 0
      modifies this`live, bitmap.bitArr
      ensures View() == Destroy(old(View()), pageDir / PAGE_SIZE)
      ensures Valid() && live == old(live) - {pageDir / PAGE_SIZE}
    {
      ghost var d := pageDir / PAGE_SIZE;
      DestroyFreesOwned(View(), kernelDir, live, d);
      LiveIsWalkable(View(), kernelDir, live, d);
      DestroyTables(pageDir / PAGE_SIZE);
      assert Truncate(d * PAGE_SIZE) == pageDir;
      FreePage(pageDir);
      live := live - {d};
    }

    // ---------- memory_copy_uvm ----------

    /** One present entry of the copy; `live` already holds the new directory. */
    method CopyPte(ghost s0: State, src: nat, t: nat, i: nat, j: nat, pte: Word) returns (err: int)
      requires Wired() && cr3 / PAGE_SIZE == src
      requires CopyInv(s0, View(), kernelDir, live, src, t, i, j)
      requires UserPte(s0.mem, src, i, j) && pte == Pte(s0.mem, src, i, j)
      modifies mem, bitmap.bitArr, cursor
      ensures View() == CopyEntry(old(View()), src, t, i, j, pte).0
      ensures err == if CopyEntry(old(View()), src, t, i, j, pte).1 == Ok then 0 else -1
    {
      ghost var s := View();
      CopyEntryAllocates(s, src, t, i, j, pte);
      var page := AllocPage();
      if page == 0 {
        return -1;
      }
      CopyPteFacts(s0, s, View(), kernelDir, live, src, t, i, j, page, pte);
      err := CopyAt(src, t, i, j, pte, page);
    }

    /** Map the new frame and fill it. */
    method CopyAt(src: nat, t: nat, i: nat, j: nat, pte: Word, page: Word) returns (err: int)
      requires Wired() && cr3 / PAGE_SIZE == src && Walkable(View(), t)
      requires USER_PDE <= i < ENTRIES && j < ENTRIES && PageTableVaddr(i, j) < 0x1_0000_0000
      requires page != 0 && page % PAGE_SIZE == 0 && page / PAGE_SIZE < mem.Length
      requires MapReady(View(), src, t, i, j, page, pte)
      modifies mem, bitmap.bitArr, cursor
      ensures View() == CopyInto(old(View()), src, t, PageTableVaddr(i, j), pte, page).0
      ensures err == if CopyInto(old(View()), src, t, PageTableVaddr(i, j), pte, page).1 == Ok then 0 else -1
    {
      assert Truncate(page) == page;
      err := CreateMap(t, PageTableVaddr(i, j), page, 1, Privilege(pte));
      if err < 0 {
        return -1;
      }
      FillPage(src, i, j, page);
    }

    method FillPage(src: nat, i: nat, j: nat, page: Word)
      requires Wired() && cr3 / PAGE_SIZE == src && page != 0 && page % PAGE_SIZE == 0 && page / PAGE_SIZE < mem.Length
      requires USER_PDE <= i < ENTRIES && j < ENTRIES && PageTableVaddr(i, j) < 0x1_0000_0000
      requires SourceReady(View().mem, src, i, j, page / PAGE_SIZE)
      modifies mem
      ensures View() == WithMem(old(View()), CopyPage(old(View()).mem, src, PageTableVaddr(i, j), page / PAGE_SIZE))
    {
      ghost var m := mem[..];
      VaddrRoundTrip(i, j);
      KernelMemcpy(page, PageTableVaddr(i, j), PAGE_SIZE);
      PageCopied(m, mem[..], src, i, j, page / PAGE_SIZE);
    }

    /** One entry, present or not, under the loop invariant. */
    method CopyNext(ghost s0: State, src: nat, t: nat, i: nat, j: nat, table: nat) returns (err: int)
      requires Wired() && cr3 / PAGE_SIZE == src && j < ENTRIES
      requires CopyInv(s0, View(), kernelDir, live, src, t, i, j)
      requires UserPde(s0.mem, src, i) && table == Tab(s0.mem, src, i)
      modifies mem, bitmap.bitArr, cursor
      ensures Inv(View(), kernelDir, live)
      ensures err == 0 ==> CopyInv(s0, View(), kernelDir, live, src, t, i, j + 1)
      ensures err == 0 ==> CopyTable(View(), src, t, i, table, j + 1) == CopyTable(old(View()), src, t, i, table, j)
      ensures err != 0 ==> err == -1 && CopyTable(old(View()), src, t, i, table, j) == (View(), NoMemory)
    {
      ghost var s := View();
      EntryToCopy(s0, s, kernelDir, live, src, t, i, j);
      var pte := mem[table][j];
      if !Present(pte) {
        SkipEntry(s0, s, kernelDir, live, src, t, i, j);
        return 0;
      }
      ghost var s', st := CopyEntryStep(s0, s, kernelDir, live, src, t, i, j);
      CopyTableStep(s, src, t, i, table, j, s', st);
      err := CopyPte(s0, src, t, i, j, pte);
    }

    method CopyTableLoop(ghost s0: State, src: nat, t: nat, i: nat, table: nat) returns (err: int)
      requires Wired() && cr3 / PAGE_SIZE == src
      requires CopyInv(s0, View(), kernelDir, live, src, t, i, 0)
      requires UserPde(s0.mem, src, i) && table == Tab(s0.mem, src, i)
      modifies mem, bitmap.bitArr, cursor
      ensures Inv(View(), kernelDir, live)
      ensures err == 0 ==> CopyInv(s0, View(), kernelDir, live, src, t, i + 1, 0)
      ensures err == 0 || err == -1
      ensures CopyTable(old(View()), src, t, i, table, 0) == (View(), if err == 0 then Ok else NoMemory)
    {
      for j := 0 to ENTRIES
        invariant CopyInv(s0, View(), kernelDir, live, src, t, i, j)
        invariant CopyTable(View(), src, t, i, table, j) == CopyTable(old(View()), src, t, i, table, 0)
      {
        err := CopyNext(s0, src, t, i, j, table);
        if err < 0 {
          return -1;
        }
      }
      NextTable(s0, View(), kernelDir, live, src, t, i, ENTRIES);
      return 0;
    }

    method CopyDirNext(ghost s0: State, src: nat, t: nat, i: nat) returns (err: int)
      requires Wired() && cr3 / PAGE_SIZE == src && USER_PDE <= i < ENTRIES
      requires CopyInv(s0, View(), kernelDir, live, src, t, i, 0)
      modifies mem, bitmap.bitArr, cursor
      ensures Inv(View(), kernelDir, live)
      ensures err == 0 ==> CopyInv(s0, View(), kernelDir, live, src, t, i + 1, 0)
      ensures err == 0 ==> CopyDir(View(), src, t, i + 1) == CopyDir(old(View()), src, t, i)
      ensures err != 0 ==> err == -1 && CopyDir(old(View()), src, t, i) == (View(), NoMemory)
    {
      ghost var s := View();
      SourceEntry(s0, s, kernelDir, live, src, t, i);
      var pde := mem[src][i];
      if !Present(pde) {
        NextTable(s0, s, kernelDir, live, src, t, i, 0);
        return 0;
      }
      err := CopyTableLoop(s0, src, t, i, FrameOf(pde));
      CopyDirStep(s, src, t, i, View(), if err == 0 then Ok else NoMemory);
      if err < 0 {
        return -1;
      }
    }

    method CopyDirLoop(ghost s0: State, src: nat, t: nat) returns (err: int)
      requires Wired() && cr3 / PAGE_SIZE == src && View() == s0
      requires CopyInv(s0, View(), kernelDir, live, src, t, USER_PDE, 0)
      modifies mem, bitmap.bitArr, cursor
      ensures Inv(View(), kernelDir, live)
      ensures err == 0 || err == -1
      ensures CopyDir(old(View()), src, t, USER_PDE) == (View(), if err == 0 then Ok else NoMemory)
    {
      for i := USER_PDE to ENTRIES
        invariant CopyInv(s0, View(), kernelDir, live, src, t, i, 0)
        invariant CopyDir(View(), src, t, i) == CopyDir(s0, src, t, USER_PDE)
      {
        err := CopyDirNext(s0, src, t, i);
        if err < 0 {
          return -1;
        }
      }
      return 0;
    }

    /** memory_copy_uvm of the current address space. */
    method CopyUvm(pageDir: Word) returns (target: Word)
      requires Valid() && pageDir == cr3 && pageDir / PAGE_SIZE in live
      modifies this`live, mem, bitmap.bitArr, cursor
      ensures var r := Vm.CopyUvm(old(View()), kernelDir, pageDir / PAGE_SIZE);
              View() == r.0 && target == r.2
      ensures Valid() && live == if target == 0 then old(live) else old(live) + {target / PAGE_SIZE}
    {
      ghost var s := View();
      CreateUvmCreates(s, kernelDir, live);
      target := CreateUvm();
      if target == 0 {
        return 0;
      }
      CreatedStartsCopy(s, View(), kernelDir, old(live), pageDir / PAGE_SIZE, target / PAGE_SIZE);
      var err := CopyDirLoop(View(), pageDir / PAGE_SIZE, target / PAGE_SIZE);
      if err < 0 {
        DestroyUvm(target);
        assert live == old(live);
        return 0;
      }
    }

    // ---------- memory_copy_uvm_data ----------

    /** memory_get_paddr: 0 without a table; the entry's P bit is not looked at. */
    method GetPaddr(pageDir: Word, vaddr: Word) returns (paddr: Word)
      requires Valid() && pageDir / PAGE_SIZE in live
      modifies mem, bitmap.bitArr, cursor
      ensures View() == old(View())
      ensures paddr == PhysAddr(View().mem, pageDir / PAGE_SIZE, vaddr)
    {
      LiveIsWalkable(View(), kernelDir, live, pageDir / PAGE_SIZE);
      var pte := FindPte(pageDir / PAGE_SIZE, vaddr, false);
      if pte.Null? {
        return 0;
      }
      paddr := PdePaddr(mem[pte.frame][pte.index]) + vaddr % PAGE_SIZE;
    }

    /** memory_copy_uvm_data: the destination, read through `pageDir`, holds the source
        bytes, up to the first page whose table is missing; nothing else changes. */
    method CopyUvmData(dest: Word, pageDir: Word, src: Word, size: nat) returns (err: int)
      requires Valid() && pageDir / PAGE_SIZE in live && src != 0
      requires CopyRequest(View().mem, pageDir / PAGE_SIZE, cr3 / PAGE_SIZE, dest, src, size)
      modifies mem, bitmap.bitArr, cursor
      ensures Valid() && (err == 0 || err == -1)
      ensures var bytes := SourceBytes(old(View()).mem, cr3 / PAGE_SIZE, src, size);
              exists n: nat :: n <= size && Transferred(old(View()).mem, View().mem, pageDir / PAGE_SIZE, dest, bytes, n) &&
                               (if err == 0 then n == size else n < size && !TableFor(old(View()).mem, pageDir / PAGE_SIZE, dest + n))
      ensures View() == WithMem(old(View()), View().mem)
    {
      ghost var s := View();
      ghost var bytes := SourceBytes(s.mem, cr3 / PAGE_SIZE, src, size);
      TransferredNothing(s.mem, pageDir / PAGE_SIZE, dest, bytes);
      assert DataOnly(s.mem, s.mem, pageDir / PAGE_SIZE);
      assert InTransfer(s, s, kernelDir, live, pageDir / PAGE_SIZE, cr3 / PAGE_SIZE, dest, src, size, bytes, 0);
      ghost var moved := ProgressOf(s, kernelDir, live, pageDir / PAGE_SIZE, cr3 / PAGE_SIZE, dest, src, size, bytes);
      err := MoveAll(moved, s, bytes, dest, pageDir, src, size);
    }

    /** The loop of memory_copy_uvm_data. */
    method MoveAll(ghost moved: Progress, ghost s: State, ghost bytes: seq<Byte>, dest: Word, pageDir: Word, src: Word, size: nat)
      returns (err: int)
      requires Wired() && src != 0 && moved(View(), 0)
      requires IsProgress(moved, s, kernelDir, live, pageDir / PAGE_SIZE, cr3 / PAGE_SIZE, dest, src, size, bytes)
      modifies mem, bitmap.bitArr, cursor
      ensures err == 0 || err == -1
      ensures exists done: nat :: InTransfer(s, View(), kernelDir, live, pageDir / PAGE_SIZE, cr3 / PAGE_SIZE, dest, src, size, bytes, done) &&
                                  (if err == 0 then done == size else done < size && !TableFor(s.mem, pageDir / PAGE_SIZE, dest + done))
    {
      var done: nat, left: nat := 0, size;
      while left > 0
        invariant done + left == size && moved(View(), done)
      {
        var copied := CopyChunk(moved, s, bytes, dest, pageDir, src, size, done);
        if copied == 0 {
          StoppedShort(moved, s, View(), kernelDir, live, pageDir / PAGE_SIZE, cr3 / PAGE_SIZE, dest, src, size, bytes, done);
          return -1;
        }
        done, left := done + copied, left - copied;
      }
      assert InTransfer(s, View(), kernelDir, live, pageDir / PAGE_SIZE, cr3 / PAGE_SIZE, dest, src, size, bytes, size);
      return 0;
    }

    /** One round of the loop: the rest of one page, or of the request, is written to
        whatever frame memory_get_paddr names; 0 when it gives no address. */
    method CopyRound(dest: Word, pageDir: Word, src: Word, size: nat) returns (chunk: nat)
      requires Wired() && Inv(View(), kernelDir, live) && pageDir / PAGE_SIZE in live && src != 0 && size > 0
      requires RoundPossible(View().mem, PhysAddr(View().mem, pageDir / PAGE_SIZE, dest), cr3 / PAGE_SIZE, src, size)
      modifies mem, bitmap.bitArr, cursor
      ensures View() == WithMem(old(View()), View().mem)
      ensures RoundDone(old(View()).mem, View().mem, PhysAddr(old(View()).mem, pageDir / PAGE_SIZE, dest),
                        cr3 / PAGE_SIZE, src, size, chunk)
    {
      var paddr := GetPaddr(pageDir, dest);
      if paddr == 0 {
        return 0;
      }
      chunk := PAGE_SIZE - paddr % PAGE_SIZE;
      if chunk > size {
        chunk := size;
      }
      KernelMemcpy(paddr, src, chunk);
    }

    /** The same, as part of a transfer. */
    method CopyChunk(ghost moved: Progress, ghost s: State, ghost bytes: seq<Byte>, dest: Word, pageDir: Word, src: Word, size: nat, done: nat)
      returns (chunk: nat)
      requires Wired() && src != 0 && done < size && moved(View(), done)
      requires IsProgress(moved, s, kernelDir, live, pageDir / PAGE_SIZE, cr3 / PAGE_SIZE, dest, src, size, bytes)
      modifies mem, bitmap.bitArr, cursor
      ensures dest + done < 0x1_0000_0000 && (chunk == 0 ==> !TableFor(s.mem, pageDir / PAGE_SIZE, dest + done))
      ensures done + chunk <= size && moved(View(), done + chunk)
    {
      ghost var m := View().mem;
      ghost var at, from, paddr :=
        RoundCanRun(moved, s, View(), kernelDir, live, pageDir / PAGE_SIZE, cr3 / PAGE_SIZE, dest, src, size, bytes, done);
      chunk := CopyRound(dest + done, pageDir, src + done, size - done);
      RoundAdvances(moved, s, m, View(), kernelDir, live, pageDir / PAGE_SIZE, cr3 / PAGE_SIZE,
                    dest, src, size, bytes, done, at, from, paddr, chunk);
    }

    // ---------- sys_sbrk ----------

    /** sys_sbrk on a heap in user memory; the ASSERT in memory_create_map is the
        precondition, and Heap.SbrkPanicsIff says when it holds. */
    method SysSbrk(task: Task, incr: int) returns (ret: Word)
      requires Valid() && cr3 / PAGE_SIZE in live && 0 <= incr
      requires MEM_TASK_BASE <= task.heapEnd && task.heapEnd + incr <= 0xFFFF_F000
      requires Heap.Sbrk(View(), cr3 / PAGE_SIZE, task.heapEnd, incr).st != Panic
      modifies task, mem, bitmap.bitArr, cursor
      ensures Valid()
      ensures var b := Heap.Sbrk(old(View()), cr3 / PAGE_SIZE, old(task.heapEnd), incr);
              View() == b.s && task.heapEnd == b.heapEnd && ret == b.ret
    {
      var preHeapEnd := task.heapEnd;
      SbrkInside(View(), cr3 / PAGE_SIZE, preHeapEnd, incr);
      if incr == 0 {
        return preHeapEnd;
      }
      var start: Word := task.heapEnd;
      var end := Truncate(start + incr);
      var startOffset := start % PAGE_SIZE;
      if startOffset != 0 {
        if startOffset + incr <= PAGE_SIZE {
          task.heapEnd := end;
          return preHeapEnd;
        }
        start := Truncate(start + (PAGE_SIZE - startOffset));
      }
      assert start == Truncate(Heap.Start(preHeapEnd)) && !Heap.InsidePage(preHeapEnd, incr);
      GrowHeap(preHeapEnd, incr, start, end);
      task.heapEnd := end;
      return preHeapEnd;
    }

    /** The allocation in sys_sbrk. What is left of the increment is never 0 here. */
    method GrowHeap(ghost heapEnd: Word, ghost incr: nat, start: Word, end: Word)
      requires Valid() && cr3 / PAGE_SIZE in live && !Heap.InsidePage(heapEnd, incr)
      requires MEM_TASK_BASE <= heapEnd && heapEnd + incr <= 0xFFFF_F000
      requires Heap.Sbrk(View(), cr3 / PAGE_SIZE, heapEnd, incr).st != Panic
      requires start == Truncate(Heap.Start(heapEnd)) && end == Truncate(heapEnd + incr)
      modifies mem, bitmap.bitArr, cursor
      ensures Valid()
      ensures View() == Heap.Sbrk(old(View()), cr3 / PAGE_SIZE, heapEnd, incr).s
    {
      ghost var s, d := View(), cr3 / PAGE_SIZE;
      HeapRequest(s, d, heapEnd, incr);
      var size := Truncate(end - start);
      assert start == Heap.Start(heapEnd) && size == heapEnd + incr - start;
      ghost var b := Heap.Sbrk(s, d, heapEnd, incr);
      BrkState(s, d, heapEnd, heapEnd + incr, start, Heap.PageUp(size), b);
      var err := AllocForDir(cr3, start, size, Heap.HEAP_FLAGS);
    }
  }
}
