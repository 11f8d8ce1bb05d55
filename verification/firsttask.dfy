/** The kernel half of the address spaces never changes after boot, and what that
    means for the first task: task_first_init puts its heap end at e_first_task, a
    load address (src/kernel/kernel.lds:34-40), inside memory the kernel has mapped. */
module FirstTask {
  import opened Mmu
  import opened Vm
  import opened Ownership
  import opened Growth
  import opened PageAlloc
  import opened Copy
  import opened Destruction
  import opened Fork
  import opened Spaces
  import opened Demand
  import opened Heap

  /** The kernel directory and its tables are word for word the same. */
  ghost predicate KernelSame(s: State, s': State, kd: nat) {
    && (forall i: nat :: i < USER_PDE ==> Entry(s'.mem, kd, i) == Entry(s.mem, kd, i))
    && (forall i: nat, j: nat :: i < USER_PDE && Present(Entry(s.mem, kd, i)) ==> Pte(s'.mem, kd, i, j) == Pte(s.mem, kd, i, j))
  }

  lemma KernelKept(s: State, s': State, kd: nat, live: set<nat>, d: nat)
    requires Inv(s, kd, live) && |s'.mem| == |s.mem|
    requires forall f: nat :: f < |s.mem| && !Free(s, f) && s'.mem[f] != s.mem[f] ==>
                                d in live && (f == d || OwnTable(s.mem, d, f))
    ensures KernelSame(s, s', kd)
  {
    if d in live {
      FramesOfPath(s, kd, live, Root(d));
    }
    forall i: nat | USER_PDE <= i && UserPde(s.mem, d, i) && d in live ensures Used(s, Tab(s.mem, d, i)) {
      assert Has(s.mem, kd, live, Table(d, i));
    }
    assert s'.mem[kd] == s.mem[kd];
    forall i: nat, j: nat | i < USER_PDE && Present(Entry(s.mem, kd, i))
      ensures Pte(s'.mem, kd, i, j) == Pte(s.mem, kd, i, j)
    {
      KernelTableKept(s, s', kd, live, d, i);
    }
  }

  lemma KernelTableKept(s: State, s': State, kd: nat, live: set<nat>, d: nat, i: nat)
    requires Inv(s, kd, live) && |s'.mem| == |s.mem| && i < USER_PDE && Present(Entry(s.mem, kd, i))
    requires forall f: nat :: f < |s.mem| && !Free(s, f) && s'.mem[f] != s.mem[f] ==>
                                d in live && (f == d || OwnTable(s.mem, d, f))
    ensures Used(s, Tab(s.mem, kd, i)) && s'.mem[Tab(s.mem, kd, i)] == s.mem[Tab(s.mem, kd, i)]
  {
    var f := Tab(s.mem, kd, i);
    assert Has(s.mem, kd, live, KernelTable(i));
    if s'.mem[f] != s.mem[f] {
      assert Has(s.mem, kd, live, Root(d));
      if f != d {
        var k: nat :| UserPde(s.mem, d, k) && Tab(s.mem, d, k) == f;
        assert Has(s.mem, kd, live, Table(d, k));
      }
      assert false;
    }
  }

  lemma StepKeepsKernel(kd: nat, sys: System, op: Op)
    requires Inv(sys.s, kd, sys.live) && Enabled(sys, op)
    ensures KernelSame(sys.s, Step(kd, sys, op).s, kd)
  {
    match op
    case CreateSpace =>
      CreateUvmCreates(sys.s, kd, sys.live);
      KernelKept(sys.s, CreateUvm(sys.s, kd).0, kd, sys.live, 0);
    case MapRange(d, vaddr, pages, privilege) =>
      AllocForDirGrows(sys.s, kd, sys.live, d, vaddr, pages, privilege);
      KernelKept(sys.s, AllocForDir(sys.s, d, vaddr, pages, privilege).0, kd, sys.live, d);
    case CopySpace(d) =>
      CopyUvmForks(sys.s, kd, sys.live, d);
      FailedCopyStrandsAtMostOne(sys.s, kd, sys.live, d);
      KernelKept(sys.s, CopyUvm(sys.s, kd, d).0, kd, sys.live, 0);
    case DestroySpace(d) => DestroyFreesOwned(sys.s, kd, sys.live, d);
  }

  /** No run of creating, mapping, copying and destroying changes the kernel half. */
  lemma {:induction false} RunsKeepKernel(kd: nat, sys: System, ops: seq<Op>, end: System)
    requires Inv(sys.s, kd, sys.live) && Runs(kd, sys, ops, end)
    ensures KernelSame(sys.s, end.s, kd)
    decreases ops
  {
    if ops != [] {
      StepKeepsInv(kd, sys, ops[0]);
      StepKeepsKernel(kd, sys, ops[0]);
      RunsKeepKernel(kd, Step(kd, sys, ops[0]), ops[1..], end);
    }
  }

  // ---------- What boot maps ----------

  /** Page `n` of the kernel half is mapped. */
  predicate KernelPage(m: seq<Page>, kd: nat, n: nat) {
    n / ENTRIES < USER_PDE && PresentPage(m, kd, n)
  }

  /** Every mapped page stays mapped, through the same entry. */
  ghost predicate PagesKept(m: seq<Page>, m': seq<Page>, kd: nat) {
    forall n: nat :: KernelPage(m, kd, n) ==> KernelPage(m', kd, n) && PageEntry(m', kd, n) == PageEntry(m, kd, n)
  }

  /** No page is newly mapped but those from `first` on, `num` of them. */
  ghost predicate NoOthers(m: seq<Page>, m': seq<Page>, kd: nat, first: nat, num: nat) {
    forall n: nat :: KernelPage(m', kd, n) ==> KernelPage(m, kd, n) || first <= n < first + num
  }

  lemma KernelLink(s: State, kd: nat, vaddr: Word)
    requires Inv(s, kd, {}) && vaddr < MEM_TASK_BASE
    ensures var m := FindPte(s, kd, vaddr, true).0.mem;
            PagesKept(s.mem, m, kd) && NoOthers(s.mem, m, kd, 0, 0)
  {
    AllocPageFresh(s);
    forall i: nat | i < USER_PDE && Present(Entry(s.mem, kd, i)) ensures Used(s, Tab(s.mem, kd, i)) {
      assert Has(s.mem, kd, {}, KernelTable(i));
    }
    var (s1, page) := AllocPage(s);
    if !Present(Entry(s.mem, kd, PdeIndex(vaddr))) && page != 0 {
      var (s', pte) := FindPte(s, kd, vaddr, true);
      LinkTable(s, s', kd, {}, kd, PdeIndex(vaddr), page / PAGE_SIZE);
    }
  }

  lemma EntryIsPresent(paddr: Word, privilege: nat)
    requires paddr % PAGE_SIZE == 0
    ensures Present(Truncate(PteValue(paddr, privilege)))
  {
    var x := PteValue(paddr, privilege);
    var q, r := x / 0x1_0000_0000, x % 0x1_0000_0000;
    assert x % 2 == 1;
    assert x == 2 * (0x8000_0000 * q) + r;
  }

  /** Storing a present entry in an empty slot maps that page and changes no other. */
  lemma KernelStored(s: State, m: seq<Page>, kd: nat, n: nat, v: Word)
    requires Inv(s, kd, {}) && n / ENTRIES < USER_PDE && Present(Entry(s.mem, kd, n / ENTRIES)) && Present(v)
    requires !KernelPage(s.mem, kd, n) && m == Poke(s.mem, Tab(s.mem, kd, n / ENTRIES), n % ENTRIES, v)
    ensures PagesKept(s.mem, m, kd) && NoOthers(s.mem, m, kd, n, 1) && KernelPage(m, kd, n) && PageEntry(m, kd, n) == v
  {
    assert Has(s.mem, kd, {}, KernelTable(n / ENTRIES));
    assert forall i: nat :: Entry(m, kd, i) == Entry(s.mem, kd, i);
    forall k: nat | k / ENTRIES < USER_PDE && Present(Entry(s.mem, kd, k / ENTRIES)) && k != n
      ensures PageEntry(m, kd, k) == PageEntry(s.mem, kd, k)
    {
      OtherSlot(s, kd, n, k);
    }
  }

  lemma OtherSlot(s: State, kd: nat, n: nat, k: nat)
    requires Inv(s, kd, {}) && n / ENTRIES < USER_PDE && Present(Entry(s.mem, kd, n / ENTRIES))
    requires k / ENTRIES < USER_PDE && Present(Entry(s.mem, kd, k / ENTRIES)) && k != n
    ensures Tab(s.mem, kd, k / ENTRIES) != Tab(s.mem, kd, n / ENTRIES) || k % ENTRIES != n % ENTRIES
  {
    assert Has(s.mem, kd, {}, KernelTable(n / ENTRIES)) && Has(s.mem, kd, {}, KernelTable(k / ENTRIES));
  }

  /** One round of memory_create_map on the kernel directory. */
  lemma KernelRound(s: State, kd: nat, vaddr: Word, paddr: Word, privilege: nat, n: nat) returns (s2: State)
    requires Inv(s, kd, {}) && vaddr < MEM_TASK_BASE && paddr % PAGE_SIZE == 0 && n == vaddr / PAGE_SIZE
    requires var (s1, pte) := FindPte(s, kd, vaddr, true); pte.Ref? && !Present(Entry(s1.mem, pte.frame, pte.index))
    ensures var (s1, pte) := FindPte(s, kd, vaddr, true);
            s2 == WithMem(s1, Poke(s1.mem, pte.frame, pte.index, Truncate(PteValue(paddr, privilege))))
    ensures Inv(s2, kd, {}) && PagesKept(s.mem, s2.mem, kd) && NoOthers(s.mem, s2.mem, kd, n, 1)
    ensures KernelPage(s2.mem, kd, n) && PageEntry(s2.mem, kd, n) == Truncate(PteValue(paddr, privilege))
  {
    var (s1, pte) := FindPte(s, kd, vaddr, true);
    var v := Truncate(PteValue(paddr, privilege));
    s2 := WithMem(s1, Poke(s1.mem, pte.frame, pte.index, v));
    KernelFindPte(s, kd, vaddr);
    KernelLink(s, kd, vaddr);
    KernelStore(s1, s2, kd, PdeIndex(vaddr), pte.index, v);
    EntryIsPresent(paddr, privilege);
    IndexRanges(vaddr);
    KernelStored(s1, s2.mem, kd, n, v);
  }

  lemma NextAddress(addr: Word)
    ensures addr % PAGE_SIZE == 0 ==> Truncate(addr + PAGE_SIZE) % PAGE_SIZE == 0
    ensures addr < MEM_TASK_BASE ==> Truncate(addr + PAGE_SIZE) == addr + PAGE_SIZE
    ensures addr < MEM_TASK_BASE ==> Truncate(addr + PAGE_SIZE) / PAGE_SIZE == addr / PAGE_SIZE + 1
  {
  }

  /** The entry for page `k` of a range that begins at physical address `paddr`. */
  function EntryFor(paddr: Word, k: nat, privilege: nat): Word {
    Truncate(PteValue(Truncate(paddr + k * PAGE_SIZE), privilege))
  }

  lemma NextEntry(paddr: Word, k: nat, privilege: nat)
    ensures EntryFor(Truncate(paddr + PAGE_SIZE), k, privilege) == EntryFor(paddr, k + 1, privilege)
    ensures EntryFor(paddr, 0, privilege) == Truncate(PteValue(paddr, privilege))
  {
    var x := paddr + PAGE_SIZE;
    var q := x / 0x1_0000_0000;
    assert x == 0x1_0000_0000 * q + Truncate(x);
    SameResidue(Truncate(x) + k * PAGE_SIZE, x + k * PAGE_SIZE, q);
  }

  lemma SameResidue(a: nat, b: nat, q: nat)
    requires b == 0x1_0000_0000 * q + a
    ensures Truncate(a) == Truncate(b)
  {
  }

  /** Pages `first` up to `first + num` are mapped if nothing failed, to the frames from
      `paddr` on in order and with these bits; no other page is, and none is unmapped. */
  ghost predicate RangeMapped(m: seq<Page>, m': seq<Page>, st: Status, kd: nat, first: nat, num: nat, paddr: Word, privilege: nat) {
    && PagesKept(m, m', kd) && NoOthers(m, m', kd, first, num)
    && (st == Ok ==> forall n: nat :: first <= n < first + num ==>
          KernelPage(m', kd, n) && PageEntry(m', kd, n) == EntryFor(paddr, n - first, privilege))
  }

  lemma RangeOn(m: seq<Page>, m2: seq<Page>, m': seq<Page>, st: Status, kd: nat, first: nat, num: nat, paddr: Word, privilege: nat)
    requires num > 0 && PagesKept(m, m2, kd) && NoOthers(m, m2, kd, first, 1)
    requires KernelPage(m2, kd, first) && PageEntry(m2, kd, first) == Truncate(PteValue(paddr, privilege))
    requires RangeMapped(m2, m', st, kd, first + 1, num - 1, Truncate(paddr + PAGE_SIZE), privilege)
    ensures RangeMapped(m, m', st, kd, first, num, paddr, privilege)
  {
    NextEntry(paddr, 0, privilege);
    if st == Ok {
      forall n: nat | first < n < first + num ensures PageEntry(m', kd, n) == EntryFor(paddr, n - first, privilege) {
        NextEntry(paddr, n - first - 1, privilege);
      }
    }
  }

  lemma MapUnfolds(s: State, s1: State, pte: PtePtr, d: nat, vaddr: Word, paddr: Word, num: nat, privilege: nat)
    requires num > 0 && (s1, pte) == FindPte(s, d, vaddr, true)
    ensures MapPages(s, d, vaddr, paddr, num, privilege) ==
            if pte.Null? then (s1, NoMemory)
            else if Present(Entry(s1.mem, pte.frame, pte.index)) then (s1, Panic)
            else MapPages(WithMem(s1, Poke(s1.mem, pte.frame, pte.index, Truncate(PteValue(paddr, privilege)))), d,
                          Truncate(vaddr + PAGE_SIZE), Truncate(paddr + PAGE_SIZE), num - 1, privilege)
  {
  }

  /** memory_create_map maps the whole range if it does not fail, and nothing else. */
  lemma {:induction false} KernelRangeMapped(s: State, kd: nat, vaddr: Word, paddr: Word, first: nat, num: nat, privilege: nat)
    returns (s': State, st: Status)
    requires Inv(s, kd, {}) && vaddr + num * PAGE_SIZE <= MEM_TASK_BASE && paddr % PAGE_SIZE == 0 && first == vaddr / PAGE_SIZE
    ensures (s', st) == MapPages(s, kd, vaddr, paddr, num, privilege) && RangeMapped(s.mem, s'.mem, st, kd, first, num, paddr, privilege)
    decreases num
  {
    if num == 0 {
      return s, Ok;
    }
    var (s1, pte) := FindPte(s, kd, vaddr, true);
    MapUnfolds(s, s1, pte, kd, vaddr, paddr, num, privilege);
    KernelLink(s, kd, vaddr);
    if pte.Null? {
      NoneYet(s.mem, s1.mem, NoMemory, kd, first, num, paddr, privilege);
      return s1, NoMemory;
    } else if Present(Entry(s1.mem, pte.frame, pte.index)) {
      NoneYet(s.mem, s1.mem, Panic, kd, first, num, paddr, privilege);
      return s1, Panic;
    }
    var s2 := KernelRound(s, kd, vaddr, paddr, privilege, first);
    NextAddress(vaddr);
    NextAddress(paddr);
    s', st := KernelRangeMapped(s2, kd, Truncate(vaddr + PAGE_SIZE), Truncate(paddr + PAGE_SIZE), first + 1, num - 1, privilege);
    RangeOn(s.mem, s2.mem, s'.mem, st, kd, first, num, paddr, privilege);
  }

  lemma NoneYet(m: seq<Page>, m': seq<Page>, st: Status, kd: nat, first: nat, num: nat, paddr: Word, privilege: nat)
    requires st != Ok && PagesKept(m, m', kd) && NoOthers(m, m', kd, 0, 0)
    ensures RangeMapped(m, m', st, kd, first, num, paddr, privilege)
  {
  }

  function RowPages(row: MemoryMap): int {
    (Up(row.vEnd) - Down(row.vStart)) / PAGE_SIZE
  }

  /** Every row of kernel_map is mapped: memory does not run out and the rows share no page. */
  ghost predicate Boots(s: State, kd: nat, maps: seq<MemoryMap>)
    decreases maps
  {
    maps == [] ||
    (RowPages(maps[0]) >= 0 &&
     var (s1, st) := MapPages(s, kd, Down(maps[0].vStart), Down(maps[0].pStart), RowPages(maps[0]), maps[0].privilege);
     st == Ok && Boots(s1, kd, maps[1..]))
  }

  /** Page `n` lies in a row, from the page of its start to that of its last byte. */
  predicate InRow(row: MemoryMap, n: nat) {
    row.vStart / 4096 <= n < (row.vEnd + 4095) / 4096
  }

  lemma RowRange(row: MemoryMap)
    requires KernelRange(row)
    ensures RowPages(row) >= 0 && Down(row.vStart) + RowPages(row) * PAGE_SIZE <= MEM_TASK_BASE
    ensures Down(row.vStart) / PAGE_SIZE == row.vStart / PAGE_SIZE && Down(row.pStart) % PAGE_SIZE == 0
    ensures forall n: nat :: InRow(row, n) <==> row.vStart / PAGE_SIZE <= n < row.vStart / PAGE_SIZE + RowPages(row)
  {
  }

  /** What one row maps: its pages, to the frames from that of `pStart` on in order, with
      its bits; and nothing else. */
  ghost predicate RowMapped(m: seq<Page>, m': seq<Page>, kd: nat, row: MemoryMap) {
    && PagesKept(m, m', kd)
    && (forall n: nat :: KernelPage(m', kd, n) <==> KernelPage(m, kd, n) || InRow(row, n))
    && (forall n: nat :: InRow(row, n) ==> PageEntry(m', kd, n) == EntryFor(Down(row.pStart), n - row.vStart / 4096, row.privilege))
  }

  lemma RowMaps(s: State, kd: nat, row: MemoryMap) returns (s1: State)
    requires Inv(s, kd, {}) && KernelRange(row) && Boots(s, kd, [row])
    ensures RowPages(row) >= 0
    ensures (s1, Ok) == MapPages(s, kd, Down(row.vStart), Down(row.pStart), RowPages(row), row.privilege)
    ensures Inv(s1, kd, {}) && RowMapped(s.mem, s1.mem, kd, row)
  {
    RowRange(row);
    KernelMapKeepsInv(s, kd, Down(row.vStart), Down(row.pStart), RowPages(row), row.privilege);
    var st;
    s1, st := KernelRangeMapped(s, kd, Down(row.vStart), Down(row.pStart), row.vStart / PAGE_SIZE, RowPages(row), row.privilege);
  }

  lemma BootsFirst(s: State, kd: nat, maps: seq<MemoryMap>)
    requires maps != [] && Boots(s, kd, maps)
    ensures Boots(s, kd, [maps[0]])
  {
  }

  ghost predicate InSomeRow(maps: seq<MemoryMap>, n: nat) {
    exists row :: row in maps && InRow(row, n)
  }

  /** What all rows map. */
  ghost predicate RowsMapped(m: seq<Page>, m': seq<Page>, kd: nat, maps: seq<MemoryMap>) {
    && PagesKept(m, m', kd)
    && (forall n: nat :: KernelPage(m', kd, n) <==> KernelPage(m, kd, n) || InSomeRow(maps, n))
    && (forall row, n: nat :: row in maps && InRow(row, n) ==>
          PageEntry(m', kd, n) == EntryFor(Down(row.pStart), n - row.vStart / 4096, row.privilege))
  }

  lemma RowsOn(m: seq<Page>, m1: seq<Page>, m': seq<Page>, kd: nat, maps: seq<MemoryMap>)
    requires maps != [] && RowMapped(m, m1, kd, maps[0]) && RowsMapped(m1, m', kd, maps[1..])
    ensures RowsMapped(m, m', kd, maps)
  {
    assert forall row :: row in maps <==> row == maps[0] || row in maps[1..];
    forall n: nat ensures InSomeRow(maps, n) <==> InRow(maps[0], n) || InSomeRow(maps[1..], n) {
      if InRow(maps[0], n) {
        assert maps[0] in maps;
      }
    }
  }

  /** create_kernel_table maps exactly the pages of the rows: page k of a row to frame
      pStart / 4096 + k, with the bits of the row. */
  lemma {:induction false} BootMaps(s: State, kd: nat, maps: seq<MemoryMap>)
    requires Inv(s, kd, {}) && Boots(s, kd, maps)
    requires forall row :: row in maps ==> KernelRange(row)
    ensures RowsMapped(s.mem, CreateKernelTable(s, kd, maps).mem, kd, maps)
    decreases maps
  {
    if maps != [] {
      assert KernelRange(maps[0]);
      BootsFirst(s, kd, maps);
      var s1 := RowMaps(s, kd, maps[0]);
      BootMaps(s1, kd, maps[1..]);
      RowsOn(s.mem, s1.mem, CreateKernelTable(s1, kd, maps[1..]).mem, kd, maps);
    }
  }

  /** The entry for page `k` of a row leads to the `k`-th frame of the row, and is present
      with the row's bits, for physical addresses and bits as they come. */
  lemma EntryFields(row: MemoryMap, k: nat)
    requires row.pStart / 4096 + k < 0x10_0000 && row.privilege < 4096
    ensures var e := EntryFor(Down(row.pStart), k, row.privilege);
            FrameOf(e) == row.pStart / 4096 + k && Present(e) && e % 4096 / 2 == row.privilege / 2
  {
    var frame := row.pStart / PAGE_SIZE + k;
    assert Down(row.pStart) + k * PAGE_SIZE == frame * PAGE_SIZE;
    PteValueFields(frame, row.privilege);
  }

  // ---------- The first task ----------

  lemma KernelPageShared(s: State, kd: nat, live: set<nat>, d: nat, n: nat)
    requires Inv(s, kd, live) && d in live && KernelPage(s.mem, kd, n)
    ensures PresentPage(s.mem, d, n)
  {
    assert Entry(s.mem, d, n / ENTRIES) == Entry(s.mem, kd, n / ENTRIES);
  }

  /** A heap that ends below a page the kernel has mapped: every call that needs a new
      page stops at the ASSERT, unless no frame is left. */
  lemma KernelHeapPanics(s: State, d: nat, heapEnd: Word, incr: nat)
    requires Shape(s) && PresentPage(s.mem, d, PageUp(heapEnd)) && heapEnd + incr <= 0xFFFF_F000
    ensures Sbrk(s, d, heapEnd, incr).st == Panic <==> !InsidePage(heapEnd, incr) && FreeFrom(s) > 0
  {
    if !InsidePage(heapEnd, incr) {
      SbrkUnfolds(s, d, heapEnd, incr);
      SbrkPages(heapEnd, incr);
      StepPanics(s, d, Start(heapEnd), HEAP_FLAGS);
    }
  }

  /** From boot on, whatever address spaces were created, mapped, copied and destroyed:
      a task whose heap ends in a row of kernel_map, below the last page of the row, stops
      the kernel with its first sys_sbrk that needs a new page, if a frame is left. */
  lemma FirstTaskSbrk(kd: nat, s0: State, maps: seq<MemoryMap>, ops: seq<Op>, end: System,
                      row: MemoryMap, d: nat, heapEnd: Word, incr: nat)
    requires Shape(s0) && kd < FIRST_FRAME && s0.mem[kd] == ZeroPage()
    requires forall k :: 0 <= k < |s0.bits| ==> !s0.bits[k]
    requires forall row :: row in maps ==> KernelRange(row)
    requires Boots(s0, kd, maps) && Runs(kd, System(CreateKernelTable(s0, kd, maps), {}), ops, end)
    requires row in maps && d in end.live
    requires row.vStart <= heapEnd && PageUp(heapEnd) * PAGE_SIZE < row.vEnd && heapEnd + incr <= 0xFFFF_F000
    ensures Sbrk(end.s, d, heapEnd, incr).st == Panic <==> !InsidePage(heapEnd, incr) && FreeFrom(end.s) > 0
  {
    var n := PageUp(heapEnd);
    assert InRow(row, n);
    var s := BootedPage(s0, kd, maps, row, n);
    RunsKeepInv(kd, System(s, {}), ops, end);
    RunsKeepKernel(kd, System(s, {}), ops, end);
    assert KernelPage(end.s.mem, kd, n);
    KernelPageShared(end.s, kd, end.live, d, n);
    KernelHeapPanics(end.s, d, heapEnd, incr);
  }

  lemma BootedPage(s0: State, kd: nat, maps: seq<MemoryMap>, row: MemoryMap, n: nat) returns (s: State)
    requires Shape(s0) && kd < FIRST_FRAME && s0.mem[kd] == ZeroPage()
    requires forall k :: 0 <= k < |s0.bits| ==> !s0.bits[k]
    requires forall row :: row in maps ==> KernelRange(row)
    requires Boots(s0, kd, maps) && row in maps && InRow(row, n)
    ensures s == CreateKernelTable(s0, kd, maps) && Inv(s0, kd, {}) && Inv(s, kd, {}) && KernelPage(s.mem, kd, n)
  {
    s := CreateKernelTable(s0, kd, maps);
    assert forall i: nat :: Entry(s0.mem, kd, i) == 0;
    assert Inv(s0, kd, {});
    BootEstablishesInv(s0, kd, maps);
    BootMaps(s0, kd, maps);
    assert InSomeRow(maps, n);
  }

  /** Over every run from boot, in every address space, an address in a row that maps its
      pages to themselves is translated to itself: physical addresses can be used as they
      are. */
  lemma IdentityHolds(kd: nat, s0: State, maps: seq<MemoryMap>, ops: seq<Op>, end: System, row: MemoryMap, d: nat, a: Word)
    requires Shape(s0) && kd < FIRST_FRAME && s0.mem[kd] == ZeroPage()
    requires forall k :: 0 <= k < |s0.bits| ==> !s0.bits[k]
    requires forall row :: row in maps ==> KernelRange(row)
    requires Boots(s0, kd, maps) && Runs(kd, System(CreateKernelTable(s0, kd, maps), {}), ops, end)
    requires row in maps && row.pStart == row.vStart && row.privilege < 4096 && InRow(row, a / 4096) && d in end.live
    ensures PresentPage(end.s.mem, d, a / 4096) && Translate(end.s.mem, d, a) == a / 4096
  {
    var s := IdentityAtBoot(kd, s0, maps, row, a / 4096);
    RunsKeepInv(kd, System(s, {}), ops, end);
    RunsKeepKernel(kd, System(s, {}), ops, end);
    assert KernelPage(end.s.mem, kd, a / 4096);
    KernelPageShared(end.s, kd, end.live, d, a / 4096);
    KernelTranslates(s, end.s, kd, end.live, d, a, a / 4096);
  }

  lemma IdentityAtBoot(kd: nat, s0: State, maps: seq<MemoryMap>, row: MemoryMap, n: nat) returns (s: State)
    requires Shape(s0) && kd < FIRST_FRAME && s0.mem[kd] == ZeroPage()
    requires forall k :: 0 <= k < |s0.bits| ==> !s0.bits[k]
    requires forall row :: row in maps ==> KernelRange(row)
    requires Boots(s0, kd, maps) && row in maps && row.pStart == row.vStart && row.privilege < 4096
    requires InRow(row, n) && n < 0x10_0000
    ensures s == CreateKernelTable(s0, kd, maps) && Inv(s, kd, {}) && KernelPage(s.mem, kd, n) && FrameOf(PageEntry(s.mem, kd, n)) == n
  {
    s := BootedPage(s0, kd, maps, row, n);
    BootMaps(s0, kd, maps);
    EntryFields(row, n - row.vStart / 4096);
  }

  lemma KernelTranslates(s: State, s': State, kd: nat, live: set<nat>, d: nat, a: Word, n: nat)
    requires Inv(s', kd, live) && d in live && KernelSame(s, s', kd) && KernelPage(s.mem, kd, n) && n == a / 4096
    ensures Translate(s'.mem, d, a) == FrameOf(PageEntry(s.mem, kd, n))
  {
    IndexRanges(a);
    assert Entry(s'.mem, d, n / ENTRIES) == Entry(s'.mem, kd, n / ENTRIES);
  }
}
