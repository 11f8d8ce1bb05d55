/** Whole runs: from boot, through any sequence of creating, mapping, copying and
    destroying address spaces, every reached frame stays allocated and is reached
    by one path only. */
module Spaces {
  import opened Mmu
  import opened Vm
  import opened Ownership
  import opened Mapping
  import opened PageAlloc
  import opened Copy
  import opened Destruction
  import opened Fork
  import opened Demand
  import opened Strand

  // ---------- Boot: create_kernel_table ----------

  /** A row of kernel_map. */
  datatype MemoryMap = MemoryMap(vStart: Word, vEnd: Word, pStart: Word, privilege: nat)

  function Down(x: Word): Word {
    x / PAGE_SIZE * PAGE_SIZE
  }

  function Up(x: Word): Word {
    Truncate((x + PAGE_SIZE - 1) / PAGE_SIZE * PAGE_SIZE)
  }

  predicate KernelRange(row: MemoryMap) {
    row.vStart <= row.vEnd <= MEM_TASK_BASE
  }

  /** The loop over kernel_map; the result of memory_create_map is ignored, and the
      ASSERT in it stops the kernel. */
  function CreateKernelTable(s: State, kd: nat, maps: seq<MemoryMap>): State
    requires forall row :: row in maps ==> KernelRange(row)
    decreases maps
  {
    if maps == [] then s
    else
      var row := maps[0];
      assert KernelRange(row);
      var (s1, st) := MapPages(s, kd, Down(row.vStart), Down(row.pStart),
                               (Up(row.vEnd) - Down(row.vStart)) / PAGE_SIZE, row.privilege);
      if st == Panic then s1 else CreateKernelTable(s1, kd, maps[1..])
  }

  /** Before any address space exists, writing into a kernel table moves no path. */
  lemma KernelStore(s: State, s': State, kd: nat, i: nat, j: nat, v: Word)
    requires Inv(s, kd, {}) && i < USER_PDE && Present(Entry(s.mem, kd, i))
    requires s'.bits == s.bits && s'.mem == Poke(s.mem, Tab(s.mem, kd, i), j, v)
    ensures Inv(s', kd, {})
  {
    assert Has(s.mem, kd, {}, KernelTable(i));
    assert forall i: nat :: Entry(s'.mem, kd, i) == Entry(s.mem, kd, i);
    assert forall p :: Has(s'.mem, kd, {}, p) <==> Has(s.mem, kd, {}, p);
  }

  lemma KernelFindPte(s: State, kd: nat, vaddr: Word)
    requires Inv(s, kd, {}) && vaddr < MEM_TASK_BASE
    ensures var (s', pte) := FindPte(s, kd, vaddr, true);
            Inv(s', kd, {}) &&
            (pte.Ref? ==> Present(Entry(s'.mem, kd, PdeIndex(vaddr))) && pte.frame == Tab(s'.mem, kd, PdeIndex(vaddr)))
  {
    AllocPageFresh(s);
    var (s1, page) := AllocPage(s);
    if !Present(Entry(s.mem, kd, PdeIndex(vaddr))) && page != 0 {
      var (s', pte) := FindPte(s, kd, vaddr, true);
      LinkTable(s, s', kd, {}, kd, PdeIndex(vaddr), page / PAGE_SIZE);
    }
  }

  lemma {:induction false} KernelMapKeepsInv(s: State, kd: nat, vaddr: Word, paddr: Word, num: nat, privilege: nat)
    requires Inv(s, kd, {}) && vaddr + num * PAGE_SIZE <= MEM_TASK_BASE
    ensures Inv(MapPages(s, kd, vaddr, paddr, num, privilege).0, kd, {})
    decreases num
  {
    if num > 0 {
      KernelFindPte(s, kd, vaddr);
      var (s1, pte) := FindPte(s, kd, vaddr, true);
      if pte.Ref? && !Present(Entry(s1.mem, pte.frame, pte.index)) {
        var s2 := WithMem(s1, Poke(s1.mem, pte.frame, pte.index, Truncate(PteValue(paddr, privilege))));
        KernelStore(s1, s2, kd, PdeIndex(vaddr), pte.index, Truncate(PteValue(paddr, privilege)));
        KernelMapKeepsInv(s2, kd, Truncate(vaddr + PAGE_SIZE), Truncate(paddr + PAGE_SIZE), num - 1, privilege);
      }
    }
  }

  /** A cleared kernel directory over an all-free bit map satisfies the invariant,
      and so it does after create_kernel_table, whatever the linker's addresses. */
  lemma {:induction false} BootEstablishesInv(s: State, kd: nat, maps: seq<MemoryMap>)
    requires Shape(s) && kd < FIRST_FRAME && s.mem[kd] == ZeroPage()
    requires forall k :: 0 <= k < |s.bits| ==> !s.bits[k]
    requires forall row :: row in maps ==> KernelRange(row)
    ensures Inv(CreateKernelTable(s, kd, maps), kd, {})
  {
    assert forall i: nat :: Entry(s.mem, kd, i) == 0;
    assert Inv(s, kd, {});
    KernelTableKeepsInv(s, kd, maps);
  }

  lemma {:induction false} KernelTableKeepsInv(s: State, kd: nat, maps: seq<MemoryMap>)
    requires Inv(s, kd, {})
    requires forall row :: row in maps ==> KernelRange(row)
    ensures Inv(CreateKernelTable(s, kd, maps), kd, {})
    decreases maps
  {
    if maps != [] {
      var row := maps[0];
      assert KernelRange(row);
      var pages := (Up(row.vEnd) - Down(row.vStart)) / PAGE_SIZE;
      KernelMapKeepsInv(s, kd, Down(row.vStart), Down(row.pStart), pages, row.privilege);
      KernelTableKeepsInv(MapPages(s, kd, Down(row.vStart), Down(row.pStart), pages, row.privilege).0, kd, maps[1..]);
    }
  }

  // ---------- Runs over address spaces ----------

  datatype Op =
    | CreateSpace
    | MapRange(dir: nat, vaddr: Word, pages: nat, privilege: nat)
    | CopySpace(dir: nat)
    | DestroySpace(dir: nat)

  datatype System = System(s: State, live: set<nat>)

  /** What the kernel's callers see to: they name directories in use, and map user
      pages that are not mapped (the ASSERT in memory_create_map). */
  predicate Enabled(sys: System, op: Op) {
    match op
    case CreateSpace => true
    case MapRange(d, vaddr, pages, privilege) =>
      d in sys.live && vaddr >= MEM_TASK_BASE && privilege < PAGE_SIZE && vaddr / PAGE_SIZE + pages <= 0x10_0000 &&
      forall n :: vaddr / PAGE_SIZE <= n < vaddr / PAGE_SIZE + pages ==> !PageMapped(sys.s.mem, d, n)
    case CopySpace(d) => d in sys.live
    case DestroySpace(d) => d in sys.live
  }

  /** One operation; running out of memory is one of its outcomes. */
  function Step(kd: nat, sys: System, op: Op): System {
    match op
    case CreateSpace =>
      var (s', page) := CreateUvm(sys.s, kd);
      System(s', if page == 0 then sys.live else sys.live + {page / PAGE_SIZE})
    case MapRange(d, vaddr, pages, privilege) =>
      System(AllocForDir(sys.s, d, vaddr, pages, privilege).0, sys.live)
    case CopySpace(d) =>
      var (s', st, page) := CopyUvm(sys.s, kd, d);
      System(s', if page == 0 then sys.live else sys.live + {page / PAGE_SIZE})
    case DestroySpace(d) => System(Destroy(sys.s, d), sys.live - {d})
  }

  ghost predicate Runs(kd: nat, sys: System, ops: seq<Op>, end: System)
    decreases ops
  {
    if ops == [] then end == sys
    else Enabled(sys, ops[0]) && Runs(kd, Step(kd, sys, ops[0]), ops[1..], end)
  }

  lemma StepKeepsInv(kd: nat, sys: System, op: Op)
    requires Inv(sys.s, kd, sys.live) && Enabled(sys, op)
    ensures Inv(Step(kd, sys, op).s, kd, Step(kd, sys, op).live)
  {
    match op
    case CreateSpace => CreateUvmCreates(sys.s, kd, sys.live);
    case MapRange(d, vaddr, pages, privilege) => AllocForDirGrows(sys.s, kd, sys.live, d, vaddr, pages, privilege);
    case CopySpace(d) =>
      CopyUvmForks(sys.s, kd, sys.live, d);
      FailedCopyStrandsAtMostOne(sys.s, kd, sys.live, d);
    case DestroySpace(d) => DestroyFreesOwned(sys.s, kd, sys.live, d);
  }

  /** With a frame left, a space is created; without one, nothing happens. */
  lemma CreateEffect(kd: nat, sys: System) returns (t: nat)
    requires Inv(sys.s, kd, sys.live)
    ensures var sys' := Step(kd, sys, CreateSpace);
            if FreeFrom(sys.s) == 0 then sys' == sys
            else sys'.live == sys.live + {t} && Created(sys.s, sys'.s, kd, sys.live, t)
  {
    AllocPageCounts(sys.s);
    CreateUvmCreates(sys.s, kd, sys.live);
    t := CreateUvm(sys.s, kd).1 / PAGE_SIZE;
  }

  /** Mapping adds no other pages than those asked for, and all of them if and only if the
      frames for them and their tables are there. */
  lemma MapEffect(kd: nat, sys: System, d: nat, vaddr: Word, pages: nat, privilege: nat)
    requires Inv(sys.s, kd, sys.live) && Enabled(sys, MapRange(d, vaddr, pages, privilege))
    ensures var (s, sys') := (sys.s, Step(kd, sys, MapRange(d, vaddr, pages, privilege)));
            && sys'.live == sys.live
            && AllocResult(s, sys'.s, if FreeFrom(s) >= Need(s.mem, d, vaddr / PAGE_SIZE, pages) then Ok else NoMemory,
                           kd, sys.live, d, vaddr, pages, privilege)
  {
    AllocForDirGrows(sys.s, kd, sys.live, d, vaddr, pages, privilege);
    AllocForDirIff(sys.s, kd, sys.live, d, vaddr, pages, privilege);
  }

  /** With frames for its directory, pages and tables, a space is copied; otherwise the
      spaces in use stay the same, and so do all frames in use. */
  lemma CopyEffect(kd: nat, sys: System, d: nat) returns (t: nat)
    requires Inv(sys.s, kd, sys.live) && d in sys.live
    ensures var (s, sys') := (sys.s, Step(kd, sys, CopySpace(d)));
            if FreeFrom(s) < 1 + NeedBelow(s.mem, d, ENTRIES)
            then sys'.live == sys.live && forall f: nat :: f < |s.mem| && !Free(s, f) ==> f < |sys'.s.mem| && sys'.s.mem[f] == s.mem[f]
            else sys'.live == sys.live + {t} && Forked(s, sys'.s, kd, sys.live, d, t)
  {
    CopyUvmIff(sys.s, kd, sys.live, d);
    CopyUvmForks(sys.s, kd, sys.live, d);
    FailedCopyStrandsAtMostOne(sys.s, kd, sys.live, d);
    t := CopyUvm(sys.s, kd, d).2 / PAGE_SIZE;
  }

  /** Destroying a space frees its frames and no others. */
  lemma DestroyEffect(kd: nat, sys: System, d: nat)
    requires Inv(sys.s, kd, sys.live) && d in sys.live
    ensures var (s, sys') := (sys.s, Step(kd, sys, DestroySpace(d)));
            && sys'.live == sys.live - {d} && sys'.s.mem == s.mem
            && forall f :: Used(sys'.s, f) <==> Used(s, f) && !Owned(s.mem, kd, sys.live, d, f)
  {
    DestroyFreesOwned(sys.s, kd, sys.live, d);
  }

  /** Over every run the frames reached from the live directories are allocated and
      pairwise distinct, whether or not memory runs out on the way. */
  lemma {:induction false} RunsKeepInv(kd: nat, sys: System, ops: seq<Op>, end: System)
    requires Inv(sys.s, kd, sys.live) && Runs(kd, sys, ops, end)
    ensures Inv(end.s, kd, end.live)
    decreases ops
  {
    if ops != [] {
      StepKeepsInv(kd, sys, ops[0]);
      RunsKeepInv(kd, Step(kd, sys, ops[0]), ops[1..], end);
    }
  }
}
