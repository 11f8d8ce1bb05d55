/** sys_sbrk: growing the heap of the current task. */
module Heap {
  import opened Mmu
  import opened Vm
  import opened Ownership
  import opened Mapping
  import opened Growth
  import opened PageAlloc
  import opened Demand

  /** PTE_P | PTE_U | PTE_W. */
  const HEAP_FLAGS := 7

  datatype Brk = Brk(s: State, heapEnd: Word, ret: Word, st: Status)

  /** The first page number not below an address. */
  function PageUp(a: nat): nat {
    (a + PAGE_SIZE - 1) / PAGE_SIZE
  }

  /** Whether the request stays inside the last page of the heap. */
  predicate InsidePage(heapEnd: nat, incr: nat) {
    incr == 0 || (heapEnd % PAGE_SIZE != 0 && heapEnd % PAGE_SIZE + incr <= PAGE_SIZE)
  }

  /** The page-aligned start of the request that goes to the allocator. */
  function Start(heapEnd: nat): nat {
    if heapEnd % PAGE_SIZE != 0 then heapEnd + (PAGE_SIZE - heapEnd % PAGE_SIZE) else heapEnd
  }

  /** sys_sbrk on directory `d`. The status of the allocation is recorded here; the
      C code cannot see it, because memory_alloc_for_page_dir always returns 0. */
  function Sbrk(s: State, d: nat, heapEnd: Word, incr: nat): Brk {
    var end := Truncate(heapEnd + incr);
    if InsidePage(heapEnd, incr) then Brk(s, end, heapEnd, Ok)
    else
      var start := Truncate(Start(heapEnd));
      AllocBrk(s, d, heapEnd, end, start, PageUp(Truncate(end - start)))
  }

  function AllocBrk(s: State, d: nat, heapEnd: Word, end: Word, start: Word, pages: nat): Brk {
    var (s', st) := AllocForDir(s, d, start, pages, HEAP_FLAGS);
    Brk(s', end, heapEnd, st)
  }

  /** The heap occupies its last page from the start of that page on, and nothing is
      mapped between the rounded-up heap end and `limit`. */
  ghost predicate HeapInv(s: State, d: nat, heapEnd: nat, limit: nat) {
    && MEM_TASK_BASE <= heapEnd <= limit <= 0xFFFF_F000
    && (heapEnd % PAGE_SIZE != 0 ==> PageMapped(s.mem, d, heapEnd / PAGE_SIZE))
    && (forall n :: PageUp(heapEnd) <= n < PageUp(limit) ==> !PageMapped(s.mem, d, n))
  }

  ghost predicate SbrkResult(s: State, b: Brk, kd: nat, live: set<nat>, d: nat, heapEnd: nat, limit: nat, incr: nat) {
    && b.st != Panic && b.ret == heapEnd && b.heapEnd == heapEnd + incr
    && Grown(s, b.s, kd, live, d)
    && (b.st == Ok <==> forall a :: heapEnd <= a < heapEnd + incr ==> PageMapped(b.s.mem, d, a / PAGE_SIZE))
    && (b.st == Ok ==> HeapInv(b.s, d, b.heapEnd, limit))
    && (b.st == Ok ==> forall n: nat :: PageMapped(b.s.mem, d, n) <==>
          (PageMapped(s.mem, d, n) || PageUp(heapEnd) <= n < PageUp(heapEnd + incr)))
    && NewPagesUsable(s, b.s, d)
  }

  /** Every page that was added is present, writable and open to the user: bits 0, 1 and 2
      of its entry are set, and no other flag. */
  ghost predicate NewPagesUsable(s: State, s': State, d: nat) {
    forall n: nat :: PageMapped(s'.mem, d, n) && !PageMapped(s.mem, d, n) ==>
                       PageEntry(s'.mem, d, n) % PAGE_SIZE == Or(Or(1, 2), 4)
  }

  lemma HeapFlagBits()
    ensures PresentFlags(HEAP_FLAGS) == Or(Or(1, 2), 4)
  {
    assert Or(1, 2) == 3 && Or(3, 4) == 7;
  }

  lemma AllocatedUsable(s: State, s': State, st: Status, kd: nat, live: set<nat>, d: nat, vaddr: Word, pages: nat)
    requires AllocResult(s, s', st, kd, live, d, vaddr, pages, HEAP_FLAGS)
    ensures NewPagesUsable(s, s', d)
  {
    HeapFlagBits();
  }

  lemma SbrkPages(heapEnd: nat, incr: nat)
    ensures InsidePage(heapEnd, incr) ==> PageUp(heapEnd + incr) == PageUp(heapEnd)
    ensures !InsidePage(heapEnd, incr) ==>
              Start(heapEnd) == PageUp(heapEnd) * PAGE_SIZE && Start(heapEnd) < heapEnd + incr &&
              PageUp(heapEnd + incr) == PageUp(heapEnd) + PageUp(heapEnd + incr - Start(heapEnd))
  {
  }

  lemma SbrkUnfolds(s: State, d: nat, heapEnd: Word, incr: nat)
    requires heapEnd + incr <= 0xFFFF_F000 && !InsidePage(heapEnd, incr)
    ensures Start(heapEnd) < 0x1_0000_0000 && heapEnd + incr < 0x1_0000_0000
    ensures Sbrk(s, d, heapEnd, incr) ==
            AllocBrk(s, d, heapEnd, heapEnd + incr, Start(heapEnd), PageUp(heapEnd + incr - Start(heapEnd)))
  {
    SbrkPages(heapEnd, incr);
    assert Truncate(heapEnd + incr) == heapEnd + incr && Truncate(Start(heapEnd)) == Start(heapEnd);
    assert Truncate(heapEnd + incr - Start(heapEnd)) == heapEnd + incr - Start(heapEnd);
  }

  /** One call: it returns the previous end and adds `incr`; exactly the pages between
      the two rounded-up ends become mapped, and the memory handed out is backed if
      and only if no allocation failed. The ASSERT in memory_create_map never fires. */
  lemma SbrkBacks(s: State, kd: nat, live: set<nat>, d: nat, heapEnd: Word, limit: nat, incr: nat)
    requires Inv(s, kd, live) && d in live && HeapInv(s, d, heapEnd, limit) && heapEnd + incr <= limit
    ensures SbrkResult(s, Sbrk(s, d, heapEnd, incr), kd, live, d, heapEnd, limit, incr)
  {
    SbrkPages(heapEnd, incr);
    if InsidePage(heapEnd, incr) {
      GrownRefl(s, kd, live, d);
      Backed(s, s, d, heapEnd, incr);
    } else {
      SbrkUnfolds(s, d, heapEnd, incr);
      SbrkAllocates(s, kd, live, d, heapEnd, limit, incr);
    }
  }

  lemma SbrkAllocates(s: State, kd: nat, live: set<nat>, d: nat, heapEnd: Word, limit: nat, incr: nat)
    requires Inv(s, kd, live) && d in live && HeapInv(s, d, heapEnd, limit) && heapEnd + incr <= limit
    requires !InsidePage(heapEnd, incr) && Start(heapEnd) < 0x1_0000_0000 && Start(heapEnd) < heapEnd + incr
    ensures SbrkResult(s, AllocBrk(s, d, heapEnd, heapEnd + incr, Start(heapEnd), PageUp(heapEnd + incr - Start(heapEnd))),
                       kd, live, d, heapEnd, limit, incr)
  {
    var start, pages := Start(heapEnd), PageUp(heapEnd + incr - Start(heapEnd));
    SbrkPages(heapEnd, incr);
    assert forall n: nat :: InRange(n, start, pages) ==> PageUp(heapEnd) <= n < PageUp(heapEnd + incr);
    AllocForDirGrows(s, kd, live, d, start, pages, HEAP_FLAGS);
    var (s', st) := AllocForDir(s, d, start, pages, HEAP_FLAGS);
    SbrkAllocated(s, s', st, kd, live, d, heapEnd, limit, incr);
  }

  lemma SbrkAllocated(s: State, s': State, st: Status, kd: nat, live: set<nat>, d: nat, heapEnd: Word, limit: nat, incr: nat)
    requires HeapInv(s, d, heapEnd, limit) && heapEnd + incr <= limit && !InsidePage(heapEnd, incr)
    requires AllocResult(s, s', st, kd, live, d, Start(heapEnd), PageUp(heapEnd + incr - Start(heapEnd)), HEAP_FLAGS)
    ensures SbrkResult(s, Brk(s', heapEnd + incr, heapEnd, st), kd, live, d, heapEnd, limit, incr)
  {
    SbrkPages(heapEnd, incr);
    AllocatedUsable(s, s', st, kd, live, d, Start(heapEnd), PageUp(heapEnd + incr - Start(heapEnd)));
    var pages := PageUp(heapEnd + incr - Start(heapEnd));
    assert forall n: nat :: InRange(n, Start(heapEnd), pages) <==> PageUp(heapEnd) <= n < PageUp(heapEnd + incr);
    Backed(s, s', d, heapEnd, incr);
    if st == Ok && (heapEnd + incr) % PAGE_SIZE != 0 {
      assert InRange((heapEnd + incr) / PAGE_SIZE, Start(heapEnd), pages);
    }
  }

  /** The bytes handed out lie in the last page of the old heap and in the new pages,
      and every new page holds one of them. */
  lemma Backed(s: State, s': State, d: nat, heapEnd: nat, incr: nat)
    requires heapEnd % PAGE_SIZE != 0 ==> PageMapped(s'.mem, d, heapEnd / PAGE_SIZE)
    ensures (forall n :: PageUp(heapEnd) <= n < PageUp(heapEnd + incr) ==> PageMapped(s'.mem, d, n)) <==>
            (forall a :: heapEnd <= a < heapEnd + incr ==> PageMapped(s'.mem, d, a / PAGE_SIZE))
  {
    if forall a :: heapEnd <= a < heapEnd + incr ==> PageMapped(s'.mem, d, a / PAGE_SIZE) {
      forall n | PageUp(heapEnd) <= n < PageUp(heapEnd + incr) ensures PageMapped(s'.mem, d, n) {
        assert n * PAGE_SIZE / PAGE_SIZE == n;
        assert heapEnd <= n * PAGE_SIZE < heapEnd + incr;
      }
    }
    forall a | heapEnd <= a < heapEnd + incr
      ensures PageUp(heapEnd) <= a / PAGE_SIZE < PageUp(heapEnd + incr) || (a / PAGE_SIZE == heapEnd / PAGE_SIZE && heapEnd % PAGE_SIZE != 0)
    {
    }
  }

  // ---------- What becomes of a call, read off the state before it ----------

  /** The pages a request reaches beyond the last page of the heap. */
  function NewPages(heapEnd: nat, incr: nat): nat {
    if InsidePage(heapEnd, incr) then 0 else PageUp(heapEnd + incr - Start(heapEnd))
  }

  lemma NewPagesIs(heapEnd: nat, incr: nat)
    ensures PageUp(heapEnd + incr) == PageUp(heapEnd) + NewPages(heapEnd, incr)
    ensures NewPages(heapEnd, incr) == 0 <==> InsidePage(heapEnd, incr)
  {
    SbrkPages(heapEnd, incr);
  }

  /** The call returns the old end and moves the end in every case; only the allocation
      inside it can fail or stop. */
  lemma SbrkStatus(s: State, kd: nat, live: set<nat>, d: nat, heapEnd: Word, incr: nat)
    requires Inv(s, kd, live) && d in live && MEM_TASK_BASE <= heapEnd && heapEnd + incr <= 0xFFFF_F000
    ensures var b := Sbrk(s, d, heapEnd, incr);
            b.ret == heapEnd && b.heapEnd == heapEnd + incr &&
            b.st == Outcome(s.mem, d, FreeFrom(s), PageUp(heapEnd), NewPages(heapEnd, incr))
  {
    if InsidePage(heapEnd, incr) {
      assert Truncate(heapEnd + incr) == heapEnd + incr;
    } else {
      SbrkUnfolds(s, d, heapEnd, incr);
      SbrkPages(heapEnd, incr);
      AllocForDirStatus(s, kd, live, d, Start(heapEnd), PageUp(heapEnd), NewPages(heapEnd, incr), HEAP_FLAGS);
    }
  }

  /** Every byte handed out is backed if and only if there is a frame for each new page
      and for each directory slot among them without a table. */
  lemma SbrkBackedIff(s: State, kd: nat, live: set<nat>, d: nat, heapEnd: Word, limit: nat, incr: nat)
    requires Inv(s, kd, live) && d in live && HeapInv(s, d, heapEnd, limit) && heapEnd + incr <= limit
    ensures var b := Sbrk(s, d, heapEnd, incr);
            (forall a :: heapEnd <= a < heapEnd + incr ==> PageMapped(b.s.mem, d, a / PAGE_SIZE)) <==>
            FreeFrom(s) >= Need(s.mem, d, PageUp(heapEnd), NewPages(heapEnd, incr))
  {
    SbrkBacks(s, kd, live, d, heapEnd, limit, incr);
    SbrkStatus(s, kd, live, d, heapEnd, incr);
    NewPagesIs(heapEnd, incr);
    assert PageUp(heapEnd + incr) <= PageUp(limit);
    NoneMapped(s.mem, d, PageUp(heapEnd), NewPages(heapEnd, incr), NewPages(heapEnd, incr));
  }

  /** Without a free frame the call still succeeds, for bytes that are not there. */
  lemma SbrkUnbacked(s: State, kd: nat, live: set<nat>, d: nat, heapEnd: Word, limit: nat, incr: nat)
    requires Inv(s, kd, live) && d in live && HeapInv(s, d, heapEnd, limit) && heapEnd + incr <= limit
    requires FreeFrom(s) == 0 && !InsidePage(heapEnd, incr)
    ensures var b := Sbrk(s, d, heapEnd, incr);
            b.ret == heapEnd && b.heapEnd == heapEnd + incr &&
            exists a :: heapEnd <= a < heapEnd + incr && !PageMapped(b.s.mem, d, a / PAGE_SIZE)
  {
    SbrkBackedIff(s, kd, live, d, heapEnd, limit, incr);
    SbrkStatus(s, kd, live, d, heapEnd, incr);
    NewPagesIs(heapEnd, incr);
  }

  /** Page `n + q` is the first of the pages from `n` on that is mapped. */
  predicate FirstAt(m: seq<Page>, d: nat, n: nat, q: nat) {
    PageMapped(m, d, n + q) && forall k: nat :: n <= k < n + q ==> !PageMapped(m, d, k)
  }

  lemma FirstAtIs(m: seq<Page>, d: nat, n: nat, q: nat, pages: nat)
    requires q < pages && FirstAt(m, d, n, q)
    ensures FirstMapped(m, d, n, pages) == q
  {
    NoneMapped(m, d, n, q, pages);
  }

  lemma OutcomePanics(m: seq<Page>, d: nat, free: nat, n: nat, pages: nat)
    ensures Outcome(m, d, free, n, pages) == Panic <==>
            exists q: nat :: q < pages && FirstAt(m, d, n, q) && free > Need(m, d, n, q)
  {
    var first := FirstMapped(m, d, n, pages);
    assert first < pages ==> FirstAt(m, d, n, first);
    forall q: nat | q < pages && FirstAt(m, d, n, q) ensures q == first {
      FirstAtIs(m, d, n, q, pages);
    }
  }

  /** The ASSERT in memory_create_map stops the call if and only if one of the new
      pages is mapped already and the frames do not run out before the first such
      page: one must be left there, after those taken by the pages before. */
  lemma SbrkPanicsIff(s: State, kd: nat, live: set<nat>, d: nat, heapEnd: Word, incr: nat)
    requires Inv(s, kd, live) && d in live && MEM_TASK_BASE <= heapEnd && heapEnd + incr <= 0xFFFF_F000
    ensures Sbrk(s, d, heapEnd, incr).st == Panic <==>
            exists q: nat :: q < NewPages(heapEnd, incr) && FirstAt(s.mem, d, PageUp(heapEnd), q) &&
                             FreeFrom(s) > Need(s.mem, d, PageUp(heapEnd), q)
  {
    SbrkStatus(s, kd, live, d, heapEnd, incr);
    OutcomePanics(s.mem, d, FreeFrom(s), PageUp(heapEnd), NewPages(heapEnd, incr));
  }

  /** A heap that ends inside pages just allocated: a call stops at the ASSERT exactly
      when it needs a new page, the next page is still one of those, and a frame is
      left. A heap that ends in the last of them is safe. */
  lemma HeapInsideRange(s: State, kd: nat, live: set<nat>, d: nat, base: Word, pages: nat, heapEnd: Word, incr: nat)
    requires Inv(s, kd, live) && d in live && MEM_TASK_BASE <= base && base % PAGE_SIZE == 0
    requires base / PAGE_SIZE + pages <= 0x10_0000
    requires forall n: nat :: base / PAGE_SIZE <= n < 0x10_0000 ==> !PageMapped(s.mem, d, n)
    requires AllocForDir(s, d, base, pages, HEAP_FLAGS).1 == Ok
    requires base <= heapEnd <= base + pages * PAGE_SIZE && heapEnd + incr <= 0xFFFF_F000
    ensures var s' := AllocForDir(s, d, base, pages, HEAP_FLAGS).0;
            Sbrk(s', d, heapEnd, incr).st == Panic <==>
            !InsidePage(heapEnd, incr) && PageUp(heapEnd) < base / PAGE_SIZE + pages && FreeFrom(s') > 0
  {
    AllocForDirGrows(s, kd, live, d, base, pages, HEAP_FLAGS);
    var s' := AllocForDir(s, d, base, pages, HEAP_FLAGS).0;
    HeapInsideMapped(s', kd, live, d, base / PAGE_SIZE, pages, heapEnd, incr);
  }

  lemma HeapInsideMapped(s: State, kd: nat, live: set<nat>, d: nat, first: nat, pages: nat, heapEnd: Word, incr: nat)
    requires Inv(s, kd, live) && d in live && MEM_TASK_BASE <= heapEnd && heapEnd + incr <= 0xFFFF_F000
    requires forall n: nat :: first <= n < 0x10_0000 ==> (PageMapped(s.mem, d, n) <==> n < first + pages)
    requires first * PAGE_SIZE <= heapEnd <= (first + pages) * PAGE_SIZE
    ensures Sbrk(s, d, heapEnd, incr).st == Panic <==>
            !InsidePage(heapEnd, incr) && PageUp(heapEnd) < first + pages && FreeFrom(s) > 0
  {
    var n, more := PageUp(heapEnd), NewPages(heapEnd, incr);
    NewPagesIs(heapEnd, incr);
    SbrkStatus(s, kd, live, d, heapEnd, incr);
    if more > 0 && n < first + pages {
      OutcomeMapped(s.mem, d, FreeFrom(s), n, more);
    } else {
      NoneMapped(s.mem, d, n, more, more);
    }
  }

  // ---------- Any sequence of calls ----------

  function Sum(incrs: seq<nat>): nat {
    if incrs == [] then 0 else incrs[0] + Sum(incrs[1..])
  }

  /** A sequence of calls in which no allocation fails. */
  ghost predicate Calls(s: State, d: nat, heapEnd: Word, incrs: seq<nat>, s': State, heapEnd': Word)
    decreases incrs
  {
    if incrs == [] then s' == s && heapEnd' == heapEnd
    else
      var b := Sbrk(s, d, heapEnd, incrs[0]);
      b.st == Ok && Calls(b.s, d, b.heapEnd, incrs[1..], s', heapEnd')
  }

  /** While allocation succeeds, the heap end advances by the sum of the increments
      and exactly the pages up to it are added: every byte handed out is backed. */
  lemma {:induction false} SbrkCallsBack(s: State, kd: nat, live: set<nat>, d: nat, heapEnd: Word, limit: nat,
                                         incrs: seq<nat>, s': State, heapEnd': Word)
    requires Inv(s, kd, live) && d in live && HeapInv(s, d, heapEnd, limit)
    requires heapEnd + Sum(incrs) <= limit && Calls(s, d, heapEnd, incrs, s', heapEnd')
    ensures heapEnd' == heapEnd + Sum(incrs) && Inv(s', kd, live) && HeapInv(s', d, heapEnd', limit)
    ensures forall n: nat :: PageMapped(s'.mem, d, n) <==>
                             (PageMapped(s.mem, d, n) || PageUp(heapEnd) <= n < PageUp(heapEnd'))
    ensures forall a :: heapEnd <= a < heapEnd' ==> PageMapped(s'.mem, d, a / PAGE_SIZE)
    decreases incrs
  {
    if incrs != [] {
      SbrkBacks(s, kd, live, d, heapEnd, limit, incrs[0]);
      var b := Sbrk(s, d, heapEnd, incrs[0]);
      SbrkCallsBack(b.s, kd, live, d, b.heapEnd, limit, incrs[1..], s', heapEnd');
    }
    Backed(s, s', d, heapEnd, Sum(incrs));
  }
}
