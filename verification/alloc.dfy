/** memory_alloc_for_page_dir: which pages it maps, and what it leaves alone. */
module PageAlloc {
  import opened Mmu
  import opened Vm
  import opened Ownership
  import opened Mapping
  import opened Growth

  /** Marking a free frame as allocated keeps the invariant and reaches nothing. */
  lemma MarkUsed(s: State, s1: State, kd: nat, live: set<nat>, x: nat)
    requires Inv(s, kd, live) && Free(s, x)
    requires s1 == State(s.mem, s.bits[x - FIRST_FRAME := true], s1.cursor)
    ensures Inv(s1, kd, live) && Used(s1, x) && Unreached(s1, kd, live, x)
  {
  }

  lemma MarkGrows(s: State, s1: State, kd: nat, live: set<nat>, d: nat, x: nat)
    requires Inv(s, kd, live) && d in live && Free(s, x)
    requires s1 == State(s.mem, s.bits[x - FIRST_FRAME := true], s1.cursor)
    ensures Grown(s, s1, kd, live, d)
  {
    MarkUsed(s, s1, kd, live, x);
    forall f: nat | Used(s, f) ensures Used(s1, f) {
    }
  }

  lemma MappedIsAdding(s: State, s1: State, s2: State, kd: nat, live: set<nat>, d: nat, i: nat, j: nat, x: nat, v: Word)
    requires Inv(s, kd, live) && d in live && !UserPte(s.mem, d, i, j) && j < ENTRIES && Present(v) && FrameOf(v) == x
    requires Free(s, x) && s1 == State(s.mem, s.bits[x - FIRST_FRAME := true], s1.cursor)
    requires Mapped(s1, s2, kd, live, d, i, j, v)
    ensures Adding(s, s1, s2, s2, kd, live, d, i, j, x, v)
  {
  }

  /** A new frame `x` mapped at a user page that was not mapped. */
  lemma MapNewFrame(s: State, s1: State, kd: nat, live: set<nat>, d: nat, vaddr: Word, x: nat, privilege: nat)
    requires Inv(s, kd, live) && d in live && vaddr >= MEM_TASK_BASE && privilege < PAGE_SIZE
    requires !UserPte(s.mem, d, PdeIndex(vaddr), PteIndex(vaddr))
    requires Free(s, x) && s1 == State(s.mem, s.bits[x - FIRST_FRAME := true], s1.cursor)
    ensures var (s2, st) := MapPages(s1, d, vaddr, x * PAGE_SIZE, 1, privilege);
            st != Panic && (st == NoMemory ==> s2 == s1) &&
            (st == Ok ==>
               var v := Pte(s2.mem, d, PdeIndex(vaddr), PteIndex(vaddr));
               v == PteValue(x * PAGE_SIZE, privilege) && Present(v) && FrameOf(v) == x &&
               Mapped(s1, s2, kd, live, d, PdeIndex(vaddr), PteIndex(vaddr), v))
  {
    MarkUsed(s, s1, kd, live, x);
    MapUserPage(s1, kd, live, d, vaddr, x, privilege);
  }

  /** The pages below `pages` from the one of `vaddr` on. */
  predicate InRange(n: nat, vaddr: Word, pages: nat) {
    vaddr / PAGE_SIZE <= n < vaddr / PAGE_SIZE + pages
  }

  function PageEntry(m: seq<Page>, d: nat, n: nat): Word {
    Pte(m, d, n / ENTRIES, n % ENTRIES)
  }

  /** `privilege | PTE_P`. */
  function PresentFlags(privilege: nat): nat {
    if privilege % 2 == 1 then privilege else privilege + 1
  }

  ghost predicate AllocResult(s: State, s': State, st: Status, kd: nat, live: set<nat>, d: nat,
                              vaddr: Word, pages: nat, privilege: nat)
  {
    && st != Panic && Grown(s, s', kd, live, d)
    && (forall n: nat :: PageMapped(s'.mem, d, n) ==> PageMapped(s.mem, d, n) || InRange(n, vaddr, pages))
    && (forall n: nat :: PageMapped(s.mem, d, n) ==> PageMapped(s'.mem, d, n))
    && (st == Ok <==> forall n: nat :: InRange(n, vaddr, pages) ==> PageMapped(s'.mem, d, n))
    && (forall n: nat :: PageMapped(s'.mem, d, n) && !PageMapped(s.mem, d, n) ==>
                           PageEntry(s'.mem, d, n) % PAGE_SIZE == PresentFlags(privilege))
    && (st == Ok ==> Tight(s, s', kd, live))
  }

  lemma AddedPages(s: State, s2: State, kd: nat, live: set<nat>, d: nat, vaddr: Word, x: nat, v: Word)
    requires PageAdded(s, s2, kd, live, d, PdeIndex(vaddr), PteIndex(vaddr), x, v)
    ensures forall n: nat :: PageMapped(s2.mem, d, n) <==> PageMapped(s.mem, d, n) || n == vaddr / PAGE_SIZE
    ensures PageEntry(s2.mem, d, vaddr / PAGE_SIZE) == v
  {
    IndexRanges(vaddr);
  }

  ghost predicate Allocated(s: State, s2: State, st: Status, kd: nat, live: set<nat>, d: nat, vaddr: Word, privilege: nat) {
    && st != Panic && Grown(s, s2, kd, live, d)
    && (st != Ok ==> s2.mem == s.mem)
    && (st == Ok ==>
          && Tight(s, s2, kd, live)
          && (forall n: nat :: PageMapped(s2.mem, d, n) <==> PageMapped(s.mem, d, n) || n == vaddr / PAGE_SIZE)
          && PageEntry(s2.mem, d, vaddr / PAGE_SIZE) % PAGE_SIZE == PresentFlags(privilege))
  }

  lemma NewPageAdded(s: State, s1: State, s2: State, kd: nat, live: set<nat>, d: nat, vaddr: Word, x: nat, v: Word, privilege: nat)
    requires Inv(s, kd, live) && d in live && !UserPte(s.mem, d, PdeIndex(vaddr), PteIndex(vaddr))
    requires Free(s, x) && s1 == State(s.mem, s.bits[x - FIRST_FRAME := true], s1.cursor)
    requires privilege < PAGE_SIZE && v == PteValue(x * PAGE_SIZE, privilege)
    requires Mapped(s1, s2, kd, live, d, PdeIndex(vaddr), PteIndex(vaddr), v)
    ensures Grown(s, s2, kd, live, d) && Tight(s, s2, kd, live)
    ensures forall n: nat :: PageMapped(s2.mem, d, n) <==> PageMapped(s.mem, d, n) || n == vaddr / PAGE_SIZE
    ensures PageEntry(s2.mem, d, vaddr / PAGE_SIZE) % PAGE_SIZE == PresentFlags(privilege)
  {
    IndexRanges(vaddr);
    PteValueFields(x, privilege);
    MappedIsAdding(s, s1, s2, kd, live, d, PdeIndex(vaddr), PteIndex(vaddr), x, v);
    AddPage(s, s1, s2, s2, kd, live, d, PdeIndex(vaddr), PteIndex(vaddr), x, v);
    AddedPages(s, s2, kd, live, d, vaddr, x, v);
  }

  /** One round of the loop. */
  lemma NewPage(s: State, s1: State, kd: nat, live: set<nat>, d: nat, vaddr: Word, x: nat, privilege: nat)
    requires Inv(s, kd, live) && d in live && vaddr >= MEM_TASK_BASE && privilege < PAGE_SIZE
    requires !PageMapped(s.mem, d, vaddr / PAGE_SIZE)
    requires Free(s, x) && s1 == State(s.mem, s.bits[x - FIRST_FRAME := true], s1.cursor)
    ensures var (s2, st) := MapPages(s1, d, vaddr, x * PAGE_SIZE, 1, privilege);
            Allocated(s, s2, st, kd, live, d, vaddr, privilege)
  {
    IndexRanges(vaddr);
    MapNewFrame(s, s1, kd, live, d, vaddr, x, privilege);
    var (s2, st) := MapPages(s1, d, vaddr, x * PAGE_SIZE, 1, privilege);
    if st == Ok {
      NewPageAdded(s, s1, s2, kd, live, d, vaddr, x, Pte(s2.mem, d, PdeIndex(vaddr), PteIndex(vaddr)), privilege);
    } else {
      MarkGrows(s, s1, kd, live, d, x);
    }
  }

  lemma AllocStepAllocates(s: State, kd: nat, live: set<nat>, d: nat, vaddr: Word, privilege: nat)
    requires Inv(s, kd, live) && d in live && vaddr >= MEM_TASK_BASE && privilege < PAGE_SIZE
    requires !PageMapped(s.mem, d, vaddr / PAGE_SIZE)
    ensures var (s2, st) := AllocStep(s, d, vaddr, privilege);
            Allocated(s, s2, st, kd, live, d, vaddr, privilege)
  {
    AllocPageFresh(s);
    var (s1, page) := AllocPage(s);
    if page == 0 {
      GrownRefl(s, kd, live, d);
    } else {
      var x := page / PAGE_SIZE;
      assert Truncate(page) == x * PAGE_SIZE;
      NewPage(s, s1, kd, live, d, vaddr, x, privilege);
    }
  }

  /** memory_alloc_for_page_dir maps no page but those asked for, each to a frame of
      its own that was free, and it maps all of them exactly when it meets no error.
      (Its C return value is 0 either way.) The ASSERT in memory_create_map does not
      fire, and the other address spaces keep every path, entry and content. */
  lemma {:induction false} AllocForDirGrows(s: State, kd: nat, live: set<nat>, d: nat, vaddr: Word, pages: nat, privilege: nat)
    requires Inv(s, kd, live) && d in live && vaddr >= MEM_TASK_BASE && privilege < PAGE_SIZE
    requires vaddr / PAGE_SIZE + pages <= 0x10_0000
    requires forall n: nat :: InRange(n, vaddr, pages) ==> !PageMapped(s.mem, d, n)
    ensures var (s', st) := AllocForDir(s, d, vaddr, pages, privilege);
            AllocResult(s, s', st, kd, live, d, vaddr, pages, privilege)
    decreases pages
  {
    GrownRefl(s, kd, live, d);
    if pages > 0 {
      assert InRange(vaddr / PAGE_SIZE, vaddr, pages);
      AllocStepAllocates(s, kd, live, d, vaddr, privilege);
      var (s2, st) := AllocStep(s, d, vaddr, privilege);
      if st == Ok {
        AllocRest(s, s2, kd, live, d, vaddr, pages, privilege);
      } else {
        AllocFails(s, s2, kd, live, d, vaddr, pages, privilege);
      }
    }
  }

  lemma AllocFails(s: State, s2: State, kd: nat, live: set<nat>, d: nat, vaddr: Word, pages: nat, privilege: nat)
    requires Grown(s, s2, kd, live, d) && s2.mem == s.mem
    requires 0 < pages && !PageMapped(s.mem, d, vaddr / PAGE_SIZE)
    ensures AllocResult(s, s2, NoMemory, kd, live, d, vaddr, pages, privilege)
  {
    assert InRange(vaddr / PAGE_SIZE, vaddr, pages);
  }

  lemma AllocRest(s: State, s2: State, kd: nat, live: set<nat>, d: nat, vaddr: Word, pages: nat, privilege: nat)
    requires 0 < pages && vaddr >= MEM_TASK_BASE && privilege < PAGE_SIZE && vaddr / PAGE_SIZE + pages <= 0x10_0000
    requires Grown(s, s2, kd, live, d) && Tight(s, s2, kd, live)
    requires forall n: nat :: InRange(n, vaddr, pages) ==> !PageMapped(s.mem, d, n)
    requires forall n: nat :: PageMapped(s2.mem, d, n) <==> PageMapped(s.mem, d, n) || n == vaddr / PAGE_SIZE
    requires PageEntry(s2.mem, d, vaddr / PAGE_SIZE) % PAGE_SIZE == PresentFlags(privilege)
    ensures var (s', st) := AllocForDir(s2, d, Truncate(vaddr + PAGE_SIZE), pages - 1, privilege);
            AllocResult(s, s', st, kd, live, d, vaddr, pages, privilege)
    decreases pages, 0
  {
    var next := Truncate(vaddr + PAGE_SIZE);
    var (s', st) := AllocForDir(s2, d, next, pages - 1, privilege);
    if pages == 1 {
      assert s' == s2 && st == Ok;
    } else {
      assert next / PAGE_SIZE == vaddr / PAGE_SIZE + 1;
      AllocForDirGrows(s2, kd, live, d, next, pages - 1, privilege);
      AllocChain(s, s2, s', st, kd, live, d, vaddr, next, pages, privilege);
    }
  }

  lemma AllocChain(s: State, s2: State, s': State, st: Status, kd: nat, live: set<nat>, d: nat, vaddr: Word, next: Word, pages: nat, privilege: nat)
    requires 0 < pages && next / PAGE_SIZE == vaddr / PAGE_SIZE + 1
    requires Grown(s, s2, kd, live, d) && Tight(s, s2, kd, live)
    requires forall n: nat :: PageMapped(s2.mem, d, n) <==> PageMapped(s.mem, d, n) || n == vaddr / PAGE_SIZE
    requires PageEntry(s2.mem, d, vaddr / PAGE_SIZE) % PAGE_SIZE == PresentFlags(privilege)
    requires AllocResult(s2, s', st, kd, live, d, next, pages - 1, privilege)
    ensures AllocResult(s, s', st, kd, live, d, vaddr, pages, privilege)
  {
    GrownTrans(s, s2, s', kd, live, d);
    if st == Ok {
      TightTrans(s, s2, s', kd, live, d);
    }
    assert forall n: nat :: InRange(n, vaddr, pages) <==> n == vaddr / PAGE_SIZE || InRange(n, next, pages - 1);
  }
}
