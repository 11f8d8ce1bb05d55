/** How many frames a request takes, and what becomes of it: the outcome of
    memory_alloc_for_page_dir read off the state before the call. */
module Demand {
  import opened Mmu
  import opened Vm
  import opened Ownership
  import opened Mapping
  import opened PageAlloc

  // ---------- What the allocator has left ----------

  function Clear(bits: seq<bool>, from: nat): nat
    decreases |bits| - from
  {
    if from >= |bits| then 0 else (if bits[from] then 0 else 1) + Clear(bits, from + 1)
  }

  /** The frames that can still be handed out: those free at or after the cursor. */
  function FreeFrom(s: State): nat {
    Clear(s.bits, s.cursor)
  }

  lemma {:induction false} ClearSkip(bits: seq<bool>, from: nat, end: nat)
    requires from <= end <= |bits| && forall k :: from <= k < end ==> bits[k]
    ensures Clear(bits, from) == Clear(bits, end)
    decreases end - from
  {
    if from < end {
      ClearSkip(bits, from + 1, end);
    }
  }

  lemma {:induction false} ClearSame(bits: seq<bool>, bits': seq<bool>, from: nat)
    requires |bits'| == |bits| && forall k :: from <= k < |bits| ==> bits'[k] == bits[k]
    ensures Clear(bits', from) == Clear(bits, from)
    decreases |bits| - from
  {
    if from < |bits| {
      ClearSame(bits, bits', from + 1);
    }
  }

  /** A request for one frame fails exactly when none is left, and takes one. */
  lemma AllocPageCounts(s: State)
    requires Shape(s)
    ensures var (s', page) := AllocPage(s);
            (page == 0 <==> FreeFrom(s) == 0) && (page != 0 ==> FreeFrom(s') == FreeFrom(s) - 1)
  {
    AllocPageFresh(s);
    var (s', page) := AllocPage(s);
    if page == 0 {
      if s.cursor < |s.bits| {
        ClearSkip(s.bits, s.cursor, |s.bits|);
      }
    } else {
      var k := page / PAGE_SIZE - FIRST_FRAME;
      ClearSkip(s.bits, s.cursor, k);
      ClearSame(s.bits, s'.bits, k + 1);
    }
  }

  // ---------- What a range of pages takes ----------

  /** Directory slots from `lo` to below `hi` that have no table. */
  function MissingTables(m: seq<Page>, d: nat, lo: nat, hi: nat): nat
    decreases hi - lo
  {
    if lo >= hi then 0 else (if UserPde(m, d, lo) then 0 else 1) + MissingTables(m, d, lo + 1, hi)
  }

  /** The frames that mapping `pages` pages from page `n` on takes: one for each page,
      and one for each directory slot of the range without a table. */
  function Need(m: seq<Page>, d: nat, n: nat, pages: nat): nat {
    if pages == 0 then 0 else pages + MissingTables(m, d, n / ENTRIES, (n + pages - 1) / ENTRIES + 1)
  }

  function StepNeed(m: seq<Page>, d: nat, i: nat): nat {
    if UserPde(m, d, i) then 1 else 2
  }

  /** The number of unmapped pages before the first mapped one, or all of them. */
  function FirstMapped(m: seq<Page>, d: nat, n: nat, pages: nat): (q: nat)
    ensures q <= pages && (q < pages ==> PageMapped(m, d, n + q))
    ensures forall k :: n <= k < n + q ==> !PageMapped(m, d, k)
    decreases pages
  {
    if pages == 0 || PageMapped(m, d, n) then 0 else 1 + FirstMapped(m, d, n + 1, pages - 1)
  }

  /** What becomes of a request for `pages` pages from page `n` on with `free` frames
      left: it runs out, or it meets a mapped page with a frame in hand, or it is
      met. */
  function Outcome(m: seq<Page>, d: nat, free: nat, n: nat, pages: nat): Status {
    var q := FirstMapped(m, d, n, pages);
    Verdict(free, Need(m, d, n, q), q == pages)
  }

  function Verdict(free: nat, need: nat, all: bool): Status {
    if free < need then NoMemory else if all then Ok else if free > need then Panic else NoMemory
  }

  /** `m'` is `m` with a table in slot `i` of `d`. */
  ghost predicate TableAdded(m: seq<Page>, m': seq<Page>, d: nat, i: nat) {
    USER_PDE <= i < ENTRIES && forall k: nat :: UserPde(m', d, k) <==> UserPde(m, d, k) || k == i
  }

  lemma {:induction false} MissingAfter(m: seq<Page>, m': seq<Page>, d: nat, i: nat, lo: nat, hi: nat)
    requires TableAdded(m, m', d, i)
    ensures MissingTables(m, d, lo, hi) == MissingTables(m', d, lo, hi) + if lo <= i < hi && !UserPde(m, d, i) then 1 else 0
    decreases hi - lo
  {
    if lo < hi {
      MissingAfter(m, m', d, i, lo + 1, hi);
    }
  }

  /** After its first page, a range takes that much less. */
  lemma NeedStep(m: seq<Page>, m': seq<Page>, d: nat, n: nat, pages: nat)
    requires pages > 0 && TableAdded(m, m', d, n / ENTRIES)
    ensures Need(m, d, n, pages) == StepNeed(m, d, n / ENTRIES) + Need(m', d, n + 1, pages - 1)
  {
    var lo, hi := n / ENTRIES, (n + pages - 1) / ENTRIES + 1;
    MissingAfter(m, m', d, lo, lo, hi);
    if pages == 1 {
      assert MissingTables(m', d, lo + 1, hi) == 0;
    } else {
      assert (n + 1) / ENTRIES == lo || (n + 1) / ENTRIES == lo + 1;
      assert MissingTables(m', d, lo, hi) == MissingTables(m', d, lo + 1, hi);
    }
  }

  lemma {:induction false} FirstMappedSame(m: seq<Page>, m': seq<Page>, d: nat, n: nat, pages: nat)
    requires forall k: nat :: k >= n ==> (PageMapped(m', d, k) <==> PageMapped(m, d, k))
    ensures FirstMapped(m', d, n, pages) == FirstMapped(m, d, n, pages)
    decreases pages
  {
    if pages > 0 {
      FirstMappedSame(m, m', d, n + 1, pages - 1);
    }
  }

  lemma FirstMappedNext(m: seq<Page>, m': seq<Page>, d: nat, n: nat, pages: nat)
    requires pages > 0 && !PageMapped(m, d, n)
    requires forall k: nat :: k > n ==> (PageMapped(m', d, k) <==> PageMapped(m, d, k))
    ensures FirstMapped(m, d, n, pages) == FirstMapped(m', d, n + 1, pages - 1) + 1
  {
    FirstMappedSame(m, m', d, n + 1, pages - 1);
  }

  /** Pages before the first mapped one do not count. */
  lemma {:induction false} NoneMapped(m: seq<Page>, d: nat, n: nat, q: nat, pages: nat)
    requires q <= pages && forall k: nat :: n <= k < n + q ==> !PageMapped(m, d, k)
    ensures FirstMapped(m, d, n, pages) == q + FirstMapped(m, d, n + q, pages - q)
    decreases q
  {
    if q > 0 {
      assert !PageMapped(m, d, n);
      NoneMapped(m, d, n + 1, q - 1, pages - 1);
    }
  }

  // ---------- One round ----------

  /** Mapping one page takes a frame for the table if there is none. */
  lemma MapCounts(s: State, kd: nat, live: set<nat>, d: nat, vaddr: Word, x: nat, privilege: nat)
    requires Inv(s, kd, live) && d in live && vaddr >= MEM_TASK_BASE && privilege < PAGE_SIZE
    requires !UserPte(s.mem, d, PdeIndex(vaddr), PteIndex(vaddr))
    requires Used(s, x) && Unreached(s, kd, live, x)
    ensures var (s', st) := MapPages(s, d, vaddr, x * PAGE_SIZE, 1, privilege);
            && (st == Ok <==> UserPde(s.mem, d, PdeIndex(vaddr)) || FreeFrom(s) > 0)
            && (st == Ok ==> FreeFrom(s') == FreeFrom(s) - (StepNeed(s.mem, d, PdeIndex(vaddr)) - 1) &&
                             TableAdded(s.mem, s'.mem, d, PdeIndex(vaddr)))
  {
    IndexRanges(vaddr);
    PteValueFields(x, privilege);
    MapUserPage(s, kd, live, d, vaddr, x, privilege);
    var v: Word := PteValue(x * PAGE_SIZE, privilege);
    MapPagesOne(s, d, vaddr, x * PAGE_SIZE, privilege, v);
    AllocPageCounts(s);
    var (s', st) := MapPages(s, d, vaddr, x * PAGE_SIZE, 1, privilege);
    if st == Ok {
      forall k: nat ensures UserPde(s'.mem, d, k) <==> UserPde(s.mem, d, k) || k == PdeIndex(vaddr) {
        assert Has(s'.mem, kd, live, Table(d, k)) <==> UserPde(s'.mem, d, k);
        assert Has(s.mem, kd, live, Table(d, k)) <==> UserPde(s.mem, d, k);
      }
    }
  }

  /** A round of memory_alloc_for_page_dir on an unmapped page. */
  lemma StepCounts(s: State, kd: nat, live: set<nat>, d: nat, vaddr: Word, privilege: nat)
    requires Inv(s, kd, live) && d in live && vaddr >= MEM_TASK_BASE && privilege < PAGE_SIZE
    requires !PageMapped(s.mem, d, vaddr / PAGE_SIZE)
    ensures var (s', st) := AllocStep(s, d, vaddr, privilege);
            var i := vaddr / PAGE_SIZE / ENTRIES;
            && st != Panic && (st == Ok <==> FreeFrom(s) >= StepNeed(s.mem, d, i))
            && (st == Ok ==> FreeFrom(s') == FreeFrom(s) - StepNeed(s.mem, d, i) && TableAdded(s.mem, s'.mem, d, i))
  {
    IndexRanges(vaddr);
    AllocPageFresh(s);
    AllocPageCounts(s);
    var (s1, page) := AllocPage(s);
    if page != 0 {
      var x := page / PAGE_SIZE;
      assert Truncate(page) == x * PAGE_SIZE;
      MarkUsed(s, s1, kd, live, x);
      MapCounts(s1, kd, live, d, vaddr, x, privilege);
      MapUserPage(s1, kd, live, d, vaddr, x, privilege);
    }
  }

  /** Page `n`, of the user or the kernel half, has a present entry. */
  predicate PresentPage(m: seq<Page>, d: nat, n: nat) {
    Present(Entry(m, d, n / ENTRIES)) && Present(Pte(m, d, n / ENTRIES, n % ENTRIES))
  }

  /** A round on a page that is mapped stops at the ASSERT, unless no frame is left. */
  lemma StepPanics(s: State, d: nat, vaddr: Word, privilege: nat)
    requires Shape(s) && PresentPage(s.mem, d, vaddr / PAGE_SIZE)
    ensures AllocStep(s, d, vaddr, privilege).1 == if FreeFrom(s) > 0 then Panic else NoMemory
  {
    IndexRanges(vaddr);
    AllocPageFresh(s);
    AllocPageCounts(s);
    var (s1, page) := AllocPage(s);
    if page != 0 {
      assert FindPte(s1, d, vaddr, true) == (s1, Ref(Tab(s1.mem, d, PdeIndex(vaddr)), PteIndex(vaddr)));
      assert MapPages(s1, d, vaddr, Truncate(page), 1, privilege) == (s1, Panic);
    }
  }

  lemma VerdictStep(free: nat, free': nat, step: nat, need: nat, all: bool)
    requires free' + step == free
    ensures Verdict(free', need, all) == Verdict(free, step + need, all)
  {
  }

  /** The outcome of the rest of a request after its first page. */
  lemma OutcomeStep(s: State, s2: State, d: nat, n: nat, pages: nat)
    requires pages > 0 && !PageMapped(s.mem, d, n)
    requires TableAdded(s.mem, s2.mem, d, n / ENTRIES)
    requires forall k: nat :: PageMapped(s2.mem, d, k) <==> PageMapped(s.mem, d, k) || k == n
    requires FreeFrom(s) >= StepNeed(s.mem, d, n / ENTRIES)
    requires FreeFrom(s2) == FreeFrom(s) - StepNeed(s.mem, d, n / ENTRIES)
    ensures Outcome(s2.mem, d, FreeFrom(s2), n + 1, pages - 1) == Outcome(s.mem, d, FreeFrom(s), n, pages)
  {
    var q, q' := FirstMapped(s.mem, d, n, pages), FirstMapped(s2.mem, d, n + 1, pages - 1);
    FirstMappedNext(s.mem, s2.mem, d, n, pages);
    var step, rest := StepNeed(s.mem, d, n / ENTRIES), Need(s2.mem, d, n + 1, q');
    NeedStep(s.mem, s2.mem, d, n, q);
    VerdictStep(FreeFrom(s), FreeFrom(s2), step, rest, q' == pages - 1);
  }

  lemma OutcomeFails(m: seq<Page>, d: nat, free: nat, n: nat, pages: nat)
    requires pages > 0 && !PageMapped(m, d, n) && free < StepNeed(m, d, n / ENTRIES)
    ensures Outcome(m, d, free, n, pages) == NoMemory
  {
    var q := FirstMapped(m, d, n, pages);
    assert q >= 1;
    assert (n + q - 1) / ENTRIES >= n / ENTRIES;
  }

  /** A round on an unmapped page, against the outcome of the whole request. */
  lemma Round(s: State, kd: nat, live: set<nat>, d: nat, vaddr: Word, n: nat, pages: nat, privilege: nat)
    returns (s2: State, st: Status)
    requires Inv(s, kd, live) && d in live && vaddr >= MEM_TASK_BASE && privilege < PAGE_SIZE
    requires n == vaddr / PAGE_SIZE && pages > 0 && !PageMapped(s.mem, d, n)
    ensures (s2, st) == AllocStep(s, d, vaddr, privilege)
    ensures st == Ok ==> Inv(s2, kd, live)
    ensures st == Ok ==> Outcome(s2.mem, d, FreeFrom(s2), n + 1, pages - 1) == Outcome(s.mem, d, FreeFrom(s), n, pages)
    ensures st != Ok ==> st == Outcome(s.mem, d, FreeFrom(s), n, pages)
  {
    StepCounts(s, kd, live, d, vaddr, privilege);
    AllocStepAllocates(s, kd, live, d, vaddr, privilege);
    s2, st := StepResult(s, d, vaddr, privilege);
    if st == Ok {
      OutcomeStep(s, s2, d, n, pages);
    } else {
      OutcomeFails(s.mem, d, FreeFrom(s), n, pages);
    }
  }

  lemma StepResult(s: State, d: nat, vaddr: Word, privilege: nat) returns (s2: State, st: Status)
    ensures (s2, st) == AllocStep(s, d, vaddr, privilege)
  {
    var r := AllocStep(s, d, vaddr, privilege);
    s2, st := r.0, r.1;
  }

  lemma Unfolds(s: State, d: nat, vaddr: Word, next: Word, pages: nat, privilege: nat, s2: State, st: Status)
    requires pages > 0 && (s2, st) == AllocStep(s, d, vaddr, privilege) && next == Truncate(vaddr + PAGE_SIZE)
    ensures AllocForDir(s, d, vaddr, pages, privilege).1 ==
            if st == Ok then AllocForDir(s2, d, next, pages - 1, privilege).1 else st
  {
  }

  lemma NextPage(vaddr: Word, n: nat) returns (next: Word)
    requires MEM_TASK_BASE <= vaddr && n == vaddr / PAGE_SIZE
    ensures next == Truncate(vaddr + PAGE_SIZE)
    ensures n + 1 < 0x10_0000 ==> next >= MEM_TASK_BASE && next / PAGE_SIZE == n + 1
  {
    next := Truncate(vaddr + PAGE_SIZE);
  }

  lemma NothingLeft(s: State, d: nat, vaddr: Word, n: nat, privilege: nat)
    ensures AllocForDir(s, d, vaddr, 0, privilege).1 == Outcome(s.mem, d, FreeFrom(s), n, 0)
  {
  }

  lemma OutcomeMapped(m: seq<Page>, d: nat, free: nat, n: nat, pages: nat)
    requires pages > 0 && PageMapped(m, d, n)
    ensures Outcome(m, d, free, n, pages) == if free > 0 then Panic else NoMemory
  {
  }

  /** memory_alloc_for_page_dir: whether it maps the range from page `n` on, runs out of
      frames, or stops at the ASSERT is decided by the frames left and the entries of
      the directory. */
  lemma {:induction false} AllocForDirStatus(s: State, kd: nat, live: set<nat>, d: nat, vaddr: Word, n: nat, pages: nat, privilege: nat)
    requires Inv(s, kd, live) && d in live && vaddr >= MEM_TASK_BASE && privilege < PAGE_SIZE
    requires n == vaddr / PAGE_SIZE && n + pages <= 0x10_0000
    ensures AllocForDir(s, d, vaddr, pages, privilege).1 == Outcome(s.mem, d, FreeFrom(s), n, pages)
    decreases pages
  {
    if pages == 0 {
      NothingLeft(s, d, vaddr, n, privilege);
    } else {
      var next := NextPage(vaddr, n);
      if PageMapped(s.mem, d, n) {
        OutcomeMapped(s.mem, d, FreeFrom(s), n, pages);
        StepPanics(s, d, vaddr, privilege);
        var s2, st := StepResult(s, d, vaddr, privilege);
        Unfolds(s, d, vaddr, next, pages, privilege, s2, st);
      } else {
        var s2, st := Round(s, kd, live, d, vaddr, n, pages, privilege);
        Unfolds(s, d, vaddr, next, pages, privilege, s2, st);
        if st == Ok && pages == 1 {
          NothingLeft(s2, d, next, n + 1, privilege);
        } else if st == Ok {
          AllocForDirStatus(s2, kd, live, d, next, n + 1, pages - 1, privilege);
        }
      }
    }
  }

  /** On unmapped pages: every page of the range ends up mapped if and only if there is a
      frame for each page and for each directory slot of the range without a table. */
  lemma AllocForDirIff(s: State, kd: nat, live: set<nat>, d: nat, vaddr: Word, pages: nat, privilege: nat)
    requires Inv(s, kd, live) && d in live && vaddr >= MEM_TASK_BASE && privilege < PAGE_SIZE
    requires vaddr / PAGE_SIZE + pages <= 0x10_0000
    requires forall n: nat :: InRange(n, vaddr, pages) ==> !PageMapped(s.mem, d, n)
    ensures var (s', st) := AllocForDir(s, d, vaddr, pages, privilege);
            && (st == Ok <==> FreeFrom(s) >= Need(s.mem, d, vaddr / PAGE_SIZE, pages))
            && ((forall n: nat :: InRange(n, vaddr, pages) ==> PageMapped(s'.mem, d, n)) <==>
                  FreeFrom(s) >= Need(s.mem, d, vaddr / PAGE_SIZE, pages))
  {
    AllocForDirStatus(s, kd, live, d, vaddr, vaddr / PAGE_SIZE, pages, privilege);
    AllocForDirGrows(s, kd, live, d, vaddr, pages, privilege);
    NoneMapped(s.mem, d, vaddr / PAGE_SIZE, pages, pages);
  }
}
