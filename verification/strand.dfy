/** How many frames memory_copy_uvm takes, when it fails, and when its failure leaves
    a frame allocated that nothing reaches. */
module Strand {
  import opened Mmu
  import opened Vm
  import opened Ownership
  import opened Mapping
  import opened Growth
  import opened PageAlloc
  import opened Copy
  import opened Destruction
  import opened Fork
  import opened Demand

  // ---------- What a copy takes ----------

  /** The number of mapped pages in slot `i` of `src`, from entry `j` on. */
  function TablePages(m: seq<Page>, src: nat, i: nat, j: nat): nat {
    |PagesFrom(m, src, i, j)|
  }

  function PagesFrom(m: seq<Page>, src: nat, i: nat, j: nat): set<nat> {
    set k: nat | j <= k < ENTRIES && UserPte(m, src, i, k)
  }

  lemma TablePagesStep(m: seq<Page>, src: nat, i: nat, j: nat)
    ensures j >= ENTRIES ==> TablePages(m, src, i, j) == 0
    ensures j < ENTRIES ==> TablePages(m, src, i, j) == TablePages(m, src, i, j + 1) + if UserPte(m, src, i, j) then 1 else 0
  {
    var here, rest := PagesFrom(m, src, i, j), PagesFrom(m, src, i, j + 1);
    if j >= ENTRIES {
      assert here == {};
    } else if UserPte(m, src, i, j) {
      assert here == rest + {j};
    } else {
      assert here == rest;
    }
  }

  /** A frame for each page, and one for the table unless it is there. */
  function WithTable(pages: nat, table: bool): nat {
    if pages == 0 then 0 else pages + if table then 0 else 1
  }

  /** The frames that copying slot `i` of `src` takes. */
  function SlotNeed(m: seq<Page>, src: nat, i: nat): nat {
    WithTable(TablePages(m, src, i, 0), false)
  }

  /** The frames taken by the user slots of `src` below `i`. */
  function NeedBelow(m: seq<Page>, src: nat, i: nat): nat
    decreases i, src
  {
    if i <= USER_PDE then 0 else NeedBelow(m, src, i - 1) + SlotNeed(m, src, i - 1)
  }

  /** Of `free` frames, after the directory and some slots one is left, for the first
      page of the next slot, and then none for the table that page needs. */
  ghost predicate Strands(m: seq<Page>, src: nat, free: nat) {
    exists i: nat :: USER_PDE <= i < ENTRIES && SlotNeed(m, src, i) > 0 && free == 1 + NeedBelow(m, src, i) + 1
  }

  lemma {:induction false} NeedMonotone(m: seq<Page>, src: nat, i: nat, k: nat)
    requires USER_PDE <= i <= k
    ensures NeedBelow(m, src, i) <= NeedBelow(m, src, k)
    decreases k - i
  {
    if i < k {
      NeedMonotone(m, src, i, k - 1);
    }
  }

  lemma SlotNeedIs(m: seq<Page>, src: nat, i: nat)
    ensures SlotNeed(m, src, i) == 0 || SlotNeed(m, src, i) >= 2
  {
  }

  lemma NotElsewhere(m: seq<Page>, src: nat, free: nat, i: nat, k: nat)
    requires USER_PDE <= i && NeedBelow(m, src, i) <= free < NeedBelow(m, src, i + 1)
    requires USER_PDE <= k && SlotNeed(m, src, k) > 0 && free == NeedBelow(m, src, k) + 1
    ensures k == i
  {
    SlotNeedIs(m, src, k);
    assert NeedBelow(m, src, k + 1) > free;
    if k < i {
      NeedMonotone(m, src, k + 1, i);
    } else if k > i {
      NeedMonotone(m, src, i + 1, k);
    }
  }

  /** The slot at which the frames run out decides. */
  lemma StrandsAt(m: seq<Page>, src: nat, free: nat, i: nat)
    requires USER_PDE <= i < ENTRIES && NeedBelow(m, src, i) <= free < NeedBelow(m, src, i + 1)
    ensures Strands(m, src, free + 1) <==> free == NeedBelow(m, src, i) + 1
  {
    if Strands(m, src, free + 1) {
      var k: nat :| USER_PDE <= k < ENTRIES && SlotNeed(m, src, k) > 0 && free + 1 == 1 + NeedBelow(m, src, k) + 1;
      NotElsewhere(m, src, free, i, k);
    }
    if free == NeedBelow(m, src, i) + 1 {
      assert SlotNeed(m, src, i) > 0;
    }
  }

  // ---------- How a copy fails ----------

  /** Frame `x` was allocated and nothing reaches it. */
  ghost predicate Stray(s: State, s': State, kd: nat, live: set<nat>, x: nat) {
    Used(s', x) && !Used(s, x) && Unreached(s', kd, live, x)
  }

  ghost predicate FailedAs(s: State, s': State, kd: nat, live: set<nat>, t: nat, stray: bool) {
    && Grown(s, s', kd, live, t)
    && (if stray then exists x: nat :: Stray(s, s', kd, live, x) else Tight(s, s', kd, live))
  }

  lemma MarkedIsStray(s0: State, s: State, s1: State, kd: nat, live: set<nat>, t: nat, x: nat)
    requires Grown(s0, s, kd, live, t) && Tight(s0, s, kd, live)
    requires Free(s, x) && s1 == State(s.mem, s.bits[x - FIRST_FRAME := true], s1.cursor)
    ensures FailedAs(s0, s1, kd, live, t, true)
  {
    MarkUsed(s, s1, kd, live, x);
    MarkGrows(s, s1, kd, live, t, x);
    GrownTrans(s0, s, s1, kd, live, t);
    assert Stray(s0, s1, kd, live, x);
  }

  // ---------- One entry ----------

  /** Mapping the new frame of one entry. */
  lemma CopyIntoCounts(s: State, s1: State, kd: nat, live: set<nat>, src: nat, t: nat, i: nat, j: nat, e: Word, x: nat)
    requires Inv(s, kd, live) && t in live && USER_PDE <= i < ENTRIES && j < ENTRIES && Present(e)
    requires !UserPte(s.mem, t, i, j) && PageTableVaddr(i, j) < 0x1_0000_0000
    requires Free(s, x) && s1 == State(s.mem, s.bits[x - FIRST_FRAME := true], s1.cursor)
    ensures var (s', st) := CopyInto(s1, src, t, PageTableVaddr(i, j), e, x * PAGE_SIZE);
            && (st == Ok <==> UserPde(s.mem, t, i) || FreeFrom(s1) > 0)
            && (st != Ok ==> s' == s1)
            && (st == Ok ==> FreeFrom(s') == FreeFrom(s1) - (StepNeed(s.mem, t, i) - 1) && TableAdded(s.mem, s'.mem, t, i))
  {
    var vaddr := PageTableVaddr(i, j);
    VaddrRoundTrip(i, j);
    MarkUsed(s, s1, kd, live, x);
    MapCounts(s1, kd, live, t, vaddr, x, Privilege(e));
    MapUserPage(s1, kd, live, t, vaddr, x, Privilege(e));
    var (s2, st) := MapPages(s1, t, vaddr, x * PAGE_SIZE, 1, Privilege(e));
    CopyIntoUnfolds(s1, s2, st, src, t, vaddr, e, x);
    assert Has(s.mem, kd, live, Root(t));
  }

  lemma CopyEntryCounts(s0: State, s: State, kd: nat, live: set<nat>, src: nat, t: nat, i: nat, j: nat)
    requires CopyInv(s0, s, kd, live, src, t, i, j) && UserPte(s0.mem, src, i, j)
    ensures var (s', st) := CopyEntry(s, src, t, i, j, Pte(s0.mem, src, i, j));
            && (st == Ok <==> FreeFrom(s) >= StepNeed(s.mem, t, i))
            && (st == Ok ==> FreeFrom(s') == FreeFrom(s) - StepNeed(s.mem, t, i) && TableAdded(s.mem, s'.mem, t, i))
            && (st != Ok ==> FailedAs(s0, s', kd, live, t, FreeFrom(s) == 1))
  {
    var e := Pte(s0.mem, src, i, j);
    CopyEntryAllocates(s, src, t, i, j, e);
    AllocPageCounts(s);
    assert !Before(i, j, i, j);
    var (s1, page) := AllocPage(s);
    if page != 0 {
      var x := page / PAGE_SIZE;
      CopyIntoCounts(s, s1, kd, live, src, t, i, j, e, x);
      MarkedIsStray(s0, s, s1, kd, live, t, x);
    }
  }

  // ---------- The two loops ----------

  /** Only slot `i` of `t` may have gained a table. */
  ghost predicate SlotsKept(m: seq<Page>, m': seq<Page>, t: nat, i: nat) {
    forall k: nat :: k != i ==> (UserPde(m', t, k) <==> UserPde(m, t, k))
  }

  ghost predicate TableCounted(s0: State, s: State, s': State, st: Status, kd: nat, live: set<nat>, t: nat, i: nat, pages: nat) {
    var need := WithTable(pages, UserPde(s.mem, t, i));
    && (st == Ok <==> FreeFrom(s) >= need)
    && (st == Ok ==> FreeFrom(s') == FreeFrom(s) - need && SlotsKept(s.mem, s'.mem, t, i))
    && (st != Ok ==> FailedAs(s0, s', kd, live, t, !UserPde(s.mem, t, i) && FreeFrom(s) == 1))
  }

  /** The count of the rest of a table, after one more entry. */
  lemma CountedStep(s0: State, s: State, s1: State, s': State, st: Status, kd: nat, live: set<nat>, t: nat, i: nat, pages: nat)
    requires FreeFrom(s) >= StepNeed(s.mem, t, i) && FreeFrom(s1) == FreeFrom(s) - StepNeed(s.mem, t, i)
    requires TableAdded(s.mem, s1.mem, t, i)
    requires TableCounted(s0, s1, s', st, kd, live, t, i, pages)
    ensures TableCounted(s0, s, s', st, kd, live, t, i, pages + 1)
  {
  }

  lemma TableEnds(s0: State, s: State, kd: nat, live: set<nat>, t: nat, i: nat)
    requires Grown(s0, s, kd, live, t)
    ensures TableCounted(s0, s, s, Ok, kd, live, t, i, 0)
  {
  }

  lemma EntryUnfolds(s0: State, s: State, kd: nat, live: set<nat>, src: nat, t: nat, i: nat, j: nat)
    requires CopyInv(s0, s, kd, live, src, t, i, j) && UserPde(s0.mem, src, i) && j < ENTRIES
    ensures var table := Tab(s0.mem, src, i);
            if !UserPte(s0.mem, src, i, j) then CopyTable(s, src, t, i, table, j) == CopyTable(s, src, t, i, table, j + 1)
            else
              var (s1, st) := CopyEntry(s, src, t, i, j, Pte(s0.mem, src, i, j));
              CopyTable(s, src, t, i, table, j) == if st == Ok then CopyTable(s1, src, t, i, table, j + 1) else (s1, st)
  {
    OthersKept(s0, s, kd, live, t, src);
  }

  lemma {:induction false} CopyTableCounts(s0: State, s: State, kd: nat, live: set<nat>, src: nat, t: nat, i: nat, j: nat)
    returns (s': State, st: Status)
    requires CopyInv(s0, s, kd, live, src, t, i, j) && UserPde(s0.mem, src, i)
    ensures (s', st) == CopyTable(s, src, t, i, Tab(s0.mem, src, i), j)
    ensures TableCounted(s0, s, s', st, kd, live, t, i, TablePages(s0.mem, src, i, j))
    decreases ENTRIES - j, 1
  {
    TablePagesStep(s0.mem, src, i, j);
    if j >= ENTRIES {
      s', st := s, Ok;
      TableEnds(s0, s, kd, live, t, i);
    } else if UserPte(s0.mem, src, i, j) {
      s', st := CountsFromEntry(s0, s, kd, live, src, t, i, j);
    } else {
      EntryUnfolds(s0, s, kd, live, src, t, i, j);
      SkipEntry(s0, s, kd, live, src, t, i, j);
      s', st := CopyTableCounts(s0, s, kd, live, src, t, i, j + 1);
    }
  }

  lemma CountsFromEntry(s0: State, s: State, kd: nat, live: set<nat>, src: nat, t: nat, i: nat, j: nat)
    returns (s': State, st: Status)
    requires CopyInv(s0, s, kd, live, src, t, i, j) && UserPte(s0.mem, src, i, j)
    ensures (s', st) == CopyTable(s, src, t, i, Tab(s0.mem, src, i), j)
    ensures TableCounted(s0, s, s', st, kd, live, t, i, TablePages(s0.mem, src, i, j + 1) + 1)
    decreases ENTRIES - j, 0
  {
    EntryUnfolds(s0, s, kd, live, src, t, i, j);
    s', st := CopyEntryStep(s0, s, kd, live, src, t, i, j);
    CopyEntryCounts(s0, s, kd, live, src, t, i, j);
    if st == Ok {
      var s1 := s';
      s', st := CopyTableCounts(s0, s1, kd, live, src, t, i, j + 1);
      CountedStep(s0, s, s1, s', st, kd, live, t, i, TablePages(s0.mem, src, i, j + 1));
    }
  }

  ghost predicate DirCounted(s0: State, s': State, st: Status, kd: nat, live: set<nat>, src: nat, t: nat, free: nat, all: nat) {
    && (st == Ok <==> free >= all)
    && (st != Ok ==> FailedAs(s0, s', kd, live, t, Strands(s0.mem, src, free + 1)))
  }

  /** Before slot `i` the target has no table from there on, and the slots below have
      taken what they need. */
  ghost predicate SlotsBelow(s0: State, s: State, kd: nat, live: set<nat>, src: nat, t: nat, i: nat, free: nat) {
    && CopyInv(s0, s, kd, live, src, t, i, 0) && USER_PDE <= i <= ENTRIES
    && (forall k: nat :: k >= i ==> !UserPde(s.mem, t, k))
    && FreeFrom(s) + NeedBelow(s0.mem, src, i) == free
  }

  lemma SlotSkipped(s0: State, s: State, kd: nat, live: set<nat>, src: nat, t: nat, i: nat, free: nat)
    requires SlotsBelow(s0, s, kd, live, src, t, i, free) && i < ENTRIES && !UserPde(s0.mem, src, i)
    ensures SlotsBelow(s0, s, kd, live, src, t, i + 1, free)
  {
    EmptySlot(s0.mem, src, i);
    NextTable(s0, s, kd, live, src, t, i, 0);
  }

  lemma SlotCopied(s0: State, s: State, kd: nat, live: set<nat>, src: nat, t: nat, i: nat, free: nat, all: nat)
    returns (s1: State, st: Status)
    requires SlotsBelow(s0, s, kd, live, src, t, i, free) && i < ENTRIES && UserPde(s0.mem, src, i)
    requires all >= NeedBelow(s0.mem, src, i + 1)
    ensures (s1, st) == CopyTable(s, src, t, i, Tab(s0.mem, src, i), 0)
    ensures st == Ok ==> SlotsBelow(s0, s1, kd, live, src, t, i + 1, free)
    ensures st != Ok ==> DirCounted(s0, s1, st, kd, live, src, t, free, all)
  {
    CopyTableCopies(s0, s, kd, live, src, t, i, 0);
    s1, st := CopyTableCounts(s0, s, kd, live, src, t, i, 0);
    assert NeedBelow(s0.mem, src, i + 1) == NeedBelow(s0.mem, src, i) + SlotNeed(s0.mem, src, i);
    if st != Ok {
      StrandsAt(s0.mem, src, free, i);
    }
  }

  lemma SlotAbsent(s0: State, s: State, kd: nat, live: set<nat>, src: nat, t: nat, i: nat)
    requires CopyInv(s0, s, kd, live, src, t, i, 0) && USER_PDE <= i < ENTRIES && !UserPde(s0.mem, src, i)
    ensures CopyDir(s, src, t, i) == CopyDir(s, src, t, i + 1)
  {
    OthersKept(s0, s, kd, live, t, src);
  }

  lemma SlotPresent(s0: State, s: State, kd: nat, live: set<nat>, src: nat, t: nat, i: nat, s1: State, st: Status)
    requires CopyInv(s0, s, kd, live, src, t, i, 0) && USER_PDE <= i < ENTRIES && UserPde(s0.mem, src, i)
    requires (s1, st) == CopyTable(s, src, t, i, Tab(s0.mem, src, i), 0)
    ensures CopyDir(s, src, t, i) == if st == Ok then CopyDir(s1, src, t, i + 1) else (s1, st)
  {
    OthersKept(s0, s, kd, live, t, src);
  }

  /** One slot, as a round of the outer loop. */
  lemma SlotTurn(s0: State, s: State, kd: nat, live: set<nat>, src: nat, t: nat, i: nat, free: nat, all: nat)
    returns (s1: State, st: Status)
    requires SlotsBelow(s0, s, kd, live, src, t, i, free) && i < ENTRIES && UserPde(s0.mem, src, i)
    requires all == NeedBelow(s0.mem, src, ENTRIES)
    ensures CopyDir(s, src, t, i) == if st == Ok then CopyDir(s1, src, t, i + 1) else (s1, st)
    ensures st == Ok ==> SlotsBelow(s0, s1, kd, live, src, t, i + 1, free)
    ensures st != Ok ==> DirCounted(s0, s1, st, kd, live, src, t, free, all)
  {
    NeedMonotone(s0.mem, src, i + 1, ENTRIES);
    s1, st := SlotCopied(s0, s, kd, live, src, t, i, free, all);
    SlotPresent(s0, s, kd, live, src, t, i, s1, st);
  }

  lemma {:induction false} CopyDirCounts(s0: State, s: State, kd: nat, live: set<nat>, src: nat, t: nat, i: nat, free: nat, all: nat)
    returns (s': State, st: Status)
    requires SlotsBelow(s0, s, kd, live, src, t, i, free) && all == NeedBelow(s0.mem, src, ENTRIES)
    ensures (s', st) == CopyDir(s, src, t, i)
    ensures DirCounted(s0, s', st, kd, live, src, t, free, all)
    decreases ENTRIES - i, 1
  {
    if i == ENTRIES {
      s', st := s, Ok;
    } else if UserPde(s0.mem, src, i) {
      s', st := CountsFrom(s0, s, kd, live, src, t, i, free, all);
    } else {
      SlotAbsent(s0, s, kd, live, src, t, i);
      SlotSkipped(s0, s, kd, live, src, t, i, free);
      s', st := CopyDirCounts(s0, s, kd, live, src, t, i + 1, free, all);
    }
  }

  lemma CountsFrom(s0: State, s: State, kd: nat, live: set<nat>, src: nat, t: nat, i: nat, free: nat, all: nat)
    returns (s': State, st: Status)
    requires SlotsBelow(s0, s, kd, live, src, t, i, free) && all == NeedBelow(s0.mem, src, ENTRIES)
    requires i < ENTRIES && UserPde(s0.mem, src, i)
    ensures (s', st) == CopyDir(s, src, t, i)
    ensures DirCounted(s0, s', st, kd, live, src, t, free, all)
    decreases ENTRIES - i, 0
  {
    s', st := SlotTurn(s0, s, kd, live, src, t, i, free, all);
    if st == Ok {
      s', st := CopyDirCounts(s0, s', kd, live, src, t, i + 1, free, all);
    }
  }

  lemma EmptySlot(m: seq<Page>, src: nat, i: nat)
    requires !UserPde(m, src, i)
    ensures SlotNeed(m, src, i) == 0
  {
    assert PagesFrom(m, src, i, 0) == {};
  }

  // ---------- The whole copy ----------

  lemma {:induction false} NeedSame(m: seq<Page>, m': seq<Page>, src: nat, i: nat)
    requires forall k: nat, j: nat :: UserPte(m', src, k, j) <==> UserPte(m, src, k, j)
    ensures NeedBelow(m', src, i) == NeedBelow(m, src, i)
    decreases i
  {
    if i > USER_PDE {
      assert PagesFrom(m', src, i - 1, 0) == PagesFrom(m, src, i - 1, 0);
      NeedSame(m, m', src, i - 1);
    }
  }

  lemma StrandsSame(m: seq<Page>, m': seq<Page>, src: nat, free: nat)
    requires forall i: nat :: NeedBelow(m', src, i) == NeedBelow(m, src, i)
    ensures Strands(m', src, free) <==> Strands(m, src, free)
  {
    forall i: nat | USER_PDE <= i ensures SlotNeed(m', src, i) == SlotNeed(m, src, i) {
      assert NeedBelow(m', src, i + 1) == NeedBelow(m, src, i + 1);
    }
  }

  lemma CreateUvmCounts(s: State, kd: nat)
    requires Shape(s)
    ensures var (s', page) := CreateUvm(s, kd);
            (page == 0 <==> FreeFrom(s) == 0) && (page != 0 ==> FreeFrom(s') == FreeFrom(s) - 1)
  {
    AllocPageCounts(s);
  }

  /** A frame that no space reaches is not freed with the copy. */
  lemma StrayStays(s: State, s0: State, s1: State, kd: nat, live: set<nat>, t: nat)
    requires Inv(s, kd, live) && Created(s, s0, kd, live, t)
    requires FailedAs(s0, s1, kd, live + {t}, t, true)
    ensures Destroy(s1, t).bits != s.bits
  {
    var all := live + {t};
    var x: nat :| Stray(s0, s1, kd, all, x);
    DestroyFreesOwned(s1, kd, all, t);
    assert !Owned(s1.mem, kd, all, t, x);
    assert Used(Destroy(s1, t), x) && !Used(s, x);
  }

  lemma NoneStays(s: State, s0: State, s1: State, kd: nat, live: set<nat>, src: nat, t: nat)
    requires Inv(s, kd, live) && src in live && Created(s, s0, kd, live, t)
    requires FailedAs(s0, s1, kd, live + {t}, t, false)
    ensures Destroy(s1, t).bits == s.bits
  {
    var all := live + {t};
    var s2 := Destroy(s1, t);
    DestroyFreesOwned(s1, kd, all, t);
    forall k: nat | k < |s.bits| ensures s2.bits[k] == s.bits[k] {
      ForkUsed(s, s0, s1, kd, live, src, t, k + FIRST_FRAME);
      GrownUsed(s, s0, s1, kd, live, src, t, k + FIRST_FRAME, 0);
      assert Used(s2, k + FIRST_FRAME) == s2.bits[k];
      assert Used(s, k + FIRST_FRAME) == s.bits[k];
    }
  }

  /** memory_copy_uvm succeeds if and only if there is a frame for the directory, one
      for each mapped page of the source, and one for each slot that holds such a page. */
  lemma CopyUvmIff(s: State, kd: nat, live: set<nat>, src: nat)
    requires Inv(s, kd, live) && src in live
    ensures CopyUvm(s, kd, src).1 == Ok <==> FreeFrom(s) >= 1 + NeedBelow(s.mem, src, ENTRIES)
  {
    CopyRuns(s, kd, live, src);
  }

  /** A failed copy leaves a frame behind if and only if the first request that cannot
      be met is for a table; otherwise every frame it took is free again. */
  lemma FailedCopyStrandsIff(s: State, kd: nat, live: set<nat>, src: nat)
    requires Inv(s, kd, live) && src in live
    requires CopyUvm(s, kd, src).2 == 0
    ensures CopyUvm(s, kd, src).0.bits != s.bits <==> Strands(s.mem, src, FreeFrom(s))
  {
    CopyRuns(s, kd, live, src);
  }

  lemma CopyRuns(s: State, kd: nat, live: set<nat>, src: nat)
    requires Inv(s, kd, live) && src in live
    ensures var (s', st, page) := CopyUvm(s, kd, src);
            && (st == Ok <==> FreeFrom(s) >= 1 + NeedBelow(s.mem, src, ENTRIES))
            && (st == Ok <==> page != 0)
            && (st != Ok ==> (s'.bits != s.bits <==> Strands(s.mem, src, FreeFrom(s))))
  {
    CreateUvmCreates(s, kd, live);
    CreateUvmCounts(s, kd);
    var (s0, page) := CreateUvm(s, kd);
    if page != 0 {
      var t := page / PAGE_SIZE;
      var s1, st := CopyOfSlots(s, s0, kd, live, src, t);
    }
  }

  lemma CopyOfSlots(s: State, s0: State, kd: nat, live: set<nat>, src: nat, t: nat) returns (s1: State, st: Status)
    requires Inv(s, kd, live) && src in live && Created(s, s0, kd, live, t) && FreeFrom(s0) == FreeFrom(s) - 1
    ensures (s1, st) == CopyDir(s0, src, t, USER_PDE)
    ensures st == Ok <==> FreeFrom(s) >= 1 + NeedBelow(s.mem, src, ENTRIES)
    ensures st != Ok ==> (Destroy(s1, t).bits != s.bits <==> Strands(s.mem, src, FreeFrom(s)))
  {
    CreatedStartsCopy(s, s0, kd, live, src, t);
    s1, st := CopyDirCounts(s0, s0, kd, live + {t}, src, t, USER_PDE, FreeFrom(s0), NeedBelow(s0.mem, src, ENTRIES));
    forall i: nat ensures NeedBelow(s0.mem, src, i) == NeedBelow(s.mem, src, i) {
      NeedSame(s.mem, s0.mem, src, i);
    }
    StrandsSame(s.mem, s0.mem, src, FreeFrom(s));
    if st != Ok {
      if Strands(s0.mem, src, FreeFrom(s)) {
        StrayStays(s, s0, s1, kd, live, t);
      } else {
        NoneStays(s, s0, s1, kd, live, src, t);
      }
    }
  }
}
