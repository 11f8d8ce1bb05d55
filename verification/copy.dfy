/** memory_create_uvm and memory_copy_uvm: the copy is a faithful image of the
    source, in frames of its own, and the source does not change. */
module Copy {
  import opened Mmu
  import opened Vm
  import opened Ownership
  import opened Growth
  import opened PageAlloc

  /** The contents of user page (i, j) of `d`. */
  function PageAt(m: seq<Page>, d: nat, i: nat, j: nat): Page {
    var f := FrameOf(Pte(m, d, i, j));
    if f < |m| then m[f] else ZeroPage()
  }

  // ---------- memory_create_uvm ----------

  /** `t` is a new address space: one frame that was free, the kernel half of the
      directory shared, the user half empty, all other frames as they were. */
  ghost predicate Created(s: State, s': State, kd: nat, live: set<nat>, t: nat) {
    && Inv(s', kd, live + {t}) && t !in live && Free(s, t)
    && (forall i: nat :: !UserPde(s'.mem, t, i))
    && (forall p :: Has(s'.mem, kd, live + {t}, p) <==> Has(s.mem, kd, live, p) || p == Root(t))
    && (forall p :: Has(s.mem, kd, live, p) ==> At(s'.mem, kd, p) == At(s.mem, kd, p))
    && s'.bits == s.bits[t - FIRST_FRAME := true] && |s'.mem| == |s.mem|
    && (forall f: nat :: f < |s.mem| && f != t ==> s'.mem[f] == s.mem[f])
  }

  lemma CreatedPath(s: State, s': State, kd: nat, live: set<nat>, t: nat, p: Path)
    requires Inv(s, kd, live) && Free(s, t) && s'.mem == SetPage(s.mem, t, FreshDir(s.mem, kd))
    ensures Has(s'.mem, kd, live + {t}, p) <==> Has(s.mem, kd, live, p) || p == Root(t)
    ensures Has(s.mem, kd, live, p) ==> At(s'.mem, kd, p) == At(s.mem, kd, p)
  {
    FramesOfPath(s, kd, live, p);
    FramesOfPath(s, kd, live, Root(t));
  }

  lemma CreateUvmCreates(s: State, kd: nat, live: set<nat>)
    requires Inv(s, kd, live)
    ensures var (s', page) := CreateUvm(s, kd);
            if page == 0 then s' == s
            else page == page / PAGE_SIZE * PAGE_SIZE && Created(s, s', kd, live, page / PAGE_SIZE)
  {
    AllocPageFresh(s);
    var (s', page) := CreateUvm(s, kd);
    if page != 0 {
      var t := page / PAGE_SIZE;
      FramesOfPath(s, kd, live, Root(t));
      forall p
        ensures Has(s'.mem, kd, live + {t}, p) <==> Has(s.mem, kd, live, p) || p == Root(t)
        ensures Has(s.mem, kd, live, p) ==> At(s'.mem, kd, p) == At(s.mem, kd, p)
      {
        CreatedPath(s, s', kd, live, t, p);
      }
      forall d, i: nat | d in live + {t} && i < USER_PDE ensures Entry(s'.mem, d, i) == Entry(s'.mem, kd, i) {
        if d != t {
          FramesOfPath(s, kd, live, Root(d));
          assert Entry(s.mem, d, i) == Entry(s.mem, kd, i);
        }
      }
      forall d, i: nat | d in live + {t} && UserPde(s'.mem, d, i) ensures TableBits(s'.mem, d, i) == 7 {
        FramesOfPath(s, kd, live, Root(d));
        assert TableBits(s.mem, d, i) == TableBits(s'.mem, d, i);
      }
    }
  }

  // ---------- What growing one space leaves alone ----------

  lemma FrameUntouched(s: State, s': State, kd: nat, live: set<nat>, d: nat, p: Path)
    requires Grown(s, s', kd, live, d) && Has(s.mem, kd, live, p)
    requires p.Leaf? || (!p.KernelTable? && p.dir != d)
    ensures s'.mem[At(s.mem, kd, p)] == s.mem[At(s.mem, kd, p)]
  {
    var f := At(s.mem, kd, p);
    if s'.mem[f] != s.mem[f] {
      assert Has(s.mem, kd, live, Root(d));
      assert f == d || OwnTable(s.mem, d, f);
      if f != d {
        var i: nat :| UserPde(s.mem, d, i) && Tab(s.mem, d, i) == f;
        assert Has(s.mem, kd, live, Table(d, i));
      }
      assert false;
    }
  }

  /** The pages of every space keep their contents, and the other spaces keep
      their directory and table entries, mapped or not. */
  lemma OthersKept(s: State, s': State, kd: nat, live: set<nat>, d: nat, o: nat)
    requires Grown(s, s', kd, live, d) && o in live
    ensures forall i: nat, j: nat :: UserPte(s.mem, o, i, j) ==> PageAt(s'.mem, o, i, j) == PageAt(s.mem, o, i, j)
    ensures o != d ==> forall i: nat :: Entry(s'.mem, o, i) == Entry(s.mem, o, i)
    ensures o != d ==> forall i: nat, j: nat :: UserPde(s.mem, o, i) ==> Pte(s'.mem, o, i, j) == Pte(s.mem, o, i, j)
  {
    forall i: nat, j: nat | UserPte(s.mem, o, i, j) ensures PageAt(s'.mem, o, i, j) == PageAt(s.mem, o, i, j) {
      assert Has(s.mem, kd, live, Leaf(o, i, j));
      FrameUntouched(s, s', kd, live, d, Leaf(o, i, j));
    }
    if o != d {
      assert Has(s.mem, kd, live, Root(o));
      FrameUntouched(s, s', kd, live, d, Root(o));
      forall i: nat, j: nat | UserPde(s.mem, o, i) ensures Pte(s'.mem, o, i, j) == Pte(s.mem, o, i, j) {
        assert Has(s.mem, kd, live, Table(o, i));
        FrameUntouched(s, s', kd, live, d, Table(o, i));
      }
    }
  }

  // ---------- memory_copy_uvm ----------

  predicate Before(i': nat, j': nat, i: nat, j: nat) {
    i' < i || (i' == i && j' < j)
  }

  /** Page (i, j) of `t` in `m` is mapped exactly when page (i, j) of `src` is in
      `m0`, with the same low ten flag bits and the same contents. */
  predicate SamePage(m0: seq<Page>, m: seq<Page>, src: nat, t: nat, i: nat, j: nat) {
    && (UserPte(m, t, i, j) <==> UserPte(m0, src, i, j))
    && (UserPte(m0, src, i, j) ==>
          Privilege(Pte(m, t, i, j)) == Privilege(Pte(m0, src, i, j)) &&
          PageAt(m, t, i, j) == PageAt(m0, src, i, j))
  }

  /** The two nested loops have handled everything before (i, j). */
  ghost predicate CopyInv(s0: State, s: State, kd: nat, live: set<nat>, src: nat, t: nat, i: nat, j: nat) {
    && src in live && src != t
    && (forall i': nat :: !UserPde(s0.mem, t, i'))
    && Grown(s0, s, kd, live, t) && Tight(s0, s, kd, live)
    && (forall i': nat, j': nat :: Before(i', j', i, j) ==> SamePage(s0.mem, s.mem, src, t, i', j'))
    && (forall i': nat, j': nat :: !Before(i', j', i, j) ==> !UserPte(s.mem, t, i', j'))
  }

  /** A page that the source does not map needs no work. */
  lemma SkipEntry(s0: State, s: State, kd: nat, live: set<nat>, src: nat, t: nat, i: nat, j: nat)
    requires CopyInv(s0, s, kd, live, src, t, i, j) && !UserPte(s0.mem, src, i, j)
    ensures CopyInv(s0, s, kd, live, src, t, i, j + 1)
  {
    forall i': nat, j': nat | Before(i', j', i, j + 1) ensures SamePage(s0.mem, s.mem, src, t, i', j') {
      assert Before(i', j', i, j) || (i', j') == (i, j);
      assert !Before(i, j, i, j);
    }
    forall i': nat, j': nat | !Before(i', j', i, j + 1) ensures !UserPte(s.mem, t, i', j') {
      assert !Before(i', j', i, j);
    }
  }

  /** The next table begins when all entries of this one are done. */
  lemma NextTable(s0: State, s: State, kd: nat, live: set<nat>, src: nat, t: nat, i: nat, j: nat)
    requires CopyInv(s0, s, kd, live, src, t, i, j) && i < ENTRIES
    requires j >= ENTRIES || !UserPde(s0.mem, src, i)
    ensures CopyInv(s0, s, kd, live, src, t, i + 1, 0)
  {
    forall i': nat, j': nat | Before(i', j', i + 1, 0) ensures SamePage(s0.mem, s.mem, src, t, i', j') {
      if !Before(i', j', i, j) {
        assert !UserPte(s.mem, t, i', j') && !UserPte(s0.mem, src, i', j');
      }
    }
    forall i': nat, j': nat | !Before(i', j', i + 1, 0) ensures !UserPte(s.mem, t, i', j') {
      assert !Before(i', j', i, j);
    }
  }

  /** A page added with the source's flags and contents is a copied page. */
  lemma CopiedPage(s0: State, s: State, s3: State, kd: nat, live: set<nat>, src: nat, t: nat, i: nat, j: nat, x: nat, v: Word)
    requires CopyInv(s0, s, kd, live, src, t, i, j) && UserPte(s0.mem, src, i, j)
    requires PageAdded(s, s3, kd, live, t, i, j, x, v)
    requires Privilege(v) == Privilege(Pte(s0.mem, src, i, j)) && PageAt(s3.mem, t, i, j) == PageAt(s0.mem, src, i, j)
    ensures CopyInv(s0, s3, kd, live, src, t, i, j + 1)
  {
    GrownTrans(s0, s, s3, kd, live, t);
    TightTrans(s0, s, s3, kd, live, t);
    OthersKept(s, s3, kd, live, t, t);
    forall i': nat, j': nat | Before(i', j', i, j + 1) ensures SamePage(s0.mem, s3.mem, src, t, i', j') {
      if (i', j') != (i, j) {
        assert Before(i', j', i, j);
        assert SamePage(s0.mem, s.mem, src, t, i', j');
      }
    }
    forall i': nat, j': nat | !Before(i', j', i, j + 1) ensures !UserPte(s3.mem, t, i', j') {
      assert !Before(i', j', i, j);
    }
  }

  /** All but at most one of the newly allocated frames are reached. */
  ghost predicate AlmostTight(s: State, s': State, kd: nat, live: set<nat>) {
    exists x: nat :: TightBut(s, s', kd, live, x)
  }

  ghost predicate TightBut(s: State, s': State, kd: nat, live: set<nat>, x: nat) {
    forall f :: Used(s', f) && !Used(s, f) && f != x ==>
      exists p :: Has(s'.mem, kd, live, p) && !Has(s.mem, kd, live, p) && At(s'.mem, kd, p) == f
  }

  /** What the copy loops have achieved when they stop at (i, j). */
  ghost predicate CopyOutcome(s0: State, s': State, st: Status, kd: nat, live: set<nat>, src: nat, t: nat, i: nat, j: nat) {
    && st != Panic
    && (st == Ok ==> CopyInv(s0, s', kd, live, src, t, i, j))
    && (st == NoMemory ==> Grown(s0, s', kd, live, t) && AlmostTight(s0, s', kd, live))
  }

  /** The page a user address is translated to is the page of its entry. */
  lemma TranslatesToPage(s0: State, s: State, kd: nat, live: set<nat>, src: nat, t: nat, i: nat, j: nat, x: nat)
    requires Grown(s0, s, kd, live, t) && src in live && src != t && UserPte(s0.mem, src, i, j) && x < |s.mem|
    ensures PageTableVaddr(i, j) < 0x1_0000_0000
    ensures CopyPage(s.mem, src, PageTableVaddr(i, j), x) == SetPage(s.mem, x, PageAt(s0.mem, src, i, j))
  {
    VaddrRoundTrip(i, j);
    OthersKept(s0, s, kd, live, t, src);
    assert Has(s0.mem, kd, live, Leaf(src, i, j));
    assert PageAt(s.mem, src, i, j) == PageAt(s0.mem, src, i, j);
  }

  lemma FillCopy(s0: State, s: State, s1: State, s2: State, s3: State, kd: nat, live: set<nat>,
                 src: nat, t: nat, i: nat, j: nat, x: nat, v: Word)
    requires CopyInv(s0, s, kd, live, src, t, i, j) && UserPte(s0.mem, src, i, j)
    requires Adding(s, s1, s2, s2, kd, live, t, i, j, x, v)
    requires Privilege(v) == Privilege(Pte(s0.mem, src, i, j)) && PageTableVaddr(i, j) < 0x1_0000_0000
    requires s3 == WithMem(s2, CopyPage(s2.mem, src, PageTableVaddr(i, j), x))
    ensures CopyInv(s0, s3, kd, live, src, t, i, j + 1)
  {
    AddPage(s, s1, s2, s2, kd, live, t, i, j, x, v);
    GrownTrans(s0, s, s2, kd, live, t);
    TranslatesToPage(s0, s2, kd, live, src, t, i, j, x);
    AddPage(s, s1, s2, s3, kd, live, t, i, j, x, v);
    CopiedPage(s0, s, s3, kd, live, src, t, i, j, x, v);
  }

  /** Either no frame is left, or one entry is copied into a free frame. */
  lemma CopyEntryAllocates(s: State, src: nat, t: nat, i: nat, j: nat, e: Word)
    requires Shape(s) && i < ENTRIES && j < ENTRIES
    ensures PageTableVaddr(i, j) < 0x1_0000_0000
    ensures var (s1, page) := AllocPage(s);
            var x := page / PAGE_SIZE;
            if page == 0 then CopyEntry(s, src, t, i, j, e) == (s, NoMemory)
            else page == x * PAGE_SIZE && Free(s, x) && s1 == State(s.mem, s.bits[x - FIRST_FRAME := true], s1.cursor) &&
                 CopyEntry(s, src, t, i, j, e) == CopyInto(s1, src, t, PageTableVaddr(i, j), e, page)
  {
    AllocPageFresh(s);
    VaddrRoundTrip(i, j);
    assert Truncate(PageTableVaddr(i, j)) == PageTableVaddr(i, j);
  }

  lemma CopyIntoUnfolds(s1: State, s2: State, st: Status, src: nat, t: nat, vaddr: Word, e: Word, x: nat)
    requires x < MAX_FRAMES && (s2, st) == MapPages(s1, t, vaddr, x * PAGE_SIZE, 1, Privilege(e))
    ensures CopyInto(s1, src, t, vaddr, e, x * PAGE_SIZE) ==
            if st == Ok then (WithMem(s2, CopyPage(s2.mem, src, vaddr, x)), Ok) else (s2, st)
  {
    assert Truncate(x * PAGE_SIZE) == x * PAGE_SIZE && x * PAGE_SIZE / PAGE_SIZE == x;
  }

  /** The mapping inside copying one entry. */
  lemma CopyIntoMaps(s: State, s1: State, kd: nat, live: set<nat>, src: nat, t: nat, vaddr: Word, e: Word, x: nat)
    returns (s2: State, st: Status)
    requires Inv(s, kd, live) && t in live && vaddr >= MEM_TASK_BASE && Present(e)
    requires !UserPte(s.mem, t, PdeIndex(vaddr), PteIndex(vaddr))
    requires Free(s, x) && s1 == State(s.mem, s.bits[x - FIRST_FRAME := true], s1.cursor)
    ensures var (i, j) := (PdeIndex(vaddr), PteIndex(vaddr));
            st != Panic && (st == NoMemory ==> s2 == s1) &&
            (st == Ok ==> Adding(s, s1, s2, s2, kd, live, t, i, j, x, Pte(s2.mem, t, i, j)) &&
                          Privilege(Pte(s2.mem, t, i, j)) == Privilege(e))
    ensures CopyInto(s1, src, t, vaddr, e, x * PAGE_SIZE) ==
            if st == Ok then (WithMem(s2, CopyPage(s2.mem, src, vaddr, x)), Ok) else (s2, st)
  {
    MapNewFrame(s, s1, kd, live, t, vaddr, x, Privilege(e));
    var r := MapPages(s1, t, vaddr, x * PAGE_SIZE, 1, Privilege(e));
    s2, st := r.0, r.1;
    if st == Ok {
      var i, j := PdeIndex(vaddr), PteIndex(vaddr);
      PrivilegeCarriesOver(x, e, Pte(s2.mem, t, i, j));
      IndexRanges(vaddr);
      MappedIsAdding(s, s1, s2, kd, live, t, i, j, x, Pte(s2.mem, t, i, j));
    }
    CopyIntoUnfolds(s1, s2, st, src, t, vaddr, e, x);
  }

  lemma StrandedFrame(s0: State, s: State, s1: State, kd: nat, live: set<nat>, t: nat, x: nat)
    requires Grown(s0, s, kd, live, t) && Tight(s0, s, kd, live)
    requires Free(s, x) && s1 == State(s.mem, s.bits[x - FIRST_FRAME := true], s1.cursor)
    ensures Grown(s0, s1, kd, live, t) && AlmostTight(s0, s1, kd, live)
  {
    MarkGrows(s, s1, kd, live, t, x);
    GrownTrans(s0, s, s1, kd, live, t);
    forall f | Used(s1, f) && !Used(s0, f) && f != x
      ensures exists p :: Has(s1.mem, kd, live, p) && !Has(s0.mem, kd, live, p) && At(s1.mem, kd, p) == f
    {
      assert Used(s, f);
    }
    assert TightBut(s0, s1, kd, live, x);
  }

  lemma CopyEntryStep(s0: State, s: State, kd: nat, live: set<nat>, src: nat, t: nat, i: nat, j: nat)
    returns (s': State, st: Status)
    requires CopyInv(s0, s, kd, live, src, t, i, j) && UserPte(s0.mem, src, i, j)
    ensures (s', st) == CopyEntry(s, src, t, i, j, Pte(s0.mem, src, i, j))
    ensures CopyOutcome(s0, s', st, kd, live, src, t, i, j + 1)
  {
    var e := Pte(s0.mem, src, i, j);
    CopyEntryAllocates(s, src, t, i, j, e);
    var (s1, page) := AllocPage(s);
    if page == 0 {
      s', st := s, NoMemory;
      assert TightBut(s0, s, kd, live, 0);
    } else {
      s', st := CopyNewFrame(s0, s, s1, kd, live, src, t, i, j, page / PAGE_SIZE);
    }
  }

  lemma CopyNewFrame(s0: State, s: State, s1: State, kd: nat, live: set<nat>, src: nat, t: nat, i: nat, j: nat, x: nat)
    returns (s': State, st: Status)
    requires CopyInv(s0, s, kd, live, src, t, i, j) && UserPte(s0.mem, src, i, j)
    requires Free(s, x) && s1 == State(s.mem, s.bits[x - FIRST_FRAME := true], s1.cursor)
    requires PageTableVaddr(i, j) < 0x1_0000_0000
    ensures (s', st) == CopyInto(s1, src, t, PageTableVaddr(i, j), Pte(s0.mem, src, i, j), x * PAGE_SIZE)
    ensures CopyOutcome(s0, s', st, kd, live, src, t, i, j + 1)
  {
    VaddrRoundTrip(i, j);
    assert !Before(i, j, i, j);
    var s2;
    s2, st := CopyIntoMaps(s, s1, kd, live, src, t, PageTableVaddr(i, j), Pte(s0.mem, src, i, j), x);
    if st == Ok {
      s' := WithMem(s2, CopyPage(s2.mem, src, PageTableVaddr(i, j), x));
      FillCopy(s0, s, s1, s2, s', kd, live, src, t, i, j, x, Pte(s2.mem, t, i, j));
    } else {
      s' := s2;
      StrandedFrame(s0, s, s1, kd, live, t, x);
    }
  }
}
