/** memory_copy_uvm as a whole, and the round trip with memory_destroy_uvm. */
module Fork {
  import opened Mmu
  import opened Vm
  import opened Ownership
  import opened Growth
  import opened Copy
  import opened Destruction

  lemma {:induction false} CopyTableCopies(s0: State, s: State, kd: nat, live: set<nat>, src: nat, t: nat, i: nat, j: nat)
    requires CopyInv(s0, s, kd, live, src, t, i, j) && UserPde(s0.mem, src, i)
    ensures var (s', st) := CopyTable(s, src, t, i, Tab(s0.mem, src, i), j);
            CopyOutcome(s0, s', st, kd, live, src, t, i + 1, 0)
    decreases ENTRIES - j
  {
    OthersKept(s0, s, kd, live, t, src);
    if j >= ENTRIES {
      NextTable(s0, s, kd, live, src, t, i, j);
    } else if !UserPte(s0.mem, src, i, j) {
      SkipEntry(s0, s, kd, live, src, t, i, j);
      CopyTableCopies(s0, s, kd, live, src, t, i, j + 1);
    } else {
      var s1, st := CopyEntryStep(s0, s, kd, live, src, t, i, j);
      if st == Ok {
        CopyTableCopies(s0, s1, kd, live, src, t, i, j + 1);
      }
    }
  }

  lemma {:induction false} CopyDirCopies(s0: State, s: State, kd: nat, live: set<nat>, src: nat, t: nat, i: nat)
    requires CopyInv(s0, s, kd, live, src, t, i, 0) && USER_PDE <= i <= ENTRIES
    ensures var (s', st) := CopyDir(s, src, t, i);
            CopyOutcome(s0, s', st, kd, live, src, t, ENTRIES, 0)
    decreases ENTRIES - i
  {
    if i < ENTRIES {
      OthersKept(s0, s, kd, live, t, src);
      if !UserPde(s0.mem, src, i) {
        NextTable(s0, s, kd, live, src, t, i, 0);
        CopyDirCopies(s0, s, kd, live, src, t, i + 1);
      } else {
        CopyTableCopies(s0, s, kd, live, src, t, i, 0);
        var (s1, st) := CopyTable(s, src, t, i, Tab(s0.mem, src, i), 0);
        if st == Ok {
          CopyDirCopies(s0, s1, kd, live, src, t, i + 1);
        }
      }
    }
  }

  /** `t` holds a copy of address space `src` of the state `s`. */
  ghost predicate Forked(s: State, s': State, kd: nat, live: set<nat>, src: nat, t: nat) {
    && Inv(s', kd, live + {t}) && t !in live
    // The copy maps the pages that the source maps, with the same flags and contents.
    && (forall i: nat, j: nat :: SamePage(s.mem, s'.mem, src, t, i, j))
    // It does so through frames that were all free.
    && (forall p :: Has(s'.mem, kd, live + {t}, p) && OfDir(p, t) ==> Free(s, At(s'.mem, kd, p)))
    // Those frames are all that was allocated.
    && (forall f :: Used(s', f) <==> Used(s, f) || Owned(s'.mem, kd, live + {t}, t, f))
    // Nothing else changed: no frame outside the copy, no path of another space.
    && |s'.mem| == |s.mem|
    && (forall f: nat :: f < |s.mem| && !Free(s, f) ==> s'.mem[f] == s.mem[f])
    && (forall p :: Has(s.mem, kd, live, p) ==> Has(s'.mem, kd, live + {t}, p) && At(s'.mem, kd, p) == At(s.mem, kd, p))
    && (forall p :: Has(s'.mem, kd, live + {t}, p) && !OfDir(p, t) ==> Has(s.mem, kd, live, p))
  }

  lemma CreatedStartsCopy(s: State, s0: State, kd: nat, live: set<nat>, src: nat, t: nat)
    requires Inv(s, kd, live) && src in live && Created(s, s0, kd, live, t)
    ensures CopyInv(s0, s0, kd, live + {t}, src, t, USER_PDE, 0)
    ensures forall i: nat :: UserPde(s0.mem, src, i) == UserPde(s.mem, src, i)
    ensures forall i: nat, j: nat :: UserPde(s.mem, src, i) ==> Pte(s0.mem, src, i, j) == Pte(s.mem, src, i, j)
    ensures forall i: nat, j: nat :: UserPte(s.mem, src, i, j) ==> PageAt(s0.mem, src, i, j) == PageAt(s.mem, src, i, j)
  {
    GrownRefl(s0, kd, live + {t}, t);
    KeptPaths(s, s0.mem, kd, live);
    FramesOfPath(s, kd, live, Root(src));
    forall i: nat, j: nat | UserPte(s.mem, src, i, j)
      ensures PageAt(s0.mem, src, i, j) == PageAt(s.mem, src, i, j)
    {
      assert Has(s.mem, kd, live, Leaf(src, i, j));
    }
    forall i': nat, j': nat | Before(i', j', USER_PDE, 0) ensures SamePage(s0.mem, s0.mem, src, t, i', j') {
    }
  }

  lemma CopyIsFork(s: State, s0: State, s': State, kd: nat, live: set<nat>, src: nat, t: nat)
    requires Inv(s, kd, live) && src in live && Created(s, s0, kd, live, t)
    requires CopyInv(s0, s', kd, live + {t}, src, t, ENTRIES, 0)
    ensures Forked(s, s', kd, live, src, t)
  {
    CreatedStartsCopy(s, s0, kd, live, src, t);
    var all := live + {t};
    forall i: nat, j: nat ensures SamePage(s.mem, s'.mem, src, t, i, j) {
      if i < ENTRIES {
        assert Before(i, j, ENTRIES, 0);
        assert SamePage(s0.mem, s'.mem, src, t, i, j);
      }
    }
    forall f ensures Used(s', f) <==> Used(s, f) || Owned(s'.mem, kd, all, t, f) {
      ForkUsed(s, s0, s', kd, live, src, t, f);
    }
    forall f: nat | f < |s.mem| && !Free(s, f) ensures s'.mem[f] == s.mem[f] {
      assert !Free(s0, f) && f != t;
      assert s'.mem[f] != s0.mem[f] ==> OwnTable(s0.mem, t, f);
    }
    forall p | Has(s'.mem, kd, all, p) && OfDir(p, t) ensures Free(s, At(s'.mem, kd, p)) {
      if Has(s0.mem, kd, all, p) {
        assert p == Root(t);
      }
    }
  }

  lemma ForkUsed(s: State, s0: State, s': State, kd: nat, live: set<nat>, src: nat, t: nat, f: nat)
    requires Inv(s, kd, live) && src in live && Created(s, s0, kd, live, t)
    requires Grown(s0, s', kd, live + {t}, t) && Tight(s0, s', kd, live + {t})
    ensures Used(s', f) <==> Used(s, f) || Owned(s'.mem, kd, live + {t}, t, f)
  {
    var all := live + {t};
    assert Has(s0.mem, kd, all, Root(t)) && OfDir(Root(t), t) && At(s'.mem, kd, Root(t)) == t;
    assert Used(s0, f) <==> Used(s, f) || f == t;
    if Used(s', f) && !Used(s0, f) {
      var p :| Has(s'.mem, kd, all, p) && !Has(s0.mem, kd, all, p) && At(s'.mem, kd, p) == f;
      assert OfDir(p, t);
    }
  }

  /** Copying the current address space either yields a faithful copy or fails with
      address 0; the ASSERT in memory_create_map never fires. */
  lemma CopyUvmForks(s: State, kd: nat, live: set<nat>, src: nat)
    requires Inv(s, kd, live) && src in live
    ensures var (s', st, page) := CopyUvm(s, kd, src);
            st != Panic && (page != 0 <==> st == Ok) &&
            (page != 0 ==> page == page / PAGE_SIZE * PAGE_SIZE && Forked(s, s', kd, live, src, page / PAGE_SIZE))
  {
    CreateUvmCreates(s, kd, live);
    var (s0, page) := CreateUvm(s, kd);
    if page != 0 {
      var t := page / PAGE_SIZE;
      CreatedStartsCopy(s, s0, kd, live, src, t);
      CopyDirCopies(s0, s0, kd, live + {t}, src, t, USER_PDE);
      var (s', st) := CopyDir(s0, src, t, USER_PDE);
      if st == Ok {
        CopyIsFork(s, s0, s', kd, live, src, t);
      }
    }
  }

  lemma ForkedOwned(s: State, s1: State, kd: nat, live: set<nat>, src: nat, t: nat, f: nat)
    requires Forked(s, s1, kd, live, src, t)
    ensures Owned(s1.mem, kd, live + {t}, t, f) ==> !Used(s, f)
    ensures Used(s1, f) <==> Used(s, f) || Owned(s1.mem, kd, live + {t}, t, f)
  {
    if Owned(s1.mem, kd, live + {t}, t, f) {
      var p :| OfDir(p, t) && Has(s1.mem, kd, live + {t}, p) && At(s1.mem, kd, p) == f;
    }
  }

  /** Destroying a successful copy gives back exactly the frames it took. */
  lemma DestroyUndoesCopy(s: State, kd: nat, live: set<nat>, src: nat)
    requires Inv(s, kd, live) && src in live
    ensures var (s1, st, page) := CopyUvm(s, kd, src);
            page != 0 ==> Destroy(s1, page / PAGE_SIZE).bits == s.bits &&
                          Inv(Destroy(s1, page / PAGE_SIZE), kd, live)
  {
    CopyUvmForks(s, kd, live, src);
    var (s1, st, page) := CopyUvm(s, kd, src);
    if page != 0 {
      var t := page / PAGE_SIZE;
      var s2 := Destroy(s1, t);
      DestroyFreesOwned(s1, kd, live + {t}, t);
      assert live + {t} - {t} == live;
      forall k | 0 <= k < |s.bits| ensures s2.bits[k] == s.bits[k] {
        ForkedOwned(s, s1, kd, live, src, t, k + FIRST_FRAME);
        assert Used(s2, k + FIRST_FRAME) == s2.bits[k];
        assert Used(s, k + FIRST_FRAME) == s.bits[k];
      }
    }
  }

  /** At most frame `x` is allocated beyond what was. */
  ghost predicate UsedBut(s: State, s': State, x: nat) {
    forall f :: Used(s', f) ==> Used(s, f) || f == x
  }

  /** A failed copy gives its frames back too, but for at most one: the page frame
      taken just before a table could not be allocated. */
  lemma FailedCopyStrandsAtMostOne(s: State, kd: nat, live: set<nat>, src: nat)
    requires Inv(s, kd, live) && src in live
    ensures var (s', st, page) := CopyUvm(s, kd, src);
            page == 0 ==> Inv(s', kd, live) && |s'.bits| == |s.bits| &&
                          (forall f: nat :: f < |s.mem| && !Free(s, f) ==> s'.mem[f] == s.mem[f]) &&
                          (forall f :: Used(s, f) ==> Used(s', f)) &&
                          exists x: nat :: UsedBut(s, s', x)
  {
    CreateUvmCreates(s, kd, live);
    var (s0, page) := CreateUvm(s, kd);
    if page == 0 {
      assert UsedBut(s, s0, 0);
    } else {
      var t := page / PAGE_SIZE;
      CreatedStartsCopy(s, s0, kd, live, src, t);
      CopyDirCopies(s0, s0, kd, live + {t}, src, t, USER_PDE);
      var (s1, st) := CopyDir(s0, src, t, USER_PDE);
      if st == NoMemory {
        FailedCopy(s, s0, s1, kd, live, src, t);
      }
    }
  }

  lemma GrownUsed(s: State, s0: State, s1: State, kd: nat, live: set<nat>, src: nat, t: nat, f: nat, x: nat)
    requires Inv(s, kd, live) && src in live && Created(s, s0, kd, live, t)
    requires Grown(s0, s1, kd, live + {t}, t) && TightBut(s0, s1, kd, live + {t}, x)
    ensures Owned(s1.mem, kd, live + {t}, t, f) ==> !Used(s, f)
    ensures Used(s1, f) ==> Used(s, f) || Owned(s1.mem, kd, live + {t}, t, f) || f == x
    ensures Used(s, f) ==> Used(s1, f)
  {
    var all := live + {t};
    assert OfDir(Root(t), t) && Has(s0.mem, kd, all, Root(t)) && At(s1.mem, kd, Root(t)) == t;
    assert Used(s0, f) <==> Used(s, f) || f == t;
    if Used(s1, f) && !Used(s0, f) && f != x {
      var p :| Has(s1.mem, kd, all, p) && !Has(s0.mem, kd, all, p) && At(s1.mem, kd, p) == f;
      assert OfDir(p, t);
    }
    if Owned(s1.mem, kd, all, t, f) {
      var p :| OfDir(p, t) && Has(s1.mem, kd, all, p) && At(s1.mem, kd, p) == f;
      assert Has(s0.mem, kd, all, p) ==> p == Root(t);
    }
  }

  lemma FailedCopy(s: State, s0: State, s1: State, kd: nat, live: set<nat>, src: nat, t: nat)
    requires Inv(s, kd, live) && src in live && Created(s, s0, kd, live, t)
    requires Grown(s0, s1, kd, live + {t}, t) && AlmostTight(s0, s1, kd, live + {t})
    ensures var s' := Destroy(s1, t);
            Inv(s', kd, live) && |s'.bits| == |s.bits| &&
            (forall f: nat :: f < |s.mem| && !Free(s, f) ==> s'.mem[f] == s.mem[f]) &&
            (forall f :: Used(s, f) ==> Used(s', f)) &&
            exists x: nat :: UsedBut(s, s', x)
  {
    var all := live + {t};
    var s' := Destroy(s1, t);
    DestroyFreesOwned(s1, kd, all, t);
    assert all - {t} == live;
    var x: nat :| TightBut(s0, s1, kd, all, x);
    forall f
      ensures Used(s', f) ==> Used(s, f) || f == x
      ensures Used(s, f) ==> Used(s', f)
    {
      GrownUsed(s, s0, s1, kd, live, src, t, f, x);
    }
    assert UsedBut(s, s', x);
    forall f: nat | f < |s.mem| && !Free(s, f) ensures s'.mem[f] == s.mem[f] {
      assert !Free(s0, f) && f != t;
      assert s1.mem[f] != s0.mem[f] ==> OwnTable(s0.mem, t, f);
    }
  }
}
