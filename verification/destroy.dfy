/** memory_destroy_uvm frees exactly the frames its directory reaches. */
module Destruction {
  import opened Mmu
  import opened Vm
  import opened Ownership

  /** Frame `f` is mapped by `table` at entry `j` or later. */
  ghost predicate LeafFrom(m: seq<Page>, table: nat, j: nat, f: nat) {
    exists j': nat :: j <= j' < ENTRIES && Present(Entry(m, table, j')) && FrameOf(Entry(m, table, j')) == f
  }

  ghost predicate SlotReaches(m: seq<Page>, d: nat, i: nat, f: nat) {
    Present(Entry(m, d, i)) && (Tab(m, d, i) == f || LeafFrom(m, Tab(m, d, i), 0, f))
  }

  /** Frame `f` is a table or page of `d` at directory entry `i` or later. */
  ghost predicate DirFrom(m: seq<Page>, d: nat, i: nat, f: nat) {
    exists i': nat :: i <= i' < ENTRIES && SlotReaches(m, d, i', f)
  }

  /** Frame `f` is reached by a path of `d`. */
  ghost predicate Owned(m: seq<Page>, kd: nat, live: set<nat>, d: nat, f: nat) {
    exists p :: OfDir(p, d) && Has(m, kd, live, p) && At(m, kd, p) == f
  }

  lemma {:induction false} DestroyTableFrees(s: State, table: nat, j: nat)
    requires Shape(s)
    requires forall j': nat :: j' < ENTRIES && Present(Entry(s.mem, table, j')) ==> Managed(s, FrameOf(Entry(s.mem, table, j')))
    ensures var s' := DestroyTable(s, table, j);
            s'.mem == s.mem && Shape(s') && s'.cursor == s.cursor &&
            forall f :: Used(s', f) <==> Used(s, f) && !LeafFrom(s.mem, table, j, f)
    decreases ENTRIES - j
  {
    if j < ENTRIES {
      var e := Entry(s.mem, table, j);
      assert forall f :: LeafFrom(s.mem, table, j, f) <==>
                         (Present(e) && FrameOf(e) == f) || LeafFrom(s.mem, table, j + 1, f);
      if Present(e) {
        FreePageClears(s, FrameOf(e));
        DestroyTableFrees(FreePage(s, PdePaddr(e)), table, j + 1);
      } else {
        DestroyTableFrees(s, table, j + 1);
      }
    }
  }

  lemma {:induction false} DestroyDirFrees(s: State, d: nat, i: nat)
    requires Shape(s)
    requires forall i': nat, f: nat :: i <= i' < ENTRIES && SlotReaches(s.mem, d, i', f) ==> Managed(s, f)
    ensures var s' := DestroyDir(s, d, i);
            s'.mem == s.mem && Shape(s') && s'.cursor == s.cursor &&
            forall f :: Used(s', f) <==> Used(s, f) && !DirFrom(s.mem, d, i, f)
    decreases ENTRIES - i
  {
    if i < ENTRIES {
      var e := Entry(s.mem, d, i);
      assert forall f :: DirFrom(s.mem, d, i, f) <==> SlotReaches(s.mem, d, i, f) || DirFrom(s.mem, d, i + 1, f);
      if Present(e) {
        forall j': nat | j' < ENTRIES && Present(Entry(s.mem, FrameOf(e), j'))
          ensures Managed(s, FrameOf(Entry(s.mem, FrameOf(e), j')))
        {
          assert LeafFrom(s.mem, FrameOf(e), 0, FrameOf(Entry(s.mem, FrameOf(e), j')));
          assert SlotReaches(s.mem, d, i, FrameOf(Entry(s.mem, FrameOf(e), j')));
        }
        assert SlotReaches(s.mem, d, i, FrameOf(e));
        DestroyTableFrees(s, FrameOf(e), 0);
        var s1 := DestroyTable(s, FrameOf(e), 0);
        FreePageClears(s1, FrameOf(e));
        DestroyDirFrees(FreePage(s1, PdePaddr(e)), d, i + 1);
      } else {
        DestroyDirFrees(s, d, i + 1);
      }
    }
  }

  lemma OwnedFrames(s: State, kd: nat, live: set<nat>, d: nat, f: nat)
    requires d in live
    ensures Owned(s.mem, kd, live, d, f) <==> f == d || DirFrom(s.mem, d, USER_PDE, f)
  {
    if Owned(s.mem, kd, live, d, f) {
      var p :| OfDir(p, d) && Has(s.mem, kd, live, p) && At(s.mem, kd, p) == f;
      if p.Leaf? {
        assert LeafFrom(s.mem, Tab(s.mem, d, p.i), 0, f);
      }
      if !p.Root? {
        assert SlotReaches(s.mem, d, p.i, f);
      }
    }
    if f == d {
      assert Has(s.mem, kd, live, Root(d)) && OfDir(Root(d), d);
    } else if DirFrom(s.mem, d, USER_PDE, f) {
      var i: nat :| USER_PDE <= i < ENTRIES && SlotReaches(s.mem, d, i, f);
      if Tab(s.mem, d, i) == f {
        assert Has(s.mem, kd, live, Table(d, i)) && OfDir(Table(d, i), d);
      } else {
        var j: nat :| j < ENTRIES && Present(Entry(s.mem, Tab(s.mem, d, i), j)) && FrameOf(Entry(s.mem, Tab(s.mem, d, i), j)) == f;
        assert Has(s.mem, kd, live, Leaf(d, i, j)) && OfDir(Leaf(d, i, j), d);
      }
    }
  }

  /** Destroying an address space clears the bits of its directory, its tables and
      its pages and of nothing else, and leaves the other spaces as they were. */
  lemma DestroyFreesOwned(s: State, kd: nat, live: set<nat>, d: nat)
    requires Inv(s, kd, live) && d in live
    ensures var s' := Destroy(s, d);
            s'.mem == s.mem && Inv(s', kd, live - {d}) && |s'.bits| == |s.bits| &&
            forall f :: Used(s', f) <==> Used(s, f) && !Owned(s.mem, kd, live, d, f)
  {
    forall i: nat, f: nat | USER_PDE <= i < ENTRIES && SlotReaches(s.mem, d, i, f) ensures Managed(s, f) {
      assert DirFrom(s.mem, d, USER_PDE, f);
      OwnedFrames(s, kd, live, d, f);
    }
    DestroyDirFrees(s, d, USER_PDE);
    var s1 := DestroyDir(s, d, USER_PDE);
    var s' := Destroy(s, d);
    assert Has(s.mem, kd, live, Root(d));
    assert Truncate(d * PAGE_SIZE) == d * PAGE_SIZE;
    FreePageClears(s1, d);
    forall f ensures Used(s', f) <==> Used(s, f) && !Owned(s.mem, kd, live, d, f) {
      OwnedFrames(s, kd, live, d, f);
    }
    forall p | Has(s'.mem, kd, live - {d}, p) ensures Used(s', At(s'.mem, kd, p)) && Has(s.mem, kd, live, p) {
      assert !Owned(s.mem, kd, live, d, At(s.mem, kd, p));
    }
  }
}
