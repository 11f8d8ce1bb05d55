/** What an address space gains when pages are added to it, one after the other:
    memory_alloc_for_page_dir, and the building block of memory_copy_uvm. */
module Growth {
  import opened Mmu
  import opened Vm
  import opened Ownership
  import opened Mapping

  ghost predicate OwnTable(m: seq<Page>, d: nat, f: nat) {
    exists i: nat :: UserPde(m, d, i) && Tab(m, d, i) == f
  }

  /** `d` may have gained paths, all to frames that were free; everything reached
      before is reached as before, with the same entries, and of the frames that
      were not free only the directory and tables of `d` may have changed. */
  ghost predicate Grown(s: State, s': State, kd: nat, live: set<nat>, d: nat) {
    && d in live && Inv(s, kd, live) && Inv(s', kd, live) && |s'.bits| == |s.bits|
    && (forall p :: Has(s.mem, kd, live, p) ==> Has(s'.mem, kd, live, p) && At(s'.mem, kd, p) == At(s.mem, kd, p))
    && (forall p :: Has(s'.mem, kd, live, p) && !Has(s.mem, kd, live, p) ==> OfDir(p, d) && Free(s, At(s'.mem, kd, p)))
    && (forall d', i: nat, j: nat :: d' in live && UserPte(s.mem, d', i, j) ==>
                                       Pte(s'.mem, d', i, j) == Pte(s.mem, d', i, j))
    && (forall f: nat {:trigger Used(s, f)} {:trigger Free(s', f)} :: Used(s, f) ==> Used(s', f))
    && (forall f: nat :: f < |s.mem| && !Free(s, f) && s'.mem[f] != s.mem[f] ==> f == d || OwnTable(s.mem, d, f))
  }

  /** No frame was allocated without being reached. */
  ghost predicate Tight(s: State, s': State, kd: nat, live: set<nat>) {
    forall f :: Used(s', f) && !Used(s, f) ==>
      exists p :: Has(s'.mem, kd, live, p) && !Has(s.mem, kd, live, p) && At(s'.mem, kd, p) == f
  }

  lemma GrownRefl(s: State, kd: nat, live: set<nat>, d: nat)
    requires Inv(s, kd, live) && d in live
    ensures Grown(s, s, kd, live, d) && Tight(s, s, kd, live)
  {
  }

  lemma ChangedFrame(s: State, s1: State, s2: State, kd: nat, live: set<nat>, d: nat, f: nat)
    requires Grown(s, s1, kd, live, d) && Grown(s1, s2, kd, live, d)
    requires f < |s.mem| && !Free(s, f) && s2.mem[f] != s.mem[f] && f != d
    ensures OwnTable(s.mem, d, f)
  {
    if s1.mem[f] == s.mem[f] {
      assert !Free(s1, f);
      var i: nat :| UserPde(s1.mem, d, i) && Tab(s1.mem, d, i) == f;
      assert Has(s1.mem, kd, live, Table(d, i));
      assert Has(s.mem, kd, live, Table(d, i));
    }
  }

  lemma GrownPath(s: State, s1: State, s2: State, kd: nat, live: set<nat>, d: nat, p: Path)
    requires Grown(s, s1, kd, live, d) && Grown(s1, s2, kd, live, d)
    ensures Has(s.mem, kd, live, p) ==> Has(s2.mem, kd, live, p) && At(s2.mem, kd, p) == At(s.mem, kd, p)
    ensures Has(s2.mem, kd, live, p) && !Has(s.mem, kd, live, p) ==> OfDir(p, d) && Free(s, At(s2.mem, kd, p))
    ensures p.Leaf? && Has(s.mem, kd, live, p) ==> Pte(s2.mem, p.dir, p.i, p.j) == Pte(s.mem, p.dir, p.i, p.j)
  {
    if Has(s1.mem, kd, live, p) {
      assert At(s2.mem, kd, p) == At(s1.mem, kd, p);
    }
    if p.Leaf? && Has(s.mem, kd, live, p) {
      assert Has(s1.mem, kd, live, p);
      assert UserPte(s.mem, p.dir, p.i, p.j) && UserPte(s1.mem, p.dir, p.i, p.j);
    }
  }

  lemma GrownTrans(s: State, s1: State, s2: State, kd: nat, live: set<nat>, d: nat)
    requires Grown(s, s1, kd, live, d) && Grown(s1, s2, kd, live, d)
    ensures Grown(s, s2, kd, live, d)
  {
    forall p
      ensures Has(s.mem, kd, live, p) ==> Has(s2.mem, kd, live, p) && At(s2.mem, kd, p) == At(s.mem, kd, p)
      ensures Has(s2.mem, kd, live, p) && !Has(s.mem, kd, live, p) ==> OfDir(p, d) && Free(s, At(s2.mem, kd, p))
    {
      GrownPath(s, s1, s2, kd, live, d, p);
    }
    forall f: nat | f < |s.mem| && !Free(s, f) && s2.mem[f] != s.mem[f] && f != d
      ensures OwnTable(s.mem, d, f)
    {
      ChangedFrame(s, s1, s2, kd, live, d, f);
    }
    forall d', i: nat, j: nat | d' in live && UserPte(s.mem, d', i, j)
      ensures Pte(s2.mem, d', i, j) == Pte(s.mem, d', i, j)
    {
      GrownPath(s, s1, s2, kd, live, d, Leaf(d', i, j));
    }
  }

  lemma TightTrans(s: State, s1: State, s2: State, kd: nat, live: set<nat>, d: nat)
    requires Grown(s, s1, kd, live, d) && Grown(s1, s2, kd, live, d)
    requires Tight(s, s1, kd, live) && Tight(s1, s2, kd, live)
    ensures Tight(s, s2, kd, live)
  {
    forall f | Used(s2, f) && !Used(s, f)
      ensures exists p :: Has(s2.mem, kd, live, p) && !Has(s.mem, kd, live, p) && At(s2.mem, kd, p) == f
    {
      if Used(s1, f) {
        var p :| Has(s1.mem, kd, live, p) && !Has(s.mem, kd, live, p) && At(s1.mem, kd, p) == f;
        assert Has(s2.mem, kd, live, p) && At(s2.mem, kd, p) == f;
      } else {
        var p :| Has(s2.mem, kd, live, p) && !Has(s1.mem, kd, live, p) && At(s2.mem, kd, p) == f;
        assert !Has(s.mem, kd, live, p);
      }
    }
  }

  /** One allocated page mapped at (i, j) of `d`, with any contents. */
  ghost predicate PageAdded(s: State, s': State, kd: nat, live: set<nat>, d: nat, i: nat, j: nat, x: nat, v: Word) {
    && Grown(s, s', kd, live, d) && Tight(s, s', kd, live) && Free(s, x)
    && Pte(s'.mem, d, i, j) == v && UserPte(s'.mem, d, i, j)
    && (forall i': nat, j': nat :: UserPte(s'.mem, d, i', j') <==> UserPte(s.mem, d, i', j') || (i', j') == (i, j))
  }

  /** `s'` differs from `s` at most in the contents of one mapped page. */
  ghost predicate LeafFilled(s: State, s': State, kd: nat, live: set<nat>, d: nat, i: nat, j: nat) {
    && Inv(s, kd, live) && d in live && UserPte(s.mem, d, i, j)
    && |s'.mem| == |s.mem| && s'.bits == s.bits
    && (forall f: nat :: f < |s.mem| && f != FrameOf(Pte(s.mem, d, i, j)) ==> s'.mem[f] == s.mem[f])
  }

  lemma FillLeafPath(s: State, s': State, kd: nat, live: set<nat>, d: nat, i: nat, j: nat, p: Path)
    requires LeafFilled(s, s', kd, live, d, i, j)
    ensures Has(s'.mem, kd, live, p) <==> Has(s.mem, kd, live, p)
    ensures Has(s.mem, kd, live, p) ==> At(s'.mem, kd, p) == At(s.mem, kd, p)
    ensures p.Leaf? && Has(s.mem, kd, live, p) ==> Pte(s'.mem, p.dir, p.i, p.j) == Pte(s.mem, p.dir, p.i, p.j)
    ensures p.Root? && p.dir in live ==> s'.mem[p.dir] == s.mem[p.dir]
    ensures s'.mem[kd] == s.mem[kd]
  {
    assert Has(s.mem, kd, live, Leaf(d, i, j));
    FramesOfPath(s, kd, live, p);
    if !p.KernelTable? && p.dir in live {
      assert Has(s.mem, kd, live, Root(p.dir));
      if !p.Root? && UserPde(s.mem, p.dir, p.i) {
        assert Has(s.mem, kd, live, Table(p.dir, p.i));
      }
    }
  }

  /** Filling a mapped page moves no path. */
  lemma FillLeaf(s: State, s': State, kd: nat, live: set<nat>, d: nat, i: nat, j: nat)
    requires LeafFilled(s, s', kd, live, d, i, j)
    ensures Inv(s', kd, live) && SamePaths(s.mem, s'.mem, kd, live)
    ensures forall d', i': nat, j': nat :: d' in live && UserPte(s.mem, d', i', j') ==>
                                             Pte(s'.mem, d', i', j') == Pte(s.mem, d', i', j')
  {
    forall p
      ensures Has(s'.mem, kd, live, p) <==> Has(s.mem, kd, live, p)
      ensures Has(s.mem, kd, live, p) ==> At(s'.mem, kd, p) == At(s.mem, kd, p)
      ensures p.Leaf? && Has(s.mem, kd, live, p) ==> Pte(s'.mem, p.dir, p.i, p.j) == Pte(s.mem, p.dir, p.i, p.j)
    {
      FillLeafPath(s, s', kd, live, d, i, j, p);
    }
    forall d', i': nat, j': nat | d' in live && UserPte(s.mem, d', i', j')
      ensures Pte(s'.mem, d', i', j') == Pte(s.mem, d', i', j')
    {
      FillLeafPath(s, s', kd, live, d, i, j, Leaf(d', i', j'));
    }
    forall d', i': nat | d' in live && i' < USER_PDE ensures Entry(s'.mem, d', i') == Entry(s'.mem, kd, i') {
      FramesOfPath(s, kd, live, Root(d'));
      FillLeafPath(s, s', kd, live, d, i, j, Root(d'));
      assert Entry(s.mem, d', i') == Entry(s.mem, kd, i');
    }
    forall d', i': nat | d' in live && UserPde(s'.mem, d', i') ensures TableBits(s'.mem, d', i') == 7 {
      FillLeafPath(s, s', kd, live, d, i, j, Root(d'));
      assert TableBits(s.mem, d', i') == TableBits(s'.mem, d', i');
    }
  }

  /** Allocate (`s` to `s1`), map (`s2`), and fill with any contents (`s3`). */
  ghost predicate Adding(s: State, s1: State, s2: State, s3: State, kd: nat, live: set<nat>,
                         d: nat, i: nat, j: nat, x: nat, v: Word)
  {
    && Inv(s, kd, live) && d in live && !UserPte(s.mem, d, i, j) && j < ENTRIES && Present(v)
    && Free(s, x) && s1 == State(s.mem, s.bits[x - FIRST_FRAME := true], s1.cursor) && FrameOf(v) == x
    && Mapped(s1, s2, kd, live, d, i, j, v)
    && |s3.mem| == |s2.mem| && s3.bits == s2.bits
    && (forall f: nat :: f < |s2.mem| && f != x ==> s3.mem[f] == s2.mem[f])
  }

  lemma AddedPath(s: State, s1: State, s2: State, s3: State, kd: nat, live: set<nat>,
                  d: nat, i: nat, j: nat, x: nat, v: Word, p: Path)
    requires Adding(s, s1, s2, s3, kd, live, d, i, j, x, v) && SamePaths(s2.mem, s3.mem, kd, live)
    ensures Has(s.mem, kd, live, p) ==> Has(s3.mem, kd, live, p) && At(s3.mem, kd, p) == At(s.mem, kd, p)
    ensures Has(s3.mem, kd, live, p) && !Has(s.mem, kd, live, p) ==> OfDir(p, d) && Free(s, At(s3.mem, kd, p))
  {
    assert Has(s3.mem, kd, live, p) <==> Has(s2.mem, kd, live, p);
  }

  lemma AddedTight(s: State, s1: State, s2: State, s3: State, kd: nat, live: set<nat>,
                   d: nat, i: nat, j: nat, x: nat, v: Word)
    requires Adding(s, s1, s2, s3, kd, live, d, i, j, x, v) && SamePaths(s2.mem, s3.mem, kd, live)
    ensures Tight(s, s3, kd, live)
  {
    assert Has(s2.mem, kd, live, Leaf(d, i, j)) && Has(s2.mem, kd, live, Table(d, i));
    assert Has(s3.mem, kd, live, Leaf(d, i, j)) && Has(s3.mem, kd, live, Table(d, i));
    assert At(s3.mem, kd, Leaf(d, i, j)) == x && !Has(s.mem, kd, live, Leaf(d, i, j));
    var t := Tab(s2.mem, d, i);
    assert At(s2.mem, kd, Table(d, i)) == t;
    forall f | Used(s3, f) && !Used(s, f)
      ensures exists p :: Has(s3.mem, kd, live, p) && !Has(s.mem, kd, live, p) && At(s3.mem, kd, p) == f
    {
      assert Used(s2, f);
      assert Used(s1, f) || f == t;
      if f == t {
        assert Has(s.mem, kd, live, Table(d, i)) ==> Used(s, t);
      }
    }
  }

  lemma AddedFrames(s: State, s1: State, s2: State, s3: State, kd: nat, live: set<nat>,
                    d: nat, i: nat, j: nat, x: nat, v: Word)
    requires Adding(s, s1, s2, s3, kd, live, d, i, j, x, v)
    ensures forall f: nat :: f < |s.mem| && !Free(s, f) && s3.mem[f] != s.mem[f] ==> f == d || OwnTable(s.mem, d, f)
    ensures forall f: nat {:trigger Used(s, f)} {:trigger Free(s3, f)} :: Used(s, f) ==> Used(s3, f)
  {
    forall f: nat | f < |s.mem| && !Free(s, f) && s3.mem[f] != s.mem[f] && f != d ensures OwnTable(s.mem, d, f) {
      assert f == Tab(s2.mem, d, i);
      assert !Free(s1, f);
      assert Has(s1.mem, kd, live, Table(d, i));
    }
    forall f: nat | Used(s, f) ensures Used(s3, f) {
      assert Used(s1, f) && Used(s2, f);
    }
  }

  lemma AddPage(s: State, s1: State, s2: State, s3: State, kd: nat, live: set<nat>,
                d: nat, i: nat, j: nat, x: nat, v: Word)
    requires Adding(s, s1, s2, s3, kd, live, d, i, j, x, v)
    ensures PageAdded(s, s3, kd, live, d, i, j, x, v)
  {
    FillLeaf(s2, s3, kd, live, d, i, j);
    forall p
      ensures Has(s.mem, kd, live, p) ==> Has(s3.mem, kd, live, p) && At(s3.mem, kd, p) == At(s.mem, kd, p)
      ensures Has(s3.mem, kd, live, p) && !Has(s.mem, kd, live, p) ==> OfDir(p, d) && Free(s, At(s3.mem, kd, p))
    {
      AddedPath(s, s1, s2, s3, kd, live, d, i, j, x, v, p);
    }
    AddedTight(s, s1, s2, s3, kd, live, d, i, j, x, v);
    AddedFrames(s, s1, s2, s3, kd, live, d, i, j, x, v);
    forall d', i': nat, j': nat | d' in live && UserPte(s.mem, d', i', j')
      ensures Pte(s3.mem, d', i', j') == Pte(s.mem, d', i', j')
    {
      assert Has(s.mem, kd, live, Leaf(d', i', j')) && Has(s2.mem, kd, live, Leaf(d', i', j'));
    }
    forall i': nat, j': nat
      ensures UserPte(s3.mem, d, i', j') <==> UserPte(s.mem, d, i', j') || (i', j') == (i, j)
    {
      assert Has(s3.mem, kd, live, Leaf(d, i', j')) <==> Has(s2.mem, kd, live, Leaf(d, i', j'));
    }
  }
}
