/** memory_create_map and memory_alloc_for_page_dir under the ownership invariant. */
module Mapping {
  import opened Mmu
  import opened Vm
  import opened Ownership

  /** User page number `n` (address / 4096) is mapped in `d`. */
  predicate PageMapped(m: seq<Page>, d: nat, n: nat) {
    UserPte(m, d, n / ENTRIES, n % ENTRIES)
  }

  /** What one successful store of entry (i, j) of `d` does: it adds that page and,
      if need be, a table for it, and touches nothing but the directory and the table. */
  ghost predicate Mapped(s: State, s': State, kd: nat, live: set<nat>, d: nat, i: nat, j: nat, v: Word) {
    && Inv(s', kd, live) && |s'.mem| == |s.mem| && UserPde(s'.mem, d, i)
    && (forall p :: Has(s'.mem, kd, live, p) <==>
                    (Has(s.mem, kd, live, p) || p == Leaf(d, i, j) || p == Table(d, i)))
    && (forall p :: Has(s.mem, kd, live, p) ==> At(s'.mem, kd, p) == At(s.mem, kd, p))
    && Pte(s'.mem, d, i, j) == v
    && (forall d', i': nat, j': nat :: d' in live && UserPte(s.mem, d', i', j') ==>
                                         Pte(s'.mem, d', i', j') == Pte(s.mem, d', i', j'))
    && (forall f :: Used(s', f) <==> Used(s, f) || f == Tab(s'.mem, d, i))
    && (!UserPde(s.mem, d, i) ==> Free(s, Tab(s'.mem, d, i)))
    && (forall f: nat :: f < |s.mem| && f != d && f != Tab(s'.mem, d, i) ==> s'.mem[f] == s.mem[f])
  }

  /** find_pte with allocation: the entry exists afterwards, unless memory ran out. */
  lemma FindPteLinks(s: State, kd: nat, live: set<nat>, d: nat, vaddr: Word)
    requires Inv(s, kd, live) && d in live && vaddr >= MEM_TASK_BASE
    requires !UserPde(s.mem, d, PdeIndex(vaddr))
    ensures var (s', pte) := FindPte(s, d, vaddr, true);
            var i := PdeIndex(vaddr);
            if pte.Null? then s' == s
            else pte == Ref(Tab(s'.mem, d, i), PteIndex(vaddr)) && Free(s, pte.frame) && Inv(s', kd, live) &&
                 UserPde(s'.mem, d, i) && Extends(s.mem, s'.mem, kd, live, Table(d, i), pte.frame) &&
                 (forall j: nat :: j < ENTRIES ==> Entry(s'.mem, pte.frame, j) == 0) &&
                 s'.bits == s.bits[pte.frame - FIRST_FRAME := true] &&
                 (forall f: nat :: f < |s.mem| && f != d && f != pte.frame ==> s'.mem[f] == s.mem[f])
  {
    var i := PdeIndex(vaddr);
    IndexRanges(vaddr);
    AllocPageFresh(s);
    var (s1, page) := AllocPage(s);
    if page != 0 {
      var t := page / PAGE_SIZE;
      var (s', pte) := FindPte(s, d, vaddr, true);
      assert Has(s.mem, kd, live, Root(d));
      LinkTable(s, s', kd, live, d, i, t);
    }
  }

  /** The store itself, once the table is there. */
  lemma StoreMaps(s: State, kd: nat, live: set<nat>, d: nat, i: nat, j: nat, v: Word)
    requires Inv(s, kd, live) && d in live && UserPde(s.mem, d, i) && j < ENTRIES
    requires !UserPte(s.mem, d, i, j) && Present(v)
    requires Used(s, FrameOf(v)) && Unreached(s, kd, live, FrameOf(v))
    ensures Mapped(s, WithMem(s, Poke(s.mem, Tab(s.mem, d, i), j, v)), kd, live, d, i, j, v)
  {
    var s' := WithMem(s, Poke(s.mem, Tab(s.mem, d, i), j, v));
    WriteLeaf(s, s', kd, live, d, i, j, v);
    assert Has(s.mem, kd, live, Table(d, i)) && Has(s'.mem, kd, live, Table(d, i));
  }

  /** Linking a new table and then storing into it is also one mapping. */
  lemma LinkThenStore(s: State, s1: State, s2: State, kd: nat, live: set<nat>, d: nat, i: nat, j: nat, v: Word)
    requires Inv(s, kd, live) && d in live && !UserPde(s.mem, d, i) && |s1.mem| == |s.mem|
    requires Extends(s.mem, s1.mem, kd, live, Table(d, i), Tab(s1.mem, d, i))
    requires Free(s, Tab(s1.mem, d, i)) && s1.bits == s.bits[Tab(s1.mem, d, i) - FIRST_FRAME := true]
    requires forall f: nat :: f < |s.mem| && f != d && f != Tab(s1.mem, d, i) ==> s1.mem[f] == s.mem[f]
    requires Mapped(s1, s2, kd, live, d, i, j, v)
    ensures Mapped(s, s2, kd, live, d, i, j, v)
  {
    assert Has(s1.mem, kd, live, Table(d, i));
    forall d', i': nat, j': nat | d' in live && UserPte(s.mem, d', i', j')
      ensures Pte(s2.mem, d', i', j') == Pte(s.mem, d', i', j')
    {
      assert Has(s.mem, kd, live, Leaf(d', i', j')) && Has(s.mem, kd, live, Table(d', i'));
      assert Has(s1.mem, kd, live, Leaf(d', i', j'));
      assert Has(s.mem, kd, live, Root(d')) && Has(s.mem, kd, live, Root(d));
      assert Tab(s1.mem, d', i') == Tab(s.mem, d', i');
      assert s1.mem[Tab(s.mem, d', i')] == s.mem[Tab(s.mem, d', i')];
    }
  }

  lemma MapPagesOne(s: State, d: nat, vaddr: Word, paddr: Word, privilege: nat, v: Word)
    requires v == PteValue(paddr, privilege)
    ensures var (s1, pte) := FindPte(s, d, vaddr, true);
            MapPages(s, d, vaddr, paddr, 1, privilege) ==
            if pte.Null? then (s1, NoMemory)
            else if Present(Entry(s1.mem, pte.frame, pte.index)) then (s1, Panic)
            else (WithMem(s1, Poke(s1.mem, pte.frame, pte.index, v)), Ok)
  {
    assert Truncate(PteValue(paddr, privilege)) == v;
  }

  /** After find_pte the slot for the page is there, empty, and the frame to be
      mapped is still reached by nothing. */
  lemma FindPteReady(s: State, kd: nat, live: set<nat>, d: nat, vaddr: Word, x: nat)
    requires Inv(s, kd, live) && d in live && vaddr >= MEM_TASK_BASE
    requires !UserPte(s.mem, d, PdeIndex(vaddr), PteIndex(vaddr))
    requires Used(s, x) && Unreached(s, kd, live, x)
    ensures var (s1, pte) := FindPte(s, d, vaddr, true);
            var i, j := PdeIndex(vaddr), PteIndex(vaddr);
            if pte.Null? then s1 == s
            else pte == Ref(Tab(s1.mem, d, i), j) && j < ENTRIES && Inv(s1, kd, live) &&
                 UserPde(s1.mem, d, i) && !UserPte(s1.mem, d, i, j) && Used(s1, x) && Unreached(s1, kd, live, x)
  {
    IndexRanges(vaddr);
    var i := PdeIndex(vaddr);
    if !UserPde(s.mem, d, i) {
      FindPteLinks(s, kd, live, d, vaddr);
      var (s1, pte) := FindPte(s, d, vaddr, true);
      if pte.Ref? {
        forall p | Has(s1.mem, kd, live, p) ensures At(s1.mem, kd, p) != x {
          assert p == Table(d, i) || Has(s.mem, kd, live, p);
        }
      }
    }
  }

  lemma FindAndStore(s: State, kd: nat, live: set<nat>, d: nat, vaddr: Word, x: nat, v: Word)
    requires Inv(s, kd, live) && d in live && vaddr >= MEM_TASK_BASE
    requires !UserPte(s.mem, d, PdeIndex(vaddr), PteIndex(vaddr))
    requires Used(s, x) && Unreached(s, kd, live, x) && Present(v) && FrameOf(v) == x
    ensures var (s1, pte) := FindPte(s, d, vaddr, true);
            if pte.Null? then s1 == s
            else !Present(Entry(s1.mem, pte.frame, pte.index)) &&
                 Mapped(s, WithMem(s1, Poke(s1.mem, pte.frame, pte.index, v)), kd, live, d,
                        PdeIndex(vaddr), PteIndex(vaddr), v)
  {
    var i, j := PdeIndex(vaddr), PteIndex(vaddr);
    var (s1, pte) := FindPte(s, d, vaddr, true);
    FindPteReady(s, kd, live, d, vaddr, x);
    if pte.Ref? {
      StoreMaps(s1, kd, live, d, i, j, v);
      if !UserPde(s.mem, d, i) {
        FindPteLinks(s, kd, live, d, vaddr);
        LinkThenStore(s, s1, WithMem(s1, Poke(s1.mem, pte.frame, pte.index, v)), kd, live, d, i, j, v);
      }
    }
  }

  /** memory_create_map of one page onto an allocated frame that nothing reaches:
      its ASSERT does not fire, and without memory for a table it changes nothing. */
  lemma MapUserPage(s: State, kd: nat, live: set<nat>, d: nat, vaddr: Word, x: nat, privilege: nat)
    requires Inv(s, kd, live) && d in live && vaddr >= MEM_TASK_BASE && privilege < PAGE_SIZE
    requires !UserPte(s.mem, d, PdeIndex(vaddr), PteIndex(vaddr))
    requires Used(s, x) && Unreached(s, kd, live, x)
    ensures var (s', st) := MapPages(s, d, vaddr, x * PAGE_SIZE, 1, privilege);
            st != Panic && (st == NoMemory ==> s' == s) &&
            (st == Ok ==>
               var v := Pte(s'.mem, d, PdeIndex(vaddr), PteIndex(vaddr));
               v == PteValue(x * PAGE_SIZE, privilege) && Present(v) && FrameOf(v) == x &&
               Mapped(s, s', kd, live, d, PdeIndex(vaddr), PteIndex(vaddr), v))
  {
    PteValueFields(x, privilege);
    var v: Word := PteValue(x * PAGE_SIZE, privilege);
    MapPagesOne(s, d, vaddr, x * PAGE_SIZE, privilege, v);
    FindAndStore(s, kd, live, d, vaddr, x, v);
  }
}
