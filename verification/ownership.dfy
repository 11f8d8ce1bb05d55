/** Which frame is reached by which path: the ownership invariant of the address
    spaces, and the three writes that page-table code performs under it. */
module Ownership {
  import opened Mmu
  import opened Vm

  /** The ways a frame can be in use by the page tables. */
  datatype Path =
    | Root(dir: nat)
    | Table(dir: nat, i: nat)
    | Leaf(dir: nat, i: nat, j: nat)
    | KernelTable(i: nat)

  predicate UserPde(m: seq<Page>, d: nat, i: nat) {
    USER_PDE <= i < ENTRIES && Present(Entry(m, d, i))
  }

  function Tab(m: seq<Page>, d: nat, i: nat): nat {
    FrameOf(Entry(m, d, i))
  }

  /** The page-table entry for user page (i, j) of directory `d`. */
  function Pte(m: seq<Page>, d: nat, i: nat, j: nat): Word {
    Entry(m, Tab(m, d, i), j)
  }

  /** User page (i, j) is mapped in directory `d`. */
  predicate UserPte(m: seq<Page>, d: nat, i: nat, j: nat) {
    UserPde(m, d, i) && j < ENTRIES && Present(Pte(m, d, i, j))
  }

  predicate Has(m: seq<Page>, kd: nat, live: set<nat>, p: Path) {
    match p
    case Root(d) => d in live
    case Table(d, i) => d in live && UserPde(m, d, i)
    case Leaf(d, i, j) => d in live && UserPte(m, d, i, j)
    case KernelTable(i) => i < USER_PDE && Present(Entry(m, kd, i))
  }

  function At(m: seq<Page>, kd: nat, p: Path): nat {
    match p
    case Root(d) => d
    case Table(d, i) => Tab(m, d, i)
    case Leaf(d, i, j) => FrameOf(Pte(m, d, i, j))
    case KernelTable(i) => Tab(m, kd, i)
  }

  predicate OfDir(p: Path, d: nat) {
    !p.KernelTable? && p.dir == d
  }

  /** The entry for a directory slot: shared by all directories in the kernel half. */
  function TablePath(kd: nat, d: nat, i: nat): Path {
    if d == kd then KernelTable(i) else Table(d, i)
  }

  /** The flags of directory entry `i`. */
  function TableBits(m: seq<Page>, d: nat, i: nat): nat {
    Entry(m, d, i) % PAGE_SIZE
  }

  /** Every user table is present, writable and open to the user, so that the flags of a
      page alone decide what a task may do with it. */
  ghost predicate TablesOpen(m: seq<Page>, live: set<nat>) {
    forall d, i: nat {:trigger TableBits(m, d, i)} :: d in live && UserPde(m, d, i) ==> TableBits(m, d, i) == 7
  }

  /** `kd` is the kernel directory (a static array below the managed frames) and
      `live` the directories in use. Every reached frame is allocated, no frame is
      reached twice, every directory shares the kernel half, and user tables are open. */
  ghost predicate Inv(s: State, kd: nat, live: set<nat>) {
    && Shape(s) && kd < FIRST_FRAME
    && (forall p :: Has(s.mem, kd, live, p) ==> Used(s, At(s.mem, kd, p)))
    && (forall p, q ::
          (Has(s.mem, kd, live, p) && Has(s.mem, kd, live, q) && At(s.mem, kd, p) == At(s.mem, kd, q))
          ==> p == q)
    && (forall d, i: nat :: d in live && i < USER_PDE ==> Entry(s.mem, d, i) == Entry(s.mem, kd, i))
    && TablesOpen(s.mem, live)
  }

  /** Which paths exist, and where they lead, is the same in two memories. */
  ghost predicate SamePaths(m: seq<Page>, m': seq<Page>, kd: nat, live: set<nat>) {
    forall p :: (Has(m', kd, live, p) <==> Has(m, kd, live, p)) &&
                (Has(m, kd, live, p) ==> At(m', kd, p) == At(m, kd, p))
  }

  /** Every path of `m` plus `extra`, leading where it did; `extra` leads to `f`. */
  ghost predicate Extends(m: seq<Page>, m': seq<Page>, kd: nat, live: set<nat>, extra: Path, f: nat) {
    && (forall p :: Has(m', kd, live, p) <==> Has(m, kd, live, p) || p == extra)
    && (forall p :: Has(m, kd, live, p) ==> At(m', kd, p) == At(m, kd, p))
    && At(m', kd, extra) == f
  }

  ghost predicate Unreached(s: State, kd: nat, live: set<nat>, f: nat) {
    forall p :: Has(s.mem, kd, live, p) ==> At(s.mem, kd, p) != f
  }

  /** An allocated frame that nothing reaches becomes the end of one new path. */
  lemma ExtendInv(s: State, s': State, kd: nat, live: set<nat>, extra: Path, f: nat)
    requires Inv(s, kd, live) && Shape(s') && |s'.bits| == |s.bits|
    requires forall g :: Used(s, g) ==> Used(s', g)
    requires Used(s', f) && Unreached(s, kd, live, f)
    requires Extends(s.mem, s'.mem, kd, live, extra, f)
    requires forall d, i: nat :: d in live && i < USER_PDE ==> Entry(s'.mem, d, i) == Entry(s'.mem, kd, i)
    requires TablesOpen(s'.mem, live)
    ensures Inv(s', kd, live)
  {
  }

  /** The directories and tables of live spaces are allocated frames above `kd`. */
  lemma FramesOfPath(s: State, kd: nat, live: set<nat>, p: Path)
    requires Inv(s, kd, live)
    ensures !p.KernelTable? && p.dir in live ==> Used(s, p.dir) && p.dir != kd
    ensures (p.Table? || p.Leaf?) && p.dir in live && UserPde(s.mem, p.dir, p.i)
            ==> Used(s, Tab(s.mem, p.dir, p.i)) && Tab(s.mem, p.dir, p.i) !in live
  {
    if !p.KernelTable? && p.dir in live {
      assert Has(s.mem, kd, live, Root(p.dir));
      if !p.Root? && UserPde(s.mem, p.dir, p.i) {
        assert Has(s.mem, kd, live, Table(p.dir, p.i));
        var t := Tab(s.mem, p.dir, p.i);
        if t in live {
          assert Has(s.mem, kd, live, Root(t));
        }
      }
    }
  }

  ghost predicate TableLinked(s: State, s': State, d: nat, i: nat, t: nat) {
    && Shape(s) && Free(s, t) && s'.bits == s.bits[t - FIRST_FRAME := true]
    && |s'.mem| == |s.mem|
    && (forall f: nat, x: nat ::
          Entry(s'.mem, f, x) == if f == t then 0 else if f == d && x == i then t * PAGE_SIZE + 7 else Entry(s.mem, f, x))
  }

  lemma LinkTablePath(s: State, s': State, kd: nat, live: set<nat>, d: nat, i: nat, t: nat, p: Path)
    requires Inv(s, kd, live) && i < ENTRIES && TableLinked(s, s', d, i, t)
    requires (d in live && USER_PDE <= i) || (d == kd && live == {} && i < USER_PDE)
    requires !Present(Entry(s.mem, d, i))
    ensures Has(s'.mem, kd, live, p) <==> Has(s.mem, kd, live, p) || p == TablePath(kd, d, i)
    ensures Has(s.mem, kd, live, p) ==> At(s'.mem, kd, p) == At(s.mem, kd, p)
  {
    FramesOfPath(s, kd, live, Root(d));
    if p.Leaf? {
      if p.dir in live {
        LinkTableLeaf(s, s', kd, live, d, i, t, p.dir, p.i, p.j);
      }
    } else if p.KernelTable? {
      LinkTableSlot(s, s', d, i, t, kd, p.i);
    } else if p.Table? && p.dir in live {
      FramesOfPath(s, kd, live, p);
      LinkTableSlot(s, s', d, i, t, p.dir, p.i);
    }
  }

  lemma LinkTableSlot(s: State, s': State, d: nat, i: nat, t: nat, o: nat, a: nat)
    requires TableLinked(s, s', d, i, t) && o != t && !Present(Entry(s.mem, d, i))
    ensures Present(Entry(s'.mem, o, a)) <==> Present(Entry(s.mem, o, a)) || (o == d && a == i)
    ensures Present(Entry(s.mem, o, a)) ==> Tab(s'.mem, o, a) == Tab(s.mem, o, a)
  {
  }

  lemma LinkTableBits(s: State, s': State, d: nat, i: nat, t: nat, o: nat, a: nat)
    requires TableLinked(s, s', d, i, t) && o != t && !Present(Entry(s.mem, d, i))
    ensures o == d && a == i ==> TableBits(s'.mem, o, a) == 7
    ensures o != d || a != i ==> TableBits(s'.mem, o, a) == TableBits(s.mem, o, a)
  {
  }

  /** The new table is empty, and the other tables are as they were. */
  lemma LinkTableLeaf(s: State, s': State, kd: nat, live: set<nat>, d: nat, i: nat, t: nat, o: nat, a: nat, b: nat)
    requires Inv(s, kd, live) && i < ENTRIES && TableLinked(s, s', d, i, t) && o in live && d in live && d != kd
    requires !Present(Entry(s.mem, d, i))
    ensures UserPte(s'.mem, o, a, b) <==> UserPte(s.mem, o, a, b)
    ensures UserPte(s.mem, o, a, b) ==> Pte(s'.mem, o, a, b) == Pte(s.mem, o, a, b)
  {
    FramesOfPath(s, kd, live, Leaf(o, a, b));
    FramesOfPath(s, kd, live, Root(d));
    if UserPde(s.mem, o, a) {
      assert Tab(s'.mem, o, a) == Tab(s.mem, o, a);
    }
  }

  /** find_pte's new table: frame `t` is cleared and hung into slot `i` of `d`. */
  lemma LinkTable(s: State, s': State, kd: nat, live: set<nat>, d: nat, i: nat, t: nat)
    requires Inv(s, kd, live) && i < ENTRIES && TableLinked(s, s', d, i, t)
    requires (d in live && USER_PDE <= i) || (d == kd && live == {} && i < USER_PDE)
    requires !Present(Entry(s.mem, d, i))
    ensures Inv(s', kd, live)
    ensures Extends(s.mem, s'.mem, kd, live, TablePath(kd, d, i), t)
    ensures forall j: nat :: j < ENTRIES ==> Entry(s'.mem, t, j) == 0
  {
    forall p
      ensures Has(s'.mem, kd, live, p) <==> Has(s.mem, kd, live, p) || p == TablePath(kd, d, i)
      ensures Has(s.mem, kd, live, p) ==> At(s'.mem, kd, p) == At(s.mem, kd, p)
    {
      LinkTablePath(s, s', kd, live, d, i, t, p);
    }
    FramesOfPath(s, kd, live, Root(d));
    forall d', i': nat | d' in live && i' < USER_PDE ensures Entry(s'.mem, d', i') == Entry(s'.mem, kd, i') {
      FramesOfPath(s, kd, live, Root(d'));
      assert Entry(s.mem, d', i') == Entry(s.mem, kd, i');
    }
    forall d', i': nat | d' in live && UserPde(s'.mem, d', i') ensures TableBits(s'.mem, d', i') == 7 {
      FramesOfPath(s, kd, live, Root(d'));
      LinkTableBits(s, s', d, i, t, d', i');
    }
    ExtendInv(s, s', kd, live, TablePath(kd, d, i), t);
  }

  lemma WriteLeafPath(s: State, s': State, kd: nat, live: set<nat>, d: nat, i: nat, j: nat, v: Word, p: Path)
    requires Inv(s, kd, live) && d in live && UserPde(s.mem, d, i) && j < ENTRIES
    requires !UserPte(s.mem, d, i, j) && Present(v)
    requires s'.mem == Poke(s.mem, Tab(s.mem, d, i), j, v)
    ensures Has(s'.mem, kd, live, p) <==> Has(s.mem, kd, live, p) || p == Leaf(d, i, j)
    ensures Has(s.mem, kd, live, p) ==> At(s'.mem, kd, p) == At(s.mem, kd, p)
    ensures p.Leaf? && Has(s.mem, kd, live, p) ==> Pte(s'.mem, p.dir, p.i, p.j) == Pte(s.mem, p.dir, p.i, p.j)
  {
    FramesOfPath(s, kd, live, p);
    FramesOfPath(s, kd, live, Table(d, i));
    if p.Leaf? && p.dir in live && UserPde(s.mem, p.dir, p.i) {
      assert Has(s.mem, kd, live, Table(p.dir, p.i)) && Has(s.mem, kd, live, Table(d, i));
    }
  }

  /** memory_create_map's store: entry (i, j) of `d` now leads to frame `f`. */
  lemma WriteLeaf(s: State, s': State, kd: nat, live: set<nat>, d: nat, i: nat, j: nat, v: Word)
    requires Inv(s, kd, live) && d in live && UserPde(s.mem, d, i) && j < ENTRIES
    requires !UserPte(s.mem, d, i, j) && Present(v)
    requires Used(s, FrameOf(v)) && Unreached(s, kd, live, FrameOf(v))
    requires s'.bits == s.bits && s'.mem == Poke(s.mem, Tab(s.mem, d, i), j, v)
    ensures Inv(s', kd, live)
    ensures Extends(s.mem, s'.mem, kd, live, Leaf(d, i, j), FrameOf(v))
    ensures Pte(s'.mem, d, i, j) == v
    ensures forall d', i': nat, j': nat :: UserPte(s.mem, d', i', j') && d' in live
              ==> Pte(s'.mem, d', i', j') == Pte(s.mem, d', i', j')
  {
    FramesOfPath(s, kd, live, Table(d, i));
    forall p
      ensures Has(s'.mem, kd, live, p) <==> Has(s.mem, kd, live, p) || p == Leaf(d, i, j)
      ensures Has(s.mem, kd, live, p) ==> At(s'.mem, kd, p) == At(s.mem, kd, p)
    {
      WriteLeafPath(s, s', kd, live, d, i, j, v, p);
    }
    forall d', i': nat, j': nat | UserPte(s.mem, d', i', j') && d' in live
      ensures Pte(s'.mem, d', i', j') == Pte(s.mem, d', i', j')
    {
      WriteLeafPath(s, s', kd, live, d, i, j, v, Leaf(d', i', j'));
    }
    forall d', i': nat | d' in live && i' < USER_PDE ensures Entry(s'.mem, d', i') == Entry(s'.mem, kd, i') {
      FramesOfPath(s, kd, live, Root(d'));
      assert Entry(s.mem, d', i') == Entry(s.mem, kd, i');
    }
    forall d', i': nat | d' in live && UserPde(s'.mem, d', i') ensures TableBits(s'.mem, d', i') == 7 {
      FramesOfPath(s, kd, live, Root(d'));
      assert TableBits(s.mem, d', i') == TableBits(s'.mem, d', i');
    }
    ExtendInv(s, s', kd, live, Leaf(d, i, j), FrameOf(v));
  }

  /** Memory that keeps every unmanaged and every allocated frame keeps all paths. */
  lemma KeptPaths(s: State, m': seq<Page>, kd: nat, live: set<nat>)
    requires Inv(s, kd, live) && |m'| == |s.mem|
    requires forall f: nat :: f < |m'| && !Free(s, f) ==> m'[f] == s.mem[f]
    ensures SamePaths(s.mem, m', kd, live)
    ensures forall d, i: nat :: d in live && i < ENTRIES ==> Entry(m', d, i) == Entry(s.mem, d, i)
    ensures forall d, i: nat, j: nat :: d in live && UserPde(s.mem, d, i) ==> Pte(m', d, i, j) == Pte(s.mem, d, i, j)
  {
    forall d | d in live ensures Used(s, d) {
      assert Has(s.mem, kd, live, Root(d));
    }
    forall d, i: nat | d in live && UserPde(s.mem, d, i) ensures Used(s, Tab(s.mem, d, i)) {
      assert Has(s.mem, kd, live, Table(d, i));
    }
  }
}
