/** The heap of one task over whole runs: its calls of sys_sbrk mixed with everything
    else the kernel does to address spaces. */
module HeapRuns {
  import opened Mmu
  import opened Vm
  import opened Ownership
  import opened Mapping
  import opened Growth
  import opened PageAlloc
  import opened Copy
  import opened Destruction
  import opened Fork
  import opened Spaces
  import opened Demand
  import opened Heap

  /** A call of sys_sbrk by the task, or any other operation. */
  datatype HeapOp = Grow(incr: nat) | Other(op: Op)

  /** The operation neither maps into `d` nor destroys it. It may copy it. */
  predicate Leaves(op: Op, d: nat) {
    (op.MapRange? || op.DestroySpace?) ==> op.dir != d
  }

  /** `d` maps the same pages, through the same entries, with the same contents. */
  ghost predicate SpaceKept(s: State, s': State, d: nat) {
    && (forall i: nat, j: nat :: UserPte(s'.mem, d, i, j) <==> UserPte(s.mem, d, i, j))
    && PagesKept(s, s', d)
  }

  /** Every page that `d` maps stays mapped, through the same entry, with the same contents. */
  ghost predicate PagesKept(s: State, s': State, d: nat) {
    forall i: nat, j: nat :: UserPte(s.mem, d, i, j) ==>
      UserPte(s'.mem, d, i, j) && Pte(s'.mem, d, i, j) == Pte(s.mem, d, i, j) && PageAt(s'.mem, d, i, j) == PageAt(s.mem, d, i, j)
  }

  lemma FramesKeepSpace(s: State, s': State, kd: nat, live: set<nat>, d: nat)
    requires Inv(s, kd, live) && d in live && |s'.mem| == |s.mem|
    requires forall f: nat :: f < |s.mem| && !Free(s, f) ==> s'.mem[f] == s.mem[f]
    ensures SpaceKept(s, s', d)
  {
    KeptPaths(s, s'.mem, kd, live);
    forall i: nat, j: nat | UserPte(s.mem, d, i, j) ensures PageAt(s'.mem, d, i, j) == PageAt(s.mem, d, i, j) {
      assert Has(s.mem, kd, live, Leaf(d, i, j));
    }
  }

  lemma GrownKeepsSpace(s: State, s': State, kd: nat, live: set<nat>, o: nat, d: nat)
    requires Grown(s, s', kd, live, o) && d in live && o != d
    ensures SpaceKept(s, s', d)
  {
    OthersKept(s, s', kd, live, o, d);
  }

  /** No operation on other spaces, and no copy of `d`, changes a page of `d`. */
  lemma StepKeepsSpace(kd: nat, sys: System, op: Op, d: nat)
    requires Inv(sys.s, kd, sys.live) && Spaces.Enabled(sys, op) && d in sys.live && Leaves(op, d)
    ensures d in Step(kd, sys, op).live && SpaceKept(sys.s, Step(kd, sys, op).s, d)
  {
    match op
    case CreateSpace =>
      CreateUvmCreates(sys.s, kd, sys.live);
      FramesKeepSpace(sys.s, CreateUvm(sys.s, kd).0, kd, sys.live, d);
    case MapRange(o, vaddr, pages, privilege) =>
      AllocForDirGrows(sys.s, kd, sys.live, o, vaddr, pages, privilege);
      GrownKeepsSpace(sys.s, AllocForDir(sys.s, o, vaddr, pages, privilege).0, kd, sys.live, o, d);
    case CopySpace(o) =>
      CopyUvmForks(sys.s, kd, sys.live, o);
      FailedCopyStrandsAtMostOne(sys.s, kd, sys.live, o);
      FramesKeepSpace(sys.s, CopyUvm(sys.s, kd, o).0, kd, sys.live, d);
    case DestroySpace(o) =>
      DestroyFreesOwned(sys.s, kd, sys.live, o);
      FramesKeepSpace(sys.s, Destroy(sys.s, o), kd, sys.live, d);
  }

  lemma SpaceKeepsHeap(s: State, s': State, d: nat, heapEnd: nat, limit: nat)
    requires SpaceKept(s, s', d) && HeapInv(s, d, heapEnd, limit)
    ensures HeapInv(s', d, heapEnd, limit) && forall n: nat :: PageMapped(s'.mem, d, n) <==> PageMapped(s.mem, d, n)
  {
    assert forall n: nat :: PageMapped(s'.mem, d, n) <==> PageMapped(s.mem, d, n);
  }

  // ---------- Runs ----------

  /** Each call stays below `limit` and finds a frame for every page and table it needs;
      the other operations leave `d` to its task. */
  ghost predicate Proceeds(kd: nat, sys: System, d: nat, heapEnd: Word, limit: nat, ops: seq<HeapOp>, end: System, heapEnd': Word)
    decreases ops
  {
    if ops == [] then end == sys && heapEnd' == heapEnd
    else
      match ops[0]
      case Grow(incr) =>
        heapEnd + incr <= limit && FreeFrom(sys.s) >= Need(sys.s.mem, d, PageUp(heapEnd), NewPages(heapEnd, incr)) &&
        (var b := Sbrk(sys.s, d, heapEnd, incr);
         Proceeds(kd, System(b.s, sys.live), d, b.heapEnd, limit, ops[1..], end, heapEnd'))
      case Other(op) =>
        Spaces.Enabled(sys, op) && Leaves(op, d) && Proceeds(kd, Step(kd, sys, op), d, heapEnd, limit, ops[1..], end, heapEnd')
  }

  /** The sum of the increments. */
  function Asked(ops: seq<HeapOp>): nat {
    if ops == [] then 0 else (if ops[0].Grow? then ops[0].incr else 0) + Asked(ops[1..])
  }

  /** What holds between the start of a run and its end. */
  ghost predicate Held(s: State, s': State, d: nat, heapEnd: nat, heapEnd': nat, limit: nat) {
    && heapEnd <= heapEnd' && HeapInv(s', d, heapEnd', limit) && PagesKept(s, s', d) && NewPagesUsable(s, s', d)
    && (forall n: nat :: PageMapped(s'.mem, d, n) <==> (PageMapped(s.mem, d, n) || PageUp(heapEnd) <= n < PageUp(heapEnd')))
  }

  lemma HeldOn(s: State, s1: State, s2: State, d: nat, a: nat, b: nat, c: nat, limit: nat)
    requires Held(s, s1, d, a, b, limit) && Held(s1, s2, d, b, c, limit)
    ensures Held(s, s2, d, a, c, limit)
  {
    assert PageUp(a) <= PageUp(b) <= PageUp(c);
    UsableOn(s, s1, s2, d);
  }

  lemma UsableOn(s: State, s1: State, s2: State, d: nat)
    requires NewPagesUsable(s, s1, d) && NewPagesUsable(s1, s2, d) && PagesKept(s1, s2, d)
    ensures NewPagesUsable(s, s2, d)
  {
  }

  lemma GrowHolds(s: State, kd: nat, live: set<nat>, d: nat, heapEnd: Word, limit: nat, incr: nat)
    requires Inv(s, kd, live) && d in live && HeapInv(s, d, heapEnd, limit) && heapEnd + incr <= limit
    requires FreeFrom(s) >= Need(s.mem, d, PageUp(heapEnd), NewPages(heapEnd, incr))
    ensures var b := Sbrk(s, d, heapEnd, incr);
            Inv(b.s, kd, live) && b.heapEnd == heapEnd + incr && Held(s, b.s, d, heapEnd, b.heapEnd, limit)
  {
    SbrkBacks(s, kd, live, d, heapEnd, limit, incr);
    SbrkBackedIff(s, kd, live, d, heapEnd, limit, incr);
    OthersKept(s, Sbrk(s, d, heapEnd, incr).s, kd, live, d, d);
    GrownKeepsPages(s, Sbrk(s, d, heapEnd, incr).s, kd, live, d);
  }

  lemma GrownKeepsPages(s: State, s': State, kd: nat, live: set<nat>, d: nat)
    requires Grown(s, s', kd, live, d)
    ensures PagesKept(s, s', d)
  {
    OthersKept(s, s', kd, live, d, d);
    forall i: nat, j: nat | UserPte(s.mem, d, i, j) ensures UserPte(s'.mem, d, i, j) {
      assert Has(s.mem, kd, live, Leaf(d, i, j)) && Has(s'.mem, kd, live, Leaf(d, i, j));
    }
  }

  /** Over every run that mixes the task's calls with creating, mapping, copying and
      destroying other spaces: the heap end advances by what was asked, exactly the
      pages up to it are added, present, writable and open to the user, every byte
      handed out is backed, and every page of the task keeps its frame and contents. */
  lemma {:induction false} HeapStaysBacked(kd: nat, sys: System, d: nat, heapEnd: Word, limit: nat, ops: seq<HeapOp>,
                                           end: System, heapEnd': Word)
    requires Inv(sys.s, kd, sys.live) && d in sys.live && HeapInv(sys.s, d, heapEnd, limit)
    requires Proceeds(kd, sys, d, heapEnd, limit, ops, end, heapEnd')
    ensures Inv(end.s, kd, end.live) && d in end.live && heapEnd' == heapEnd + Asked(ops)
    ensures Held(sys.s, end.s, d, heapEnd, heapEnd', limit)
    ensures forall a :: heapEnd <= a < heapEnd' ==> PageMapped(end.s.mem, d, a / PAGE_SIZE)
    decreases ops
  {
    if ops != [] {
      match ops[0] {
        case Grow(incr) =>
          var b := Sbrk(sys.s, d, heapEnd, incr);
          GrowHolds(sys.s, kd, sys.live, d, heapEnd, limit, incr);
          HeapStaysBacked(kd, System(b.s, sys.live), d, b.heapEnd, limit, ops[1..], end, heapEnd');
          HeldOn(sys.s, b.s, end.s, d, heapEnd, b.heapEnd, heapEnd', limit);
        case Other(op) =>
          var sys1 := Step(kd, sys, op);
          OtherHolds(kd, sys, op, d, heapEnd, limit);
          HeapStaysBacked(kd, sys1, d, heapEnd, limit, ops[1..], end, heapEnd');
          HeldOn(sys.s, sys1.s, end.s, d, heapEnd, heapEnd, heapEnd', limit);
      }
    }
    BackedBelow(sys.s, end.s, d, heapEnd, heapEnd', limit);
  }

  lemma OtherHolds(kd: nat, sys: System, op: Op, d: nat, heapEnd: Word, limit: nat)
    requires Inv(sys.s, kd, sys.live) && Spaces.Enabled(sys, op) && d in sys.live && Leaves(op, d)
    requires HeapInv(sys.s, d, heapEnd, limit)
    ensures var sys1 := Step(kd, sys, op);
            Inv(sys1.s, kd, sys1.live) && d in sys1.live && Held(sys.s, sys1.s, d, heapEnd, heapEnd, limit)
  {
    StepKeepsInv(kd, sys, op);
    StepKeepsSpace(kd, sys, op, d);
    SpaceKeepsHeap(sys.s, Step(kd, sys, op).s, d, heapEnd, limit);
  }

  lemma BackedBelow(s: State, s': State, d: nat, heapEnd: nat, heapEnd': nat, limit: nat)
    requires HeapInv(s, d, heapEnd, limit) && Held(s, s', d, heapEnd, heapEnd', limit)
    ensures forall a :: heapEnd <= a < heapEnd' ==> PageMapped(s'.mem, d, a / PAGE_SIZE)
  {
    Heap.Backed(s, s', d, heapEnd, heapEnd' - heapEnd);
  }
}
