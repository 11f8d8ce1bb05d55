/** One small address space, at which the failures the other modules describe happen. */
module Example {
  import opened Mmu
  import opened Vm
  import opened Ownership
  import opened Mapping
  import opened Demand
  import opened Heap
  import opened Strand
  import opened Bytes
  import opened Transfer
  import MemoryManager

  const KERNEL_DIR := 0
  const DIR := 256
  const TABLE := 257
  const PAGE := 258

  /** The entry that leads to frame `f`, with the flags P, W and U. */
  function Link(f: nat): Word
    requires f < 1000
  {
    f * PAGE_SIZE + 7
  }

  /** A directory in the first managed frame, its table in the second and one page, at
      MEM_TASK_BASE, in the third; `free` frames are left. */
  function Space(free: nat): State {
    State(seq(259 + free, f requires 0 <= f < 259 + free => Frame(f)), seq(3 + free, k => k < 3), 3)
  }

  function Frame(f: nat): Page {
    if f == DIR then ZeroPage()[USER_PDE := Link(TABLE)]
    else if f == TABLE then ZeroPage()[0 := Link(PAGE)]
    else ZeroPage()
  }

  lemma SpaceEntries(free: nat)
    requires free <= 100
    ensures var s := Space(free);
            && Shape(s)
            && (forall f: nat, i: nat :: Entry(s.mem, f, i) == if f == DIR && i == USER_PDE then Link(TABLE) else if f == TABLE && i == 0 then Link(PAGE) else 0)
            && (forall f: nat :: Used(s, f) <==> 256 <= f < 259)
  {
  }

  lemma SpacePages(free: nat)
    requires free <= 100
    ensures forall i: nat, j: nat :: UserPte(Space(free).mem, DIR, i, j) <==> i == USER_PDE && j == 0
    ensures forall i: nat :: UserPde(Space(free).mem, DIR, i) <==> i == USER_PDE
  {
    SpaceEntries(free);
  }

  /** The frames reached are the three that are in use. */
  lemma SpacePaths(free: nat)
    requires free <= 100
    ensures forall p :: Has(Space(free).mem, KERNEL_DIR, {DIR}, p) <==>
                        p == Root(DIR) || p == Table(DIR, USER_PDE) || p == Leaf(DIR, USER_PDE, 0)
    ensures At(Space(free).mem, KERNEL_DIR, Root(DIR)) == DIR && At(Space(free).mem, KERNEL_DIR, Table(DIR, USER_PDE)) == TABLE
    ensures At(Space(free).mem, KERNEL_DIR, Leaf(DIR, USER_PDE, 0)) == PAGE
  {
    SpaceEntries(free);
    SpacePages(free);
  }

  lemma SpaceInv(free: nat)
    requires free <= 100
    ensures Inv(Space(free), KERNEL_DIR, {DIR})
    ensures forall i: nat, j: nat :: UserPte(Space(free).mem, DIR, i, j) <==> i == USER_PDE && j == 0
    ensures forall i: nat :: UserPde(Space(free).mem, DIR, i) <==> i == USER_PDE
  {
    SpaceEntries(free);
    SpacePages(free);
    SpacePaths(free);
  }

  lemma {:induction false} ClearTail(bits: seq<bool>, from: nat)
    requires from <= |bits| && forall k :: from <= k < |bits| ==> !bits[k]
    ensures Clear(bits, from) == |bits| - from
    decreases |bits| - from
  {
    if from < |bits| {
      ClearTail(bits, from + 1);
    }
  }

  lemma SpaceFree(free: nat)
    ensures FreeFrom(Space(free)) == free
  {
    ClearTail(Space(free).bits, 3);
  }

  lemma SpaceNeed(free: nat)
    requires free <= 100
    ensures NeedBelow(Space(free).mem, DIR, USER_PDE) == 0 && SlotNeed(Space(free).mem, DIR, USER_PDE) == 2
    ensures NeedBelow(Space(free).mem, DIR, ENTRIES) >= 2
  {
    var m := Space(free).mem;
    SpaceInv(free);
    assert PagesFrom(m, DIR, USER_PDE, 0) == {0};
    var above: nat := USER_PDE + 1;
    assert NeedBelow(m, DIR, above) == NeedBelow(m, DIR, above - 1) + SlotNeed(m, DIR, above - 1);
    NeedMonotone(m, DIR, above, ENTRIES);
  }

  lemma CopyStrandsFrom(s: State, kd: nat, d: nat, top: nat)
    requires Inv(s, kd, {d}) && FreeFrom(s) == 2 && top == ENTRIES
    requires NeedBelow(s.mem, d, USER_PDE) == 0 && SlotNeed(s.mem, d, USER_PDE) == 2 && NeedBelow(s.mem, d, top) >= 2
    ensures CopyUvm(s, kd, d).2 == 0 && CopyUvm(s, kd, d).0.bits != s.bits
  {
    assert Strands(s.mem, d, 2);
    CopyRuns(s, kd, {d}, d);
  }

  /** With two free frames a copy takes one for the directory and one for the page, finds
      none for the table, and fails; the page frame stays allocated. */
  lemma CopyStrands()
    ensures var s := Space(2);
            Inv(s, KERNEL_DIR, {DIR}) && CopyUvm(s, KERNEL_DIR, DIR).2 == 0 && CopyUvm(s, KERNEL_DIR, DIR).0.bits != s.bits
  {
    SpaceInv(2);
    SpaceFree(2);
    SpaceNeed(2);
    CopyStrandsFrom(Space(2), KERNEL_DIR, DIR, ENTRIES);
  }

  /** Without a free frame sys_sbrk of one byte at the end of the page returns the old
      end as if it had worked, and the byte is not there. */
  lemma SbrkIsSilent()
    ensures var s := Space(0);
            var b := Sbrk(s, DIR, MEM_TASK_BASE + PAGE_SIZE, 1);
            Inv(s, KERNEL_DIR, {DIR}) && b.ret == MEM_TASK_BASE + PAGE_SIZE && b.heapEnd == MEM_TASK_BASE + PAGE_SIZE + 1 &&
            !PageMapped(b.s.mem, DIR, (MEM_TASK_BASE + PAGE_SIZE) / PAGE_SIZE)
  {
    var s, end := Space(0), MEM_TASK_BASE + PAGE_SIZE;
    SpaceInv(0);
    SpaceFree(0);
    SbrkUnbacked(s, KERNEL_DIR, {DIR}, DIR, end, end + 1, 1);
  }

  /** With one free frame sys_sbrk of one byte at the start of the mapped page stops at
      the ASSERT in memory_create_map. */
  lemma SbrkPanics()
    ensures Inv(Space(1), KERNEL_DIR, {DIR}) && Sbrk(Space(1), DIR, MEM_TASK_BASE, 1).st == Panic
  {
    SpaceInv(1);
    SpaceFree(1);
    assert FirstAt(Space(1).mem, DIR, PageUp(MEM_TASK_BASE), 0);
    SbrkPanicsIff(Space(1), KERNEL_DIR, {DIR}, DIR, MEM_TASK_BASE, 1);
  }

  /** An address in the page above the one that is mapped, and one in the kernel half
      that holds the byte 7, the flags of the entry in the table. */
  const DEST: Word := MEM_TASK_BASE + PAGE_SIZE + 1
  const SRC: Word := TABLE * PAGE_SIZE

  lemma DestIsFrameZero(s: State)
    requires s == Space(0)
    ensures !Transfer.Backed(s.mem, DIR, DEST) && PhysAddr(s.mem, DIR, DEST) == 1
    ensures Readable(s.mem, DIR, SRC, 1, 0) && SourceBytes(s.mem, DIR, SRC, 1) == [7]
    ensures PageByte(s.mem[0], 1) == 0
  {
    SpaceInv(0);
    SpaceEntries(0);
    assert PdeIndex(DEST) == USER_PDE && PteIndex(DEST) == 1;
    assert Translate(s.mem, DIR, DEST) == 0;
    assert VirtByte(s.mem, DIR, SRC) == 7;
  }

  /** One round of memory_copy_uvm_data to an unmapped page overwrites a byte of physical
      frame 0. */
  method FrameZeroIsWritten(memory: MemoryManager.Memory)
    requires memory.Valid() && memory.View() == Space(0) && memory.live == {DIR} && memory.cr3 == DIR * PAGE_SIZE
    modifies memory.mem, memory.bitmap.bitArr, memory.cursor
    ensures !Transfer.Backed(old(memory.View()).mem, DIR, DEST)
    ensures old(PageByte(memory.mem[0], 1)) == 0 && PageByte(memory.mem[0], 1) == 7
  {
    ghost var s := memory.View();
    DestIsFrameZero(s);
    var moved := memory.CopyRound(DEST, DIR * PAGE_SIZE, SRC, 1);
    assert moved == 1 && memory.mem[0] == memory.View().mem[0];
  }
}
