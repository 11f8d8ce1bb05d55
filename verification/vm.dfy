/** The virtual memory operations of src/kernel/core/memory.c as functions on the
    state they change: the physical frames, the allocator's bit map and its cursor.
    Directories, tables and data pages are all frames, named by frame number. */
module Vm {
  import opened Mmu
  import Bitmaps

  /** The allocator hands out memory from MEM_EXT_START (1 MB) on. */
  const MEM_EXT_START := 0x10_0000
  const FIRST_FRAME := 256

  /** User addresses start at MEM_TASK_BASE (2 GB), directory entry 512; RAM lies below. */
  const MEM_TASK_BASE := 0x8000_0000
  const USER_PDE := 512
  const MAX_FRAMES := 0x8_0000

  type Page = p: seq<Word> | |p| == ENTRIES witness seq(ENTRIES, _ => 0)

  function ZeroPage(): Page {
    seq(ENTRIES, _ => 0)
  }

  datatype State = State(mem: seq<Page>, bits: seq<bool>, cursor: nat)

  datatype Status = Ok | NoMemory | Panic

  datatype PtePtr = Null | Ref(frame: nat, index: nat)

  predicate Shape(s: State) {
    |s.mem| == FIRST_FRAME + |s.bits| && |s.mem| <= MAX_FRAMES
  }

  predicate Managed(s: State, f: nat) {
    FIRST_FRAME <= f < FIRST_FRAME + |s.bits|
  }

  predicate Used(s: State, f: nat) {
    Managed(s, f) && s.bits[f - FIRST_FRAME]
  }

  predicate Free(s: State, f: nat) {
    Managed(s, f) && !s.bits[f - FIRST_FRAME]
  }

  // ---------- Words in frames ----------

  /** Conversion to uint32_t. */
  function Truncate(x: int): Word {
    x % 0x1_0000_0000
  }

  /** Entry `i` of the directory or table in frame `f`. */
  function Entry(m: seq<Page>, f: nat, i: nat): Word {
    if f < |m| && i < ENTRIES then m[f][i] else 0
  }

  function WithMem(s: State, m: seq<Page>): State {
    State(m, s.bits, s.cursor)
  }

  function Poke(m: seq<Page>, f: nat, i: nat, v: Word): (m': seq<Page>)
    ensures |m'| == |m|
  {
    if f < |m| && i < ENTRIES then m[f := m[f][i := v]] else m
  }

  function SetPage(m: seq<Page>, f: nat, p: Page): (m': seq<Page>)
    ensures |m'| == |m|
  {
    if f < |m| then m[f := p] else m
  }

  // ---------- The frame allocator ----------

  /** addr_alloc_page for one page: its address, or 0. */
  function AllocPage(s: State): (State, nat) {
    var k := Bitmaps.FindRun(s.bits, s.cursor, 1, false);
    if k == -1 then (s, 0)
    else (s.(bits := Bitmaps.Fill(s.bits, k, 1, true), cursor := k + 1), MEM_EXT_START + k * PAGE_SIZE)
  }

  /** addr_free_page for one page; the index is computed in 32 bits, so an address
      below MEM_EXT_START gives an index past the end and changes nothing. */
  function FreePage(s: State, addr: Word): State {
    s.(bits := Bitmaps.Fill(s.bits, Truncate(addr - MEM_EXT_START) / PAGE_SIZE, 1, false))
  }

  // ---------- Page tables ----------

  function FindPte(s: State, dir: nat, vaddr: Word, alloc: bool): (State, PtePtr) {
    var e := Entry(s.mem, dir, PdeIndex(vaddr));
    if Present(e) then (s, Ref(FrameOf(e), PteIndex(vaddr)))
    else if !alloc then (s, Null)
    else
      var (s1, page) := AllocPage(s);
      if page == 0 then (s1, Null)
      else
        var m := Poke(s1.mem, dir, PdeIndex(vaddr), Truncate(TableValue(page)));
        (WithMem(s1, SetPage(m, page / PAGE_SIZE, ZeroPage())), Ref(page / PAGE_SIZE, PteIndex(vaddr)))
  }

  /** memory_create_map. `Panic` is its ASSERT that the entry is not yet present. */
  function MapPages(s: State, dir: nat, vaddr: Word, paddr: Word, num: nat, privilege: nat): (State, Status)
    decreases num
  {
    if num == 0 then (s, Ok)
    else
      var (s1, pte) := FindPte(s, dir, vaddr, true);
      if pte.Null? then (s1, NoMemory)
      else if Present(Entry(s1.mem, pte.frame, pte.index)) then (s1, Panic)
      else
        var m := Poke(s1.mem, pte.frame, pte.index, Truncate(PteValue(paddr, privilege)));
        MapPages(WithMem(s1, m), dir, Truncate(vaddr + PAGE_SIZE), Truncate(paddr + PAGE_SIZE), num - 1, privilege)
  }

  /** memory_create_uvm: a directory holding the kernel half; its address, or 0. */
  function CreateUvm(s: State, kernelDir: nat): (State, nat) {
    var (s1, page) := AllocPage(s);
    if page == 0 then (s1, 0)
    else (WithMem(s1, SetPage(s1.mem, page / PAGE_SIZE, FreshDir(s1.mem, kernelDir))), page)
  }

  function FreshDir(m: seq<Page>, kernelDir: nat): Page {
    seq(ENTRIES, i requires 0 <= i < ENTRIES => if i < USER_PDE then Entry(m, kernelDir, i) else 0)
  }

  /** One round of memory_alloc_for_page_dir: a new frame for one page. */
  function AllocStep(s: State, dir: nat, vaddr: Word, privilege: nat): (State, Status) {
    var (s1, page) := AllocPage(s);
    if page == 0 then (s1, NoMemory) else MapPages(s1, dir, vaddr, Truncate(page), 1, privilege)
  }

  /** The loop of memory_alloc_for_page_dir. */
  function AllocForDir(s: State, dir: nat, vaddr: Word, pages: nat, privilege: nat): (State, Status)
    decreases pages
  {
    if pages == 0 then (s, Ok)
    else
      var (s1, st) := AllocStep(s, dir, vaddr, privilege);
      if st != Ok then (s1, st)
      else AllocForDir(s1, dir, Truncate(vaddr + PAGE_SIZE), pages - 1, privilege)
  }

  /** The frame a user address is translated to. */
  function Translate(m: seq<Page>, dir: nat, vaddr: Word): nat {
    FrameOf(Entry(m, FrameOf(Entry(m, dir, PdeIndex(vaddr))), PteIndex(vaddr)))
  }

  /** Copy the page at a user address, read through `dir`, into a frame. */
  function CopyPage(m: seq<Page>, dir: nat, vaddr: Word, to: nat): seq<Page> {
    var from := Translate(m, dir, vaddr);
    if from < |m| then SetPage(m, to, m[from]) else m
  }

  /** One present entry of memory_copy_uvm: a new frame, mapped with the source's
      privilege bits and filled from the source page. */
  function CopyEntry(s: State, src: nat, target: nat, i: nat, j: nat, e: Word): (State, Status) {
    var (s1, page) := AllocPage(s);
    if page == 0 then (s1, NoMemory) else CopyInto(s1, src, target, Truncate(PageTableVaddr(i, j)), e, page)
  }

  function CopyInto(s: State, src: nat, target: nat, vaddr: Word, e: Word, page: nat): (State, Status) {
    var (s2, st) := MapPages(s, target, vaddr, Truncate(page), 1, Privilege(e));
    if st != Ok then (s2, st)
    else (WithMem(s2, CopyPage(s2.mem, src, vaddr, page / PAGE_SIZE)), Ok)
  }

  /** One table of memory_copy_uvm, from entry `j` on. */
  function CopyTable(s: State, src: nat, target: nat, i: nat, table: nat, j: nat): (State, Status)
    decreases ENTRIES - j
  {
    if j >= ENTRIES then (s, Ok)
    else if !Present(Entry(s.mem, table, j)) then CopyTable(s, src, target, i, table, j + 1)
    else
      var (s1, st) := CopyEntry(s, src, target, i, j, Entry(s.mem, table, j));
      if st != Ok then (s1, st) else CopyTable(s1, src, target, i, table, j + 1)
  }

  /** The outer loop of memory_copy_uvm, from directory entry `i` on. */
  function CopyDir(s: State, src: nat, target: nat, i: nat): (State, Status)
    decreases ENTRIES - i
  {
    if i >= ENTRIES then (s, Ok)
    else if !Present(Entry(s.mem, src, i)) then CopyDir(s, src, target, i + 1)
    else
      var (s1, st) := CopyTable(s, src, target, i, FrameOf(Entry(s.mem, src, i)), 0);
      if st != Ok then (s1, st) else CopyDir(s1, src, target, i + 1)
  }

  /** memory_copy_uvm of the current directory: the copy's address, or 0. */
  function CopyUvm(s: State, kernelDir: nat, src: nat): (State, Status, nat) {
    var (s1, page) := CreateUvm(s, kernelDir);
    if page == 0 then (s1, NoMemory, 0)
    else
      var (s2, st) := CopyDir(s1, src, page / PAGE_SIZE, USER_PDE);
      if st == Ok then (s2, Ok, page)
      else (Destroy(s2, page / PAGE_SIZE), st, 0)
  }

  function DestroyTable(s: State, table: nat, j: nat): State
    decreases ENTRIES - j
  {
    if j >= ENTRIES then s
    else if !Present(Entry(s.mem, table, j)) then DestroyTable(s, table, j + 1)
    else DestroyTable(FreePage(s, PdePaddr(Entry(s.mem, table, j))), table, j + 1)
  }

  function DestroyDir(s: State, dir: nat, i: nat): State
    decreases ENTRIES - i
  {
    if i >= ENTRIES then s
    else
      var e := Entry(s.mem, dir, i);
      if !Present(e) then DestroyDir(s, dir, i + 1)
      else DestroyDir(FreePage(DestroyTable(s, FrameOf(e), 0), PdePaddr(e)), dir, i + 1)
  }

  /** memory_destroy_uvm. */
  function Destroy(s: State, dir: nat): State {
    FreePage(DestroyDir(s, dir, USER_PDE), Truncate(dir * PAGE_SIZE))
  }

  /** The user half of a directory translates exactly the addresses from 2 GB on, and the
      first managed frame is the one at 1 MB. */
  lemma HalvesMeet(a: Word)
    ensures a >= 0x8000_0000 <==> PdeIndex(a) >= USER_PDE
    ensures a >= 0x8000_0000 <==> a >= MEM_TASK_BASE
    ensures a / 4096 >= FIRST_FRAME <==> a >= 0x10_0000
    ensures a / 4096 >= FIRST_FRAME <==> a >= MEM_EXT_START
  {
  }

  // ---------- What the allocator promises ----------

  lemma AllocPageFresh(s: State)
    requires Shape(s)
    ensures var (s', page) := AllocPage(s);
            page == 0 ==> s' == s && forall k :: s.cursor <= k < |s.bits| ==> s.bits[k]
    ensures var (s', page) := AllocPage(s);
            var f := page / PAGE_SIZE;
            page != 0 ==>
              page == f * PAGE_SIZE && Free(s, f) && f < MAX_FRAMES && Shape(s') &&
              s'.mem == s.mem && s'.bits == s.bits[f - FIRST_FRAME := true] &&
              s.cursor <= f - FIRST_FRAME && s'.cursor == f - FIRST_FRAME + 1 &&
              forall k :: s.cursor <= k < f - FIRST_FRAME ==> s.bits[k]
  {
    var k := Bitmaps.FindRun(s.bits, s.cursor, 1, false);
    forall n: nat | s.cursor <= n < |s.bits| && !s.bits[n]
      ensures s.cursor <= k <= n
    {
      Bitmaps.FindRunIsLeftmost(s.bits, s.cursor, 1, false, n);
    }
  }

  lemma FreePageClears(s: State, f: nat)
    requires Shape(s) && Managed(s, f)
    ensures FreePage(s, f * PAGE_SIZE) == s.(bits := s.bits[f - FIRST_FRAME := false])
  {
    assert Truncate(f * PAGE_SIZE - MEM_EXT_START) / PAGE_SIZE == f - FIRST_FRAME;
  }
}
