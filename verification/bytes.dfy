/** Bytes of physical and virtual memory, over frames of 32-bit words. */
module Bytes {
  import opened Basics
  import opened Mmu
  import opened Vm

  /** Byte `k` of a little-endian word. */
  function GetByte(w: Word, k: nat): Byte
    requires k < 4
  {
    if k == 0 then w % 0x100
    else if k == 1 then w / 0x100 % 0x100
    else if k == 2 then w / 0x1_0000 % 0x100
    else w / 0x100_0000
  }

  function FromBytes(b0: Byte, b1: Byte, b2: Byte, b3: Byte): (w: Word)
    ensures GetByte(w, 0) == b0 && GetByte(w, 1) == b1 && GetByte(w, 2) == b2 && GetByte(w, 3) == b3
  {
    var hi := b2 + 0x100 * b3;
    var w := b0 + 0x100 * (b1 + 0x100 * hi);
    assert w / 0x100 == b1 + 0x100 * hi;
    assert w / 0x1_0000 == hi;
    w
  }

  /** A word is the sum of its bytes. */
  lemma SumOfBytes(w: Word)
    ensures w == GetByte(w, 0) + 0x100 * GetByte(w, 1) + 0x1_0000 * GetByte(w, 2) + 0x100_0000 * GetByte(w, 3)
  {
    var h := w / 0x100;
    assert w / 0x1_0000 == h / 0x100;
    assert w / 0x100_0000 == h / 0x100 / 0x100;
  }

  function PutByte(w: Word, k: nat, b: Byte): (r: Word)
    requires k < 4
    ensures forall j: nat :: j < 4 ==> GetByte(r, j) == if j == k then b else GetByte(w, j)
  {
    FromBytes(if k == 0 then b else GetByte(w, 0), if k == 1 then b else GetByte(w, 1),
              if k == 2 then b else GetByte(w, 2), if k == 3 then b else GetByte(w, 3))
  }

  lemma BytesMakeWord(w: Word, v: Word)
    requires forall k: nat :: k < 4 ==> GetByte(w, k) == GetByte(v, k)
    ensures w == v
  {
    SumOfBytes(w);
    SumOfBytes(v);
  }

  function PageByte(p: Page, o: nat): Byte
    requires o < PAGE_SIZE
  {
    GetByte(p[o / 4], o % 4)
  }

  function PutPageByte(p: Page, o: nat, b: Byte): (r: Page)
    requires o < PAGE_SIZE
    ensures forall x: nat :: x < PAGE_SIZE ==> PageByte(r, x) == if x == o then b else PageByte(p, x)
  {
    p[o / 4 := PutByte(p[o / 4], o % 4, b)]
  }

  /** Pages with the same bytes are the same. */
  lemma BytesMakePage(p: Page, q: Page)
    requires forall o: nat :: o < PAGE_SIZE ==> PageByte(p, o) == PageByte(q, o)
    ensures p == q
  {
    forall i | 0 <= i < ENTRIES ensures p[i] == q[i] {
      forall k: nat | k < 4 ensures GetByte(p[i], k) == GetByte(q[i], k) {
        assert (4 * i + k) / 4 == i && (4 * i + k) % 4 == k;
        assert PageByte(p, 4 * i + k) == PageByte(q, 4 * i + k);
      }
      BytesMakeWord(p[i], q[i]);
    }
  }

  /** The frame of an address as the processor sees it: the low half is mapped
      one to one, the high half goes through the current directory. */
  function FrameAt(m: seq<Page>, dir: nat, a: Word): nat {
    if a < MEM_TASK_BASE then a / PAGE_SIZE else Translate(m, dir, a)
  }

  /** The byte at a virtual address. */
  function VirtByte(m: seq<Page>, dir: nat, a: Word): Byte {
    var f := FrameAt(m, dir, a);
    if f < |m| then PageByte(m[f], a % PAGE_SIZE) else 0
  }
}
