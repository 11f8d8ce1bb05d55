/** Two-level 32-bit page tables (src/kernel/include/cpu/mmu.h): the index and
    field macros, over 32-bit words written as bounded numbers. */
module Mmu {

  type Word = w: int | 0 <= w < 0x1_0000_0000

  const PAGE_SIZE := 4096
  const ENTRIES := 1024

  /** The P, W and U bits of an entry; together, what the kernel gives every table. */
  const TABLE_FLAGS := 7

  // ---------- Bitwise operations on numbers ----------

  function Pow2(n: nat): (r: nat)
    ensures r > 0
  {
    if n == 0 then 1 else 2 * Pow2(n - 1)
  }

  /** C's `|`. */
  function Or(x: nat, y: nat): nat {
    if x == 0 && y == 0 then 0
    else (if x % 2 == 1 || y % 2 == 1 then 1 else 0) + 2 * Or(x / 2, y / 2)
  }

  /** C's `&`. */
  function And(x: nat, y: nat): nat {
    if x == 0 || y == 0 then 0
    else (if x % 2 == 1 && y % 2 == 1 then 1 else 0) + 2 * And(x / 2, y / 2)
  }

  lemma {:induction false} OrZero(x: nat)
    ensures Or(x, 0) == x
  {
    if x > 0 {
      OrZero(x / 2);
    }
  }

  lemma OrEven(half: nat, lo: nat)
    ensures Or(2 * half, lo) == lo % 2 + 2 * Or(half, lo / 2)
  {
    assert 2 * half / 2 == half && 2 * half % 2 == 0;
  }

  lemma DoubleProduct(hi: nat, p: nat)
    ensures hi * (2 * p) == 2 * (hi * p)
  {
  }

  lemma OrFieldsStep(x: nat, half: nat, lo: nat)
    requires x == 2 * half && Or(half, lo / 2) == half + lo / 2
    ensures Or(x, lo) == x + lo
  {
    OrEven(half, lo);
  }

  /** Disjoint bit fields add up. */
  lemma {:induction false} OrFields(hi: nat, lo: nat, n: nat)
    requires lo < Pow2(n)
    ensures Or(hi * Pow2(n), lo) == hi * Pow2(n) + lo
  {
    if n == 0 {
      OrZero(hi);
    } else {
      OrFields(hi, lo / 2, n - 1);
      DoubleProduct(hi, Pow2(n - 1));
      OrFieldsStep(hi * Pow2(n), hi * Pow2(n - 1), lo);
    }
  }

  /** Setting bit 0. */
  lemma OrOne(x: nat)
    ensures Or(x, 1) == if x % 2 == 1 then x else x + 1
  {
    OrZero(x / 2);
    assert Or(x, 1) == 1 + 2 * Or(x / 2, 0);
  }

  /** Masking with `2^n - 1` keeps the low `n` bits. */
  lemma {:induction false} AndMask(x: nat, n: nat)
    ensures And(x, Pow2(n) - 1) == x % Pow2(n)
  {
    if x != 0 && n != 0 {
      AndMask(x / 2, n - 1);
      var h := Pow2(n - 1);
      assert (2 * h - 1) / 2 == h - 1 && (2 * h - 1) % 2 == 1;
      DoubleMod(x, h);
    }
  }

  lemma DoubleMod(x: nat, h: nat)
    requires h > 0
    ensures x % (2 * h) == 2 * (x / 2 % h) + x % 2
  {
    var q, r := x / 2 / h, x / 2 % h;
    assert x / 2 == h * q + r;
    assert 2 * h * q == 2 * (h * q);
    ModIs(x, 2 * h, q, 2 * r + x % 2);
  }

  lemma MulAtLeast(m: nat, k: nat)
    requires k >= 1
    ensures m * k >= m
  {
    assert m * k == m * (k - 1) + m;
  }

  /** Quotient and remainder are unique. */
  lemma ModIs(x: int, m: nat, q: int, r: int)
    requires 0 <= r < m && x == m * q + r
    ensures x % m == r && x / m == q
  {
    var q', r' := x / m, x % m;
    var d := q - q';
    assert m * d == r' - r by {
      assert x == m * q' + r';
      assert m * d == m * q - m * q';
    }
    assert m * (-d) == -(m * d);
    if d > 0 {
      MulAtLeast(m, d);
    } else if d < 0 {
      MulAtLeast(m, -d);
    }
  }

  // ---------- Entries ----------

  predicate Present(e: Word) {
    e % 2 == 1
  }

  /** The frame number in bits 12 to 31. */
  function FrameOf(e: Word): nat {
    e / PAGE_SIZE
  }

  function PdePaddr(e: Word): Word {
    FrameOf(e) * PAGE_SIZE
  }

  /** `value & 0x3FF`. */
  function Privilege(e: Word): nat {
    e % 1024
  }

  function PdeIndex(vaddr: Word): nat {
    vaddr / 0x40_0000
  }

  /** `vaddr >> 12 & 0x3FF`. */
  function PteIndex(vaddr: Word): nat {
    vaddr / PAGE_SIZE % 1024
  }

  /** `pde_index << 22 | pte_index << 12`. */
  function PageTableVaddr(i: nat, j: nat): nat {
    i * 0x40_0000 + j * PAGE_SIZE
  }

  /** The value memory_create_map stores, `paddr | privilege | PTE_P`, for a
      page-aligned address. */
  function PteValue(paddr: nat, privilege: nat): nat {
    paddr + (if privilege % 2 == 1 then privilege else privilege + 1)
  }

  /** What find_pte stores for a new table, `page_paddr | PDE_P | PDE_W | PDE_U`. */
  function TableValue(paddr: nat): nat {
    paddr + TABLE_FLAGS
  }

  lemma Pow2Values()
    ensures Pow2(10) == 1024 && Pow2(12) == 4096
  {
    assert Pow2(4) == 16;
    assert Pow2(8) == 256;
  }

  /** The two masks of mmu.h are remainders. */
  lemma MasksAreRemainders(e: Word)
    ensures Privilege(e) == And(e, 0x3FF)
    ensures PteIndex(e) == And(e / PAGE_SIZE, 0x3FF)
  {
    Pow2Values();
    AndMask(e, 10);
    AndMask(e / PAGE_SIZE, 10);
  }

  /** On page-aligned addresses and 12-bit flags the two sums are the `|` of mmu.h. */
  lemma ValuesAreOr(frame: nat, privilege: nat)
    requires privilege < PAGE_SIZE
    ensures PteValue(frame * PAGE_SIZE, privilege) == Or(Or(frame * PAGE_SIZE, privilege), 1)
    ensures TableValue(frame * PAGE_SIZE) == Or(frame * PAGE_SIZE, 7)
  {
    Pow2Values();
    OrFields(frame, privilege, 12);
    OrFields(frame, 7, 12);
    OrOne(frame * PAGE_SIZE + privilege);
    AlignedEven(frame, privilege);
  }

  lemma AlignedEven(frame: nat, privilege: nat)
    ensures (frame * PAGE_SIZE + privilege) % 2 == privilege % 2
  {
    assert frame * PAGE_SIZE + privilege == 2 * (2048 * frame) + privilege;
  }

  /** An entry built from a page-aligned address holds that frame, is present, and
      keeps the other flag bits. */
  lemma PteValueFields(frame: nat, privilege: nat)
    requires frame < 0x10_0000 && privilege < PAGE_SIZE
    ensures var v := PteValue(frame * PAGE_SIZE, privilege);
            v < 0x1_0000_0000 && FrameOf(v) == frame && Present(v) && v % PAGE_SIZE / 2 == privilege / 2
  {
  }

  /** Carrying the low ten bits of a present entry over to another frame. */
  lemma PrivilegeCarriesOver(frame: nat, e: Word, v: Word)
    requires frame < 0x10_0000 && Present(e) && v == PteValue(frame * PAGE_SIZE, Privilege(e))
    ensures Privilege(v) == Privilege(e)
  {
    var p := e % 1024;
    LowBit(e);
    assert v == 1024 * (4 * frame) + p;
    ModIs(v, 1024, 4 * frame, p);
  }

  lemma LowBit(e: Word)
    ensures e % 1024 % 2 == e % 2
  {
    var q, r := e / 1024, e % 1024;
    assert e == 2 * (512 * q) + r;
  }

  lemma IndexRanges(vaddr: Word)
    ensures PdeIndex(vaddr) < 1024 && PteIndex(vaddr) == vaddr / PAGE_SIZE % 1024
    ensures vaddr / PAGE_SIZE == PdeIndex(vaddr) * 1024 + PteIndex(vaddr)
  {
  }

  /** page_table_vaddr is the inverse of the two index macros. */
  lemma VaddrRoundTrip(i: nat, j: nat)
    requires i < 1024 && j < 1024
    ensures PageTableVaddr(i, j) == (i * 1024 + j) * PAGE_SIZE
    ensures PdeIndex(PageTableVaddr(i, j)) == i && PteIndex(PageTableVaddr(i, j)) == j
  {
  }

  lemma VaddrIsOr(i: nat, j: nat)
    requires j < 1024
    ensures PageTableVaddr(i, j) == Or(i * 0x40_0000, j * PAGE_SIZE)
  {
    Pow2Values();
    assert Pow2(22) == 0x40_0000 by { assert Pow2(16) == 0x1_0000; }
    OrFields(i, j * PAGE_SIZE, 22);
  }
}
