/** The bit array under the frame allocator (src/kernel/tools/bitmap.c). */
module Bitmaps {

  // ---------- Packed bits ----------

  /** `1 << (index % 8)`, the mask of one bit inside its byte. */
  function Mask(k: nat): bv8
    requires k < 8
  {
    (1 as bv8) << k
  }

  /** Setting or clearing one bit of a byte changes that bit and no other. */
  lemma OneBit(x: bv8, j: nat, k: nat)
    requires j < 8 && k < 8
    ensures (x | Mask(j)) & Mask(k) == if j == k then Mask(k) else x & Mask(k)
    ensures (x & !Mask(j)) & Mask(k) == if j == k then 0 else x & Mask(k)
    ensures Mask(k) != 0
  {
  }

  /** What bmp_get_bit yields is compared with `bit` as a number. */
  function Number(bit: bool): bv8 {
    if bit then 1 else 0
  }

  /** A masked bit equals 0 when it is clear; it equals 1 only when it is set and is the
      lowest of its byte. */
  lemma MaskedEquals(x: bv8, k: nat, bit: bool)
    requires k < 8
    ensures x & Mask(k) == Number(bit) <==> (if bit then x & Mask(k) != 0 && k == 0 else x & Mask(k) == 0)
  {
  }

  ghost predicate BitAt(bytes: seq<bv8>, i: nat)
    requires i / 8 < |bytes|
  {
    bytes[i / 8] & Mask(i % 8) != 0
  }

  // ---------- Runs of equal bits ----------

  /** A run of `n` bits equal to `b` starts at `s`. The scan looks at the bit at
      `s` even when `n` is 0, so an empty run still needs one such bit. */
  predicate RunAt(bits: seq<bool>, s: int, n: nat, b: bool) {
    0 <= s < |bits| && bits[s] == b && s + n <= |bits| &&
    forall k :: s <= k < s + n ==> bits[k] == b
  }

  /** The first run at or after `from`, or -1. */
  function FindRun(bits: seq<bool>, from: nat, n: nat, b: bool): (s: int)
    ensures s == -1 || (from <= s && RunAt(bits, s, n, b))
    decreases |bits| - from
  {
    if from >= |bits| then -1
    else if RunAt(bits, from, n, b) then from
    else FindRun(bits, from + 1, n, b)
  }

  /** What `FindRun` returns is leftmost, and -1 means that there is no run. */
  lemma {:induction false} FindRunIsLeftmost(bits: seq<bool>, from: nat, n: nat, b: bool, s: nat)
    requires from <= s && RunAt(bits, s, n, b)
    ensures from <= FindRun(bits, from, n, b) <= s
    decreases |bits| - from
  {
    if from < s && !RunAt(bits, from, n, b) {
      FindRunIsLeftmost(bits, from + 1, n, b, s);
    }
  }

  /** Starting positions that hold no run can be skipped. */
  lemma {:induction false} SkipTo(bits: seq<bool>, from: nat, to: nat, n: nat, b: bool)
    requires from <= to <= |bits|
    requires forall s :: from <= s < to ==> !RunAt(bits, s, n, b)
    ensures FindRun(bits, from, n, b) == FindRun(bits, to, n, b)
    decreases |bits| - from
  {
    if from < to {
      SkipTo(bits, from + 1, to, n, b);
    }
  }

  /** The bits as the scan for `bit` sees them: set bits are only recognised at
      multiples of eight. */
  function Seen(bits: seq<bool>, bit: bool): (r: seq<bool>)
    ensures |r| == |bits| && (!bit ==> r == bits)
  {
    seq(|bits|, i requires 0 <= i < |bits| => bits[i] && (!bit || i % 8 == 0))
  }

  /** A scan for clear bits is exact; a scan for set bits finds no run of two or more,
      whatever the map holds. */
  lemma {:induction false} SetRunsAreMissed(bits: seq<bool>, from: nat, n: nat)
    requires n >= 2
    ensures FindRun(Seen(bits, true), from, n, true) == -1
    decreases |bits| - from
  {
    if from < |bits| {
      SetRunsAreMissed(bits, from + 1, n);
      if from + 1 < |bits| {
        assert !(Seen(bits, true)[from] && Seen(bits, true)[from + 1]);
      }
    }
  }

  /** So the scan is right for every map exactly when it looks for clear bits. */
  lemma ScanIsExactForClear(bit: bool)
    ensures (forall bits, from: nat, n: nat :: FindRun(Seen(bits, bit), from, n, bit) == FindRun(bits, from, n, bit)) <==> !bit
  {
    if bit {
      SetRunsAreMissed([true, true], 0, 2);
      assert RunAt([true, true], 0, 2, true);
      assert FindRun([true, true], 0, 2, true) == 0;
    }
  }

  /** `cnt` bits from `s` on set to `v`, stopping at the end of the map. */
  function Fill(bits: seq<bool>, s: nat, cnt: nat, v: bool): (r: seq<bool>)
    ensures |r| == |bits|
  {
    seq(|bits|, k requires 0 <= k < |bits| => if s <= k < s + cnt then v else bits[k])
  }

  /** The cursor of the last allocation, a file-level variable shared by all maps. */
  class Cursor {
    var lastAllocIndex: nat

    constructor ()
      ensures lastAllocIndex == 0
    {
      lastAllocIndex := 0;
    }
  }

  class Bitmap {
    const bits: nat
    const bitArr: array<bv8>

    ghost predicate Valid() {
      bitArr.Length * 8 >= bits
    }

    ghost function Bits(): (r: seq<bool>)
      reads bitArr
      requires Valid()
      ensures |r| == bits
    {
      seq(bits, i requires 0 <= i < bits && Valid() reads bitArr => BitAt(bitArr[..], i))
    }

    constructor (bitArr: array<bv8>, bits: nat, initBit: bool)
      requires bitArr.Length == (bits + 7) / 8
      modifies bitArr
      ensures Valid() && this.bitArr == bitArr && this.bits == bits
      ensures Bits() == seq(bits, _ => initBit)
    {
      this.bits := bits;
      this.bitArr := bitArr;
      new;
      var fill: bv8 := if initBit then 0xFF else 0;
      for i := 0 to bitArr.Length
        invariant forall k :: 0 <= k < i ==> bitArr[k] == fill
      {
        bitArr[i] := fill;
      }
      forall i: nat | i < bits ensures BitAt(bitArr[..], i) == initBit {
        OneBit(0, i % 8, i % 8);
        assert 0xFF & Mask(i % 8) == Mask(i % 8);
      }
    }

    /** `all` is the map as a scan for `bit` sees it. */
    ghost predicate Sees(bit: bool, all: seq<bool>)
      reads bitArr
    {
      Valid() && |all| == bits && forall i: nat :: i < bits ==> all[i] == (BitAt(bitArr[..], i) && (!bit || i % 8 == 0))
    }

    /** bmp_get_bit: the bit in its place, not as 0 or 1. */
    method GetBit(index: nat, ghost bit: bool, ghost all: seq<bool>) returns (v: bv8)
      requires Sees(bit, all) && index < bits
      ensures v == Number(bit) <==> all[index] == bit
    {
      v := bitArr[index / 8] & Mask(index % 8);
      MaskedEquals(bitArr[index / 8], index % 8, bit);
    }

    method SetOne(at: nat, bit: bool)
      requires Valid() && at < bits
      modifies bitArr
      ensures Bits() == old(Bits())[at := bit]
    {
      ghost var bytes := bitArr[..];
      if bit {
        bitArr[at / 8] := bitArr[at / 8] | Mask(at % 8);
      } else {
        bitArr[at / 8] := bitArr[at / 8] & !Mask(at % 8);
      }
      forall k: nat | k < bits
        ensures BitAt(bitArr[..], k) == if k == at then bit else BitAt(bytes, k)
      {
        OneBit(bytes[at / 8], at % 8, k % 8);
      }
    }

    method SetBit(index: nat, bitCnt: nat, bit: bool)
      requires Valid()
      modifies bitArr
      ensures Valid() && Bits() == Fill(old(Bits()), index, bitCnt, bit)
    {
      var i, at := 0, index;
      while i < bitCnt && at < bits
        invariant i <= bitCnt && at == index + i
        invariant Bits() == Fill(old(Bits()), index, i, bit)
      {
        SetOne(at, bit);
        i, at := i + 1, at + 1;
      }
    }

    /** The inner loop of the scan: count matching bits from `first` on. Without a
        full run, no position up to where the count stopped can start one. */
    method ScanRun(first: nat, bit: bool, bitCnt: nat, ghost all: seq<bool>) returns (found: bool, next: nat)
      requires Sees(bit, all) && first < bits && all[first] == bit
      ensures first <= next <= bits
      ensures found ==> next == first + bitCnt && RunAt(all, first, bitCnt, bit)
      ensures !found ==> first < next && forall s :: first <= s < next ==> !RunAt(all, s, bitCnt, bit)
    {
      next := first;
      var i := 0;
      while i < bitCnt && next < bits
        invariant i <= bitCnt && next == first + i && next <= bits
        invariant forall k :: first <= k < next ==> all[k] == bit
      {
        var v := GetBit(next, bit, all);
        next := next + 1;
        if v != Number(bit) {
          assert all[next - 1] != bit;
          return false, next;
        }
        i := i + 1;
      }
      found := i >= bitCnt;
    }

    /** The outer loop of the scan; it changes nothing. */
    method Scan(from: nat, bit: bool, bitCnt: nat, ghost all: seq<bool>) returns (start: int, next: nat)
      requires Sees(bit, all)
      ensures start == FindRun(all, from, bitCnt, bit)
      ensures start != -1 ==> 0 <= start && next == start + bitCnt
    {
      next := from;
      while next < bits
        invariant from <= next && (from <= bits ==> next <= bits)
        invariant FindRun(all, from, bitCnt, bit) == FindRun(all, next, bitCnt, bit)
        decreases bits - next
      {
        var v := GetBit(next, bit, all);
        if v != Number(bit) {
          next := next + 1;
          continue;
        }
        start := next;
        var found;
        found, next := ScanRun(next, bit, bitCnt, all);
        if found {
          return;
        }
        SkipTo(all, start, next, bitCnt, bit);
      }
      start := -1;
    }

    /** bmp_alloc_multi_bit: the leftmost run at or after the cursor is flipped and the
        cursor moves behind it; without such a run nothing changes. */
    method AllocMultiBit(cursor: Cursor, bit: bool, bitCnt: nat) returns (start: int)
      requires Valid()
      modifies bitArr, cursor
      ensures Valid()
      ensures start == FindRun(Seen(old(Bits()), bit), old(cursor.lastAllocIndex), bitCnt, bit)
      ensures start == -1 ==> Bits() == old(Bits()) && cursor.lastAllocIndex == old(cursor.lastAllocIndex)
      ensures start != -1 ==> Bits() == Fill(old(Bits()), start, bitCnt, !bit)
      ensures start != -1 ==> cursor.lastAllocIndex == start + bitCnt
    {
      var next;
      start, next := Scan(cursor.lastAllocIndex, bit, bitCnt, Seen(Bits(), bit));
      if start != -1 {
        SetBit(start, bitCnt, !bit);
        cursor.lastAllocIndex := next;
      }
    }
  }

  // ---------- Runs of allocations and frees ----------

  datatype Op = Alloc(n: nat) | Free(index: nat, cnt: nat)

  datatype Range = Range(start: nat, len: nat)

  datatype Map = Map(bits: seq<bool>, cursor: nat)

  function Step(m: Map, op: Op): (Map, seq<Range>) {
    match op
    case Alloc(n) =>
      var s := FindRun(m.bits, m.cursor, n, false);
      if s == -1 then (m, [])
      else (Map(Fill(m.bits, s, n, true), s + n), [Range(s, n)])
    case Free(index, cnt) => (m.(bits := Fill(m.bits, index, cnt, false)), [])
  }

  /** An allocation turns exactly the bits of its range, all of them clear; it gets none
      only if no run of clear bits starts at or after the cursor. A free clears its range. */
  lemma StepFlips(m: Map, op: Op)
    ensures |Step(m, op).0.bits| == |m.bits|
    ensures op.Alloc? && Step(m, op).1 != [] ==>
              var (m', r) := (Step(m, op).0, Step(m, op).1[0]);
              && Step(m, op).1 == [r] && r.len == op.n && m.cursor <= r.start && r.start + r.len <= |m.bits|
              && forall k :: 0 <= k < |m.bits| ==> (m'.bits[k] != m.bits[k] <==> r.start <= k < r.start + r.len) &&
                                                   (r.start <= k < r.start + r.len ==> !m.bits[k])
    ensures op.Alloc? && Step(m, op).1 == [] ==>
              Step(m, op).0 == m && forall s: nat :: m.cursor <= s ==> !RunAt(m.bits, s, op.n, false)
    ensures op.Free? ==>
              forall k :: 0 <= k < |m.bits| ==> (Step(m, op).0.bits[k] <==> m.bits[k] && !(op.index <= k < op.index + op.cnt))
  {
    if op.Alloc? && Step(m, op).1 == [] {
      forall s: nat | m.cursor <= s && RunAt(m.bits, s, op.n, false) ensures false {
        FindRunIsLeftmost(m.bits, m.cursor, op.n, false, s);
      }
    }
  }

  /** All the ranges handed out by a run of allocations and frees, in order. */
  function Ranges(m: Map, ops: seq<Op>): seq<Range>
    decreases ops
  {
    if ops == [] then [] else
      var (m', out) := Step(m, ops[0]);
      out + Ranges(m', ops[1..])
  }

  /** Over any mix of allocations and frees the ranges handed out come in strictly
      increasing order, so no two of them overlap even though ranges are freed in
      between: what lies below the cursor is never handed out again. */
  lemma {:induction false} RangesIncrease(m: Map, ops: seq<Op>)
    ensures forall a :: 0 <= a < |Ranges(m, ops)| ==> m.cursor <= Ranges(m, ops)[a].start
    ensures forall a, b :: 0 <= a < b < |Ranges(m, ops)| ==>
              Ranges(m, ops)[a].start + Ranges(m, ops)[a].len <= Ranges(m, ops)[b].start
    decreases ops
  {
    if ops != [] {
      var (m', out) := Step(m, ops[0]);
      RangesIncrease(m', ops[1..]);
      assert Ranges(m, ops) == out + Ranges(m', ops[1..]);
    }
  }
}
