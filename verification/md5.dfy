/** The streaming implementation of MD5 (src/shell/md5.c), proved equal to the digest
    of RFC 1321 for every message and every way of splitting it. */
module Md5 {
  import opened Basics
  import opened Rfc1321

  /** The shift of each step. */
  const S1: seq<Shift> := [7, 12, 17, 22, 7, 12, 17, 22, 7, 12, 17, 22, 7, 12, 17, 22]
  const S2: seq<Shift> := [5, 9, 14, 20, 5, 9, 14, 20, 5, 9, 14, 20, 5, 9, 14, 20]
  const S3: seq<Shift> := [4, 11, 16, 23, 4, 11, 16, 23, 4, 11, 16, 23, 4, 11, 16, 23]
  const S4: seq<Shift> := [6, 10, 15, 21, 6, 10, 15, 21, 6, 10, 15, 21, 6, 10, 15, 21]
  const S: seq<Shift> := S1 + S2 + S3 + S4

  /** The constant of each step. */
  const K1: seq<bv32> :=
    [0xd76aa478, 0xe8c7b756, 0x242070db, 0xc1bdceee, 0xf57c0faf, 0x4787c62a, 0xa8304613, 0xfd469501] +
    [0x698098d8, 0x8b44f7af, 0xffff5bb1, 0x895cd7be, 0x6b901122, 0xfd987193, 0xa679438e, 0x49b40821]
  const K2: seq<bv32> :=
    [0xf61e2562, 0xc040b340, 0x265e5a51, 0xe9b6c7aa, 0xd62f105d, 0x02441453, 0xd8a1e681, 0xe7d3fbc8] +
    [0x21e1cde6, 0xc33707d6, 0xf4d50d87, 0x455a14ed, 0xa9e3e905, 0xfcefa3f8, 0x676f02d9, 0x8d2a4c8a]
  const K3: seq<bv32> :=
    [0xfffa3942, 0x8771f681, 0x6d9d6122, 0xfde5380c, 0xa4beea44, 0x4bdecfa9, 0xf6bb4b60, 0xbebfbc70] +
    [0x289b7ec6, 0xeaa127fa, 0xd4ef3085, 0x04881d05, 0xd9d4d039, 0xe6db99e5, 0x1fa27cf8, 0xc4ac5665]
  const K4: seq<bv32> :=
    [0xf4292244, 0x432aff97, 0xab9423a7, 0xfc93a039, 0x655b59c3, 0x8f0ccc92, 0xffeff47d, 0x85845dd1] +
    [0x6fa87e4f, 0xfe2ce6e0, 0xa3014314, 0x4e0811a1, 0xf7537e82, 0xbd3af235, 0x2ad7d2bb, 0xeb86d391]
  const K: seq<bv32> := K1 + K2 + K3 + K4

  /** The constants of the code are the table of section 3.4. */
  lemma ConstantsAreT()
    ensures |K| == 64 && K == T
  {
  }

  function ConstantOf(i: nat): (k: bv32)
    requires i < 64
    ensures k == T[i]
  {
    ConstantsAreT();
    K[i]
  }

  /** The word that step `i` uses. */
  function Index(i: nat): WordIndex
    requires i < 64
  {
    if i / 16 == 0 then i else if i / 16 == 1 then (i * 5 + 1) % 16 else if i / 16 == 2 then (i * 3 + 5) % 16 else i * 7 % 16
  }

  function OrderOf(k: nat): Order {
    if k == 0 then ABCD else if k == 1 then DABC else if k == 2 then CDAB else BCDA
  }

  /** The sixteen places of a round, one by one. */
  predicate OneOfSixteen(j: nat) {
    j == 0 || j == 1 || j == 2 || j == 3 || j == 4 || j == 5 || j == 6 || j == 7 ||
    j == 8 || j == 9 || j == 10 || j == 11 || j == 12 || j == 13 || j == 14 || j == 15
  }

  /** The index maps of the single loop are the columns of the four listed rounds. */
  lemma Round1Listed(j: nat, i: nat)
    requires j < 16 && i == j
    ensures |S1| == |S2| == |S3| == |S4| == 16 && ROUND1[j] == Op(OrderOf(j % 4), Index(i), S[i], i + 1)
  {
    assert OneOfSixteen(j);
  }

  lemma Round2Listed(j: nat, i: nat)
    requires j < 16 && i == 16 + j
    ensures |S1| == |S2| == |S3| == |S4| == 16 && ROUND2[j] == Op(OrderOf(j % 4), Index(i), S[i], i + 1)
  {
    assert OneOfSixteen(j);
  }

  lemma Round3Listed(j: nat, i: nat)
    requires j < 16 && i == 32 + j
    ensures |S1| == |S2| == |S3| == |S4| == 16 && ROUND3[j] == Op(OrderOf(j % 4), Index(i), S[i], i + 1)
  {
    assert OneOfSixteen(j);
  }

  lemma Round4Listed(j: nat, i: nat)
    requires j < 16 && i == 48 + j
    ensures |S1| == |S2| == |S3| == |S4| == 16 && ROUND4[j] == Op(OrderOf(j % 4), Index(i), S[i], i + 1)
  {
    assert OneOfSixteen(j);
  }

  lemma Place(r: nat, j: nat)
    requires j < 16
    ensures (16 * r + j) / 16 == r && (16 * r + j) % 16 == j
  {
  }

  lemma Quarter(r: nat, j: nat)
    ensures (16 * r + j) % 4 == j % 4
  {
  }

  lemma Listed(r: nat, j: nat, i: nat)
    requires r < 4 && j < 16 && i == 16 * r + j
    ensures |S| == 64 && Round(r)[j] == Op(OrderOf(i % 4), Index(i), S[i], i + 1)
  {
    Quarter(r, j);
    if r == 0 {
      Round1Listed(j, i);
    } else if r == 1 {
      Round2Listed(j, i);
    } else if r == 2 {
      Round3Listed(j, i);
    } else {
      Round4Listed(j, i);
    }
  }

  /** The registers of the standard, as the loop holds them before a step whose number is
      `k` modulo 4: every step passes them one place on. */
  function Turned(k: nat, aa: bv32, bb: bv32, cc: bv32, dd: bv32): Regs {
    if k == 0 then Regs(aa, bb, cc, dd)
    else if k == 1 then Regs(bb, cc, dd, aa)
    else if k == 2 then Regs(cc, dd, aa, bb)
    else Regs(dd, aa, bb, cc)
  }

  /** Step `k` names the turned registers in their own order, and turns them on. */
  lemma TurnedOn(k: nat, aa: bv32, bb: bv32, cc: bv32, dd: bv32, v: bv32)
    requires k < 4
    ensures Read(OrderOf(k), Turned(k, aa, bb, cc, dd)) == Regs(aa, bb, cc, dd)
    ensures Write(OrderOf(k), Turned(k, aa, bb, cc, dd), v) == Turned(if k == 3 then 0 else k + 1, dd, v, bb, cc)
  {
  }

  lemma NextPlace(i: nat)
    ensures (i + 1) % 4 == if i % 4 == 3 then 0 else i % 4 + 1
  {
  }

  /** The registers after the first `i` of all 64 operations. */
  function After(f: Operation, i: nat, q: Regs): Regs
    requires i <= 64
  {
    if i == 0 then q else f((i - 1) / 16, Round((i - 1) / 16)[(i - 1) % 16], After(f, i - 1, q))
  }

  lemma AfterNext(f: Operation, i: nat, q: Regs, r: nat, j: nat)
    requires i < 64 && r == i / 16 && j == i % 16
    ensures After(f, i + 1, q) == f(r, Round(r)[j], After(f, i, q))
  {
  }

  lemma {:induction false} AfterRound(f: Operation, r: nat, n: nat, q: Regs)
    requires r < 4 && n <= 16
    ensures After(f, 16 * r + n, q) == Run(f, r, After(f, 16 * r, q), n)
    decreases n
  {
    if n > 0 {
      AfterRound(f, r, n - 1, q);
      Place(r, n - 1);
      AfterNext(f, 16 * r + n - 1, q, r, n - 1);
    }
  }

  lemma AfterAll(f: Operation, q: Regs)
    ensures After(f, 64, q) == Run(f, 3, Run(f, 2, Run(f, 1, Run(f, 0, q, 16), 16), 16), 16)
  {
    AfterRound(f, 0, 16, q);
    AfterRound(f, 1, 16, q);
    AfterRound(f, 2, 16, q);
    AfterRound(f, 3, 16, q);
  }

  function Mixed(aa: bv32, e: bv32, k: bv32, w: bv32, s: Shift, bb: bv32): bv32 {
    bb + Rotate(aa + e + k + w, s)
  }

  lemma MixedIsValue(r: nat, a: bv32, b: bv32, c: bv32, d: bv32, w: bv32, t: bv32, s: Shift)
    ensures Mixed(a, Aux(r, b, c, d), t, w, s, b) == Value(r, a, b, c, d, w, t, s)
  {
    var e := Aux(r, b, c, d);
    assert a + e + t + w == a + e + w + t;
  }

  /** `f` carries out the operations on the block `x`. (Written so that a proof sees the
      operation only where it mentions it.) */
  ghost predicate Operates(f: Operation, x: BlockWords) {
    forall r, op, q {:trigger Apply(r, op, q, x)} :: f(r, op, q) == Apply(r, op, q, x)
  }

  lemma StepNamed(f: Operation, x: BlockWords, r: nat, k: nat, op: Op, aa: bv32, bb: bv32, cc: bv32, dd: bv32)
    requires Operates(f, x) && k < 4 && op.order == OrderOf(k)
    ensures f(r, op, Turned(k, aa, bb, cc, dd)) ==
            Turned(if k == 3 then 0 else k + 1, dd, Mixed(aa, Aux(r, bb, cc, dd), T[op.i - 1], x[op.k], op.s, bb), bb, cc)
  {
    MixedIsValue(r, aa, bb, cc, dd, x[op.k], T[op.i - 1], op.s);
    TurnedOn(k, aa, bb, cc, dd, Value(r, aa, bb, cc, dd, x[op.k], T[op.i - 1], op.s));
    var q' := Apply(r, op, Turned(k, aa, bb, cc, dd), x);
  }

  lemma OpParts(r: nat, j: nat, i: nat) returns (op: Op)
    requires r < 4 && j < 16 && i == 16 * r + j
    ensures |S| == 64 && op == Round(r)[j] && op.order == OrderOf(i % 4) && op.k == Index(i) && op.s == S[i] && op.i == i + 1
  {
    Listed(r, j, i);
    op := Round(r)[j];
  }

  lemma StepApplies(f: Operation, x: BlockWords, i: nat, aa: bv32, bb: bv32, cc: bv32, dd: bv32, q: Regs) returns (op: Op)
    requires i < 64 && Operates(f, x) && Turned(i % 4, aa, bb, cc, dd) == After(f, i, q)
    ensures |S| == 64 && op.k == Index(i) && op.s == S[i] && op.i == i + 1
    ensures Turned((i + 1) % 4, dd, Mixed(aa, Aux(i / 16, bb, cc, dd), T[op.i - 1], x[op.k], op.s, bb), bb, cc) == After(f, i + 1, q)
  {
    var r, j, k := i / 16, i % 16, i % 4;
    op := OpParts(r, j, i);
    NextPlace(i);
    AfterNext(f, i, q, r, j);
    StepNamed(f, x, r, k, op, aa, bb, cc, dd);
  }

  /** `c` is what a block does to the registers. (Hidden in the same way.) */
  ghost predicate Compresses(c: Compression) {
    forall q, x {:trigger Block(q, x)} :: c(q, x) == Block(q, x)
  }

  lemma BlockOperation(c: Compression, q: Regs, x: BlockWords) returns (f: Operation)
    requires Compresses(c)
    ensures Operates(f, x) && c(q, x) == Sum(q, After(f, 64, q))
  {
    f := OperationOn(x);
    AfterAll(f, q);
    assert c(q, x) == Block(q, x);
  }

  function RegsOf(s: seq<bv32>): Regs
    requires |s| == 4
  {
    Regs(s[0], s[1], s[2], s[3])
  }

  /** The switch of md5_step. */
  method Choose(i: nat, bb: bv32, cc: bv32, dd: bv32) returns (e: bv32, j: nat)
    requires i < 64
    ensures e == Aux(i / 16, bb, cc, dd) && j == Index(i)
  {
    match i / 16
    case 0 =>
      e, j := F(bb, cc, dd), i;
    case 1 =>
      e, j := G(bb, cc, dd), (i * 5 + 1) % 16;
    case 2 =>
      e, j := H(bb, cc, dd), (i * 3 + 5) % 16;
    case _ =>
      e, j := I(bb, cc, dd), i * 7 % 16;
  }

  /** The loop of md5_step: 64 steps over four rotating registers. */
  method Loop(a: bv32, b: bv32, c: bv32, d: bv32, input: array<bv32>, ghost f: Operation) returns (aa: bv32, bb: bv32, cc: bv32, dd: bv32)
    requires input.Length == 16 && Operates(f, input[..])
    ensures Regs(aa, bb, cc, dd) == After(f, 64, Regs(a, b, c, d))
  {
    ghost var q, x: BlockWords := Regs(a, b, c, d), input[..];
    aa, bb, cc, dd := a, b, c, d;
    var i := 0;
    while i < 64
      invariant 0 <= i <= 64 && Turned(i % 4, aa, bb, cc, dd) == After(f, i, q)
    {
      var e, j := Choose(i, bb, cc, dd);
      ghost var op := StepApplies(f, x, i, aa, bb, cc, dd, q);
      var temp := dd;
      dd := cc;
      cc := bb;
      bb := Mixed(aa, e, ConstantOf(i), input[j], S[i], bb);
      aa := temp;
      i := i + 1;
    }
  }

  /** md5_step computes the four rounds of section 3.4. */
  method Step(ghost c: Compression, buffer: array<bv32>, input: array<bv32>)
    requires Compresses(c) && buffer.Length == 4 && input.Length == 16 && buffer != input
    modifies buffer
    ensures RegsOf(buffer[..]) == c(RegsOf(old(buffer[..])), input[..])
  {
    ghost var q := RegsOf(buffer[..]);
    ghost var f := BlockOperation(c, q, input[..]);
    var aa, bb, cc, dd := Loop(buffer[0], buffer[1], buffer[2], buffer[3], input, f);
    buffer[0] := Add(buffer[0], aa);
    buffer[1] := Add(buffer[1], bb);
    buffer[2] := Add(buffer[2], cc);
    buffer[3] := Add(buffer[3], dd);
  }

  // ---------- The context ----------

  const TWO64: nat := 0x1_0000_0000_0000_0000

  /** Only the low 64 bits of the size are kept, and that is enough. */
  lemma SizeWraps(n: nat, k: nat)
    ensures (n % TWO64 + k) % TWO64 == (n + k) % TWO64
  {
  }

  lemma OffsetKept(n: nat)
    ensures (n % TWO64) % 64 == n % 64
  {
    var q, r := n / TWO64, n % TWO64;
    assert n == TWO64 * q + r;
    Rem64(n, 0x0400_0000_0000_0000 * q + r / 64, r % 64);
  }

  lemma Rem64(n: nat, k: nat, b: nat)
    requires b < 64 && n == 64 * k + b
    ensures n % 64 == b
  {
  }

  lemma BitsKept(n: nat)
    ensures n % TWO64 * 8 % TWO64 == 8 * n % TWO64
  {
    assert n % TWO64 * 8 == 8 * n - n / TWO64 * 8 * TWO64;
  }

  lemma SizeRestored(n: nat, k: nat)
    requires k <= 64
    ensures ((n + k) % TWO64 + TWO64 - k) % TWO64 == n % TWO64
  {
  }

  function Byte0(w: bv32): bv8 { (w & 0x0000_00FF) as bv8 }
  function Byte1(w: bv32): bv8 { ((w & 0x0000_FF00) >> 8) as bv8 }
  function Byte2(w: bv32): bv8 { ((w & 0x00FF_0000) >> 16) as bv8 }
  function Byte3(w: bv32): bv8 { ((w & 0xFF00_0000) >> 24) as bv8 }

  /** The masks of md5_finalize take the four bytes of a word. */
  lemma MaskBytes(w: bv32)
    ensures Encode(w) == [Byte0(w), Byte1(w), Byte2(w), Byte3(w)]
  {
  }

  const PADDING: seq<bv8> := [0x80] + Zeros(63)

  class Context {
    var size: nat
    const buffer: array<bv32>
    const input: array<bv8>
    const digest: array<bv8>
    ghost const c: Compression
    ghost var message: seq<bv8>
    ghost var blocks: nat

    ghost predicate Valid()
      reads this, buffer, input
    {
      && buffer.Length == 4 && input.Length == 64 && digest.Length == 16 && input != digest && Compresses(c)
      && size == |message| % TWO64
      && blocks <= |message| / 64
      && Absorbed(c, RegsOf(buffer[..]), blocks, input[..|message| % 64], message)
    }

    /** md5_init */
    constructor ()
      ensures Valid() && message == [] && c == Block && fresh(buffer) && fresh(input) && fresh(digest)
    {
      size := 0;
      buffer := new bv32[4];
      input := new bv8[64];
      digest := new bv8[16];
      c, message, blocks := Block, [], 0;
      new;
      buffer[0] := INITIAL.a;
      buffer[1] := INITIAL.b;
      buffer[2] := INITIAL.c;
      buffer[3] := INITIAL.d;
    }

    /** The words of a full input buffer, low-order byte first, go through md5_step. */
    method Chew()
      requires buffer.Length == 4 && input.Length == 64 && Compresses(c)
      modifies buffer
      ensures RegsOf(buffer[..]) == c(RegsOf(old(buffer[..])), Words(input[..]))
    {
      var words := new bv32[16];
      var j := 0;
      while j < 16
        invariant 0 <= j <= 16 && buffer[..] == old(buffer[..])
        invariant forall k :: 0 <= k < j ==> words[k] == Words(input[..])[k]
      {
        words[j] := Decode(input[4 * j], input[4 * j + 1], input[4 * j + 2], input[4 * j + 3]);
        j := j + 1;
      }
      assert words[..] == Words(input[..]);
      Step(c, buffer, words);
    }

    /** The body of the loop of md5_update. */
    method TakeByte(b: bv8, offset: nat, ghost m: seq<bv8>) returns (offset': nat)
      requires buffer.Length == 4 && input.Length == 64 && Compresses(c)
      requires offset < 64 && Absorbed(c, RegsOf(buffer[..]), blocks, input[..offset], m)
      modifies this`blocks, buffer, input
      ensures offset' < 64 && Absorbed(c, RegsOf(buffer[..]), blocks, input[..offset'], m + [b])
    {
      ghost var q, part := RegsOf(buffer[..]), input[..offset];
      input[offset] := b;
      assert input[..offset + 1] == part + [b];
      offset' := offset + 1;
      if offset' % 64 == 0 {
        AbsorbBlock(c, q, blocks, part, m, b);
        assert input[..] == part + [b];
        Chew();
        blocks := blocks + 1;
        offset' := 0;
      } else {
        AbsorbByte(c, q, blocks, part, m, b);
      }
    }

    /** md5_update: whatever the pieces, the context stands for their concatenation. */
    method Update(inputBuf: seq<bv8>)
      requires Valid()
      modifies this`size, this`message, this`blocks, buffer, input
      ensures Valid() && message == old(message) + inputBuf
    {
      SizeWraps(|message|, |inputBuf|);
      OffsetKept(|message|);
      var offset := size % 64;
      size := (size + |inputBuf|) % TWO64;
      ghost var m := message;
      message := message + inputBuf;
      var i := 0;
      while i < |inputBuf|
        invariant 0 <= i <= |inputBuf| && 0 <= offset < 64 && m == old(message) + inputBuf[..i]
        invariant message == old(message) + inputBuf && size == |message| % TWO64
        invariant Absorbed(c, RegsOf(buffer[..]), blocks, input[..offset], m)
      {
        offset := TakeByte(inputBuf[i], offset, m);
        NextPrefix(inputBuf, i);
        Assoc(old(message), inputBuf[..i], [inputBuf[i]]);
        m := m + [inputBuf[i]];
        i := i + 1;
      }
      assert inputBuf[..|inputBuf|] == inputBuf;
      PartLength(c, RegsOf(buffer[..]), blocks, input[..offset], message);
    }

    /** md5_finalize: the digest is that of RFC 1321 for all bytes taken in so far. */
    method Finalize()
      requires Valid()
      modifies this`size, this`message, this`blocks, buffer, input, digest
      ensures digest[..] == DigestBy(c, old(message))
      ensures size == old(size)
    {
      ghost var m := message;
      ghost var part := AddPadding();
      AbsorbLength(c, RegsOf(buffer[..]), blocks, part, m);
      LastBlock(m, part);
      WriteDigest();
    }

    /** The padding is taken in, and the size set back to that of the message. */
    method AddPadding() returns (ghost part: seq<bv8>)
      requires Valid()
      modifies this`size, this`message, this`blocks, buffer, input
      ensures buffer.Length == 4 && input.Length == 64 && Compresses(c) && size == old(size)
      ensures Absorbed(c, RegsOf(buffer[..]), blocks, part, old(message) + Padding(|old(message)|)) && part == input[..|part|]
    {
      ghost var m := message;
      OffsetKept(|m|);
      var offset := size % 64;
      var paddingLength := if offset < 56 then 56 - offset else 56 + 64 - offset;
      PaddingIs(|m|, paddingLength);
      Update(PADDING[..paddingLength]);
      SizeRestored(|m|, paddingLength);
      size := (size + TWO64 - paddingLength) % TWO64;
      part := input[..|message| % 64];
    }

    /** The last call of md5_step, on 14 words of input and the two of the length. */
    method LastBlock(ghost m: seq<bv8>, ghost part: seq<bv8>)
      requires buffer.Length == 4 && input.Length == 64 && Compresses(c) && size == |m| % TWO64
      requires part == input[..56]
      modifies buffer
      ensures var (low, high) := LengthWords(|m|);
              RegsOf(buffer[..]) == c(RegsOf(old(buffer[..])), Words(part + Encode(low) + Encode(high)))
    {
      var words := FirstWords(part);
      BitsKept(|m|);
      words[14] := WordOf(size * 8 % TWO64 % 0x1_0000_0000);
      words[15] := WordOf(size * 8 % TWO64 / 0x1_0000_0000);
      ghost var (low, high) := LengthWords(|m|);
      LastWords(part, low, high, words[..]);
      Step(c, buffer, words);
    }

    /** The first 14 words of the last block. */
    method FirstWords(ghost part: seq<bv8>) returns (words: array<bv32>)
      requires input.Length == 64 && part == input[..56]
      ensures fresh(words) && words.Length == 16
      ensures forall k :: 0 <= k < 14 ==> words[k] == Decode(part[4 * k], part[4 * k + 1], part[4 * k + 2], part[4 * k + 3])
    {
      words := new bv32[16];
      var j := 0;
      while j < 14
        invariant 0 <= j <= 14
        invariant forall k :: 0 <= k < j ==> words[k] == Decode(part[4 * k], part[4 * k + 1], part[4 * k + 2], part[4 * k + 3])
      {
        words[j] := Decode(input[4 * j], input[4 * j + 1], input[4 * j + 2], input[4 * j + 3]);
        j := j + 1;
      }
    }

    method WriteWord(i: nat, w: bv32)
      requires i < 4 && digest.Length == 16
      modifies digest
      ensures digest[4 * i..4 * i + 4] == Encode(w)
      ensures forall k :: 0 <= k < 16 && !(4 * i <= k < 4 * i + 4) ==> digest[k] == old(digest[k])
    {
      MaskBytes(w);
      digest[4 * i + 0] := Byte0(w);
      digest[4 * i + 1] := Byte1(w);
      digest[4 * i + 2] := Byte2(w);
      digest[4 * i + 3] := Byte3(w);
    }

    method WriteDigest()
      requires buffer.Length == 4 && digest.Length == 16
      modifies digest
      ensures digest[..] == Output(RegsOf(buffer[..]))
    {
      var i := 0;
      while i < 4
        invariant 0 <= i <= 4
        invariant forall k :: 0 <= k < i ==> digest[4 * k..4 * k + 4] == Encode(buffer[k])
      {
        WriteWord(i, buffer[i]);
        i := i + 1;
      }
      assert digest[..] == digest[0..4] + digest[4..8] + digest[8..12] + digest[12..16];
    }
  }

  lemma PaddingIs(n: nat, k: nat)
    requires k == if n % 64 < 56 then 56 - n % 64 else 120 - n % 64
    ensures k <= 64 && PADDING[..k] == Padding(n)
  {
  }

  lemma LastWords(part: seq<bv8>, low: bv32, high: bv32, words: seq<bv32>)
    requires |part| == 56 && |words| == 16 && words[14] == low && words[15] == high
    requires forall k :: 0 <= k < 14 ==> words[k] == Decode(part[4 * k], part[4 * k + 1], part[4 * k + 2], part[4 * k + 3])
    ensures words == Words(part + Encode(low) + Encode(high))
  {
    DecodeEncode(low);
    DecodeEncode(high);
  }

  lemma NextPrefix(s: seq<bv8>, i: nat)
    requires i < |s|
    ensures s[..i + 1] == s[..i] + [s[i]]
  {
  }

  lemma PartLength(c: Compression, q: Regs, n: nat, part: seq<bv8>, message: seq<bv8>)
    requires Absorbed(c, q, n, part, message)
    ensures |part| == |message| % 64 && n <= |message| / 64
  {
  }

  // ---------- Whole messages ----------

  function Concat(pieces: seq<seq<bv8>>): seq<bv8> {
    if pieces == [] then [] else Concat(pieces[..|pieces| - 1]) + pieces[|pieces| - 1]
  }

  /** md5_string, on the bytes before the terminating zero. */
  method Md5String(input: seq<bv8>) returns (result: seq<bv8>)
    ensures result == Digest(input)
  {
    var ctx := new Context();
    ctx.Update(input);
    assert [] + input == input;
    ctx.Finalize();
    result := ctx.digest[..];
  }

  /** The loop of md5_file; `pieces` are what fread returns until it returns nothing. */
  method Feed(ctx: Context, pieces: seq<seq<bv8>>)
    requires ctx.Valid() && ctx.message == []
    modifies ctx`size, ctx`message, ctx`blocks, ctx.buffer, ctx.input
    ensures ctx.Valid() && ctx.message == Concat(pieces)
  {
    var i := 0;
    while i < |pieces|
      invariant 0 <= i <= |pieces| && ctx.Valid() && ctx.message == Concat(pieces[..i])
    {
      ctx.Update(pieces[i]);
      assert pieces[..i + 1][..i] == pieces[..i];
      i := i + 1;
    }
    assert pieces[..i] == pieces;
  }

  /** Every message in every splitting has the digest of RFC 1321. */
  method Md5File(pieces: seq<seq<bv8>>) returns (result: seq<bv8>)
    ensures result == Digest(Concat(pieces))
  {
    var ctx := new Context();
    Feed(ctx, pieces);
    ctx.Finalize();
    result := ctx.digest[..];
  }
}
