/** The MD5 message digest as RFC 1321, section 3, defines it. */
module Rfc1321 {

  /** Section 3.4: the auxiliary functions. */
  function F(x: bv32, y: bv32, z: bv32): bv32 { (x & y) | (!x & z) }
  function G(x: bv32, y: bv32, z: bv32): bv32 { (x & z) | (y & !z) }
  function H(x: bv32, y: bv32, z: bv32): bv32 { x ^ y ^ z }
  function I(x: bv32, y: bv32, z: bv32): bv32 { y ^ (x | !z) }

  /** In each bit position F selects y where x is set and z elsewhere, and G is the same
      selection steered by z. */
  lemma Selection(x: bv32, y: bv32, z: bv32)
    ensures x & F(x, y, z) == x & y && !x & F(x, y, z) == !x & z
    ensures G(x, y, z) == F(z, x, y)
  {
  }

  /** In each bit position H is the parity of the three bits, and I is the complement of
      y where x is set or z is not, and y elsewhere. */
  lemma ParityAndComplement(x: bv32, y: bv32, z: bv32)
    ensures H(x, y, z) == (x & y & z) | (x & !y & !z) | (!x & y & !z) | (!x & !y & z)
    ensures z & I(x, y, z) == z & ((x & !y) | (!x & y)) && !z & I(x, y, z) == !z & !y
  {
  }

  /** Section 2: x <<< s, the circular shift. */
  function Rotate(x: bv32, s: Shift): bv32 {
    (x << s) | (x >> (32 - s))
  }

  /** The shift is to the left: the low bits of x move up, and its top bits come in
      below. */
  lemma RotatesLeft(x: bv32, s: Shift)
    ensures Rotate(x, s) >> s == (x << s) >> s
    ensures Rotate(x, s) << (32 - s) == (x >> (32 - s)) << (32 - s)
  {
  }

  /** No bit is lost: shifting on by the remaining places gives x back. */
  lemma RotateAround(x: bv32, s: Shift)
    ensures Rotate(Rotate(x, s), 32 - s) == x
  {
    if s < 16 {
    } else {
    }
  }

  /** Section 3.4: T[i] is the integer part of 4294967296 times abs(sin(i)), i in
      radians, for i from 1 to 64. */
  const T1: seq<bv32> :=
    [0xd76aa478, 0xe8c7b756, 0x242070db, 0xc1bdceee, 0xf57c0faf, 0x4787c62a, 0xa8304613, 0xfd469501] +
    [0x698098d8, 0x8b44f7af, 0xffff5bb1, 0x895cd7be, 0x6b901122, 0xfd987193, 0xa679438e, 0x49b40821]
  const T2: seq<bv32> :=
    [0xf61e2562, 0xc040b340, 0x265e5a51, 0xe9b6c7aa, 0xd62f105d, 0x02441453, 0xd8a1e681, 0xe7d3fbc8] +
    [0x21e1cde6, 0xc33707d6, 0xf4d50d87, 0x455a14ed, 0xa9e3e905, 0xfcefa3f8, 0x676f02d9, 0x8d2a4c8a]
  const T3: seq<bv32> :=
    [0xfffa3942, 0x8771f681, 0x6d9d6122, 0xfde5380c, 0xa4beea44, 0x4bdecfa9, 0xf6bb4b60, 0xbebfbc70] +
    [0x289b7ec6, 0xeaa127fa, 0xd4ef3085, 0x04881d05, 0xd9d4d039, 0xe6db99e5, 0x1fa27cf8, 0xc4ac5665]
  const T4: seq<bv32> :=
    [0xf4292244, 0x432aff97, 0xab9423a7, 0xfc93a039, 0x655b59c3, 0x8f0ccc92, 0xffeff47d, 0x85845dd1] +
    [0x6fa87e4f, 0xfe2ce6e0, 0xa3014314, 0x4e0811a1, 0xf7537e82, 0xbd3af235, 0x2ad7d2bb, 0xeb86d391]
  const T: seq<bv32> := T1 + T2 + T3 + T4

  datatype Regs = Regs(a: bv32, b: bv32, c: bv32, d: bv32)

  /** Section 3.3 */
  const INITIAL := Regs(0x67452301, 0xefcdab89, 0x98badcfe, 0x10325476)

  /** The operation [abcd k s i]: which register is replaced, which word of the block is
      used, the shift, and the index into T. */
  datatype Order = ABCD | DABC | CDAB | BCDA
  datatype Op = Op(order: Order, k: WordIndex, s: Shift, i: TableIndex)
  type WordIndex = k: nat | k < 16
  type Shift = s: bv32 | 0 < s < 32 witness 1
  type TableIndex = i: nat | 1 <= i <= 64 witness 1

  /** Section 3.4: the four rounds, operation by operation. */
  const ROUND1: seq<Op> :=
    [Op(ABCD, 0, 7, 1), Op(DABC, 1, 12, 2), Op(CDAB, 2, 17, 3), Op(BCDA, 3, 22, 4)] +
    [Op(ABCD, 4, 7, 5), Op(DABC, 5, 12, 6), Op(CDAB, 6, 17, 7), Op(BCDA, 7, 22, 8)] +
    [Op(ABCD, 8, 7, 9), Op(DABC, 9, 12, 10), Op(CDAB, 10, 17, 11), Op(BCDA, 11, 22, 12)] +
    [Op(ABCD, 12, 7, 13), Op(DABC, 13, 12, 14), Op(CDAB, 14, 17, 15), Op(BCDA, 15, 22, 16)]

  const ROUND2: seq<Op> :=
    [Op(ABCD, 1, 5, 17), Op(DABC, 6, 9, 18), Op(CDAB, 11, 14, 19), Op(BCDA, 0, 20, 20)] +
    [Op(ABCD, 5, 5, 21), Op(DABC, 10, 9, 22), Op(CDAB, 15, 14, 23), Op(BCDA, 4, 20, 24)] +
    [Op(ABCD, 9, 5, 25), Op(DABC, 14, 9, 26), Op(CDAB, 3, 14, 27), Op(BCDA, 8, 20, 28)] +
    [Op(ABCD, 13, 5, 29), Op(DABC, 2, 9, 30), Op(CDAB, 7, 14, 31), Op(BCDA, 12, 20, 32)]

  const ROUND3: seq<Op> :=
    [Op(ABCD, 5, 4, 33), Op(DABC, 8, 11, 34), Op(CDAB, 11, 16, 35), Op(BCDA, 14, 23, 36)] +
    [Op(ABCD, 1, 4, 37), Op(DABC, 4, 11, 38), Op(CDAB, 7, 16, 39), Op(BCDA, 10, 23, 40)] +
    [Op(ABCD, 13, 4, 41), Op(DABC, 0, 11, 42), Op(CDAB, 3, 16, 43), Op(BCDA, 6, 23, 44)] +
    [Op(ABCD, 9, 4, 45), Op(DABC, 12, 11, 46), Op(CDAB, 15, 16, 47), Op(BCDA, 2, 23, 48)]

  const ROUND4: seq<Op> :=
    [Op(ABCD, 0, 6, 49), Op(DABC, 7, 10, 50), Op(CDAB, 14, 15, 51), Op(BCDA, 5, 21, 52)] +
    [Op(ABCD, 12, 6, 53), Op(DABC, 3, 10, 54), Op(CDAB, 10, 15, 55), Op(BCDA, 1, 21, 56)] +
    [Op(ABCD, 8, 6, 57), Op(DABC, 15, 10, 58), Op(CDAB, 6, 15, 59), Op(BCDA, 13, 21, 60)] +
    [Op(ABCD, 4, 6, 61), Op(DABC, 11, 10, 62), Op(CDAB, 2, 15, 63), Op(BCDA, 9, 21, 64)]

  function Round(r: nat): (ops: seq<Op>)
    requires r < 4
    ensures |ops| == 16
  {
    if r == 0 then ROUND1 else if r == 1 then ROUND2 else if r == 2 then ROUND3 else ROUND4
  }

  function Aux(r: nat, x: bv32, y: bv32, z: bv32): bv32 {
    if r == 0 then F(x, y, z) else if r == 1 then G(x, y, z) else if r == 2 then H(x, y, z) else I(x, y, z)
  }

  /** a = b + ((a + f(b,c,d) + X[k] + T[i]) <<< s) */
  function Value(r: nat, a: bv32, b: bv32, c: bv32, d: bv32, x: bv32, t: bv32, s: Shift): bv32 {
    b + Rotate(a + Aux(r, b, c, d) + x + t, s)
  }

  /** The four registers in the order in which an operation names them. */
  function Read(order: Order, q: Regs): Regs {
    match order
    case ABCD => q
    case DABC => Regs(q.d, q.a, q.b, q.c)
    case CDAB => Regs(q.c, q.d, q.a, q.b)
    case BCDA => Regs(q.b, q.c, q.d, q.a)
  }

  /** The first register named is replaced. */
  function Write(order: Order, q: Regs, v: bv32): Regs {
    match order
    case ABCD => q.(a := v)
    case DABC => q.(d := v)
    case CDAB => q.(c := v)
    case BCDA => q.(b := v)
  }

  type BlockWords = x: seq<bv32> | |x| == 16 witness [0, 0, 0, 0, 0, 0, 0, 0, 0, 0, 0, 0, 0, 0, 0, 0]

  function Apply(r: nat, op: Op, q: Regs, x: BlockWords): Regs {
    var p := Read(op.order, q);
    Write(op.order, q, Value(r, p.a, p.b, p.c, p.d, x[op.k], T[op.i - 1], op.s))
  }

  type Operation = (nat, Op, Regs) -> Regs

  /** The registers after the first `n` operations of round `r`, where `f` carries one
      operation out. */
  function Run(f: Operation, r: nat, q: Regs, n: nat): Regs
    requires r < 4 && n <= 16
    decreases n
  {
    if n == 0 then q else f(r, Round(r)[n - 1], Run(f, r, q, n - 1))
  }

  /** Four rounds of sixteen operations, and the old registers added. */
  function FourRounds(f: Operation, q: Regs): Regs {
    Sum(q, Run(f, 3, Run(f, 2, Run(f, 1, Run(f, 0, q, 16), 16), 16), 16))
  }

  /** Section 2: addition of words, modulo 2^32. */
  function Add(x: bv32, y: bv32): bv32 {
    x + y
  }

  function Sum(p: Regs, q: Regs): Regs {
    Regs(Add(p.a, q.a), Add(p.b, q.b), Add(p.c, q.c), Add(p.d, q.d))
  }

  /** What one block of sixteen words does to the registers. */
  function Block(q: Regs, x: BlockWords): Regs {
    FourRounds(OperationOn(x), q)
  }

  function OperationOn(x: BlockWords): Operation {
    (r: nat, op: Op, q: Regs) => Apply(r, op, q, x)
  }

  // ---------- Messages ----------

  /** Section 2: a word is four bytes, low-order byte first. */
  function Decode(b0: bv8, b1: bv8, b2: bv8, b3: bv8): bv32 {
    ((b3 as bv32) << 24) | ((b2 as bv32) << 16) | ((b1 as bv32) << 8) | (b0 as bv32)
  }

  function Encode(w: bv32): seq<bv8> {
    [(w & 0xFF) as bv8, ((w >> 8) & 0xFF) as bv8, ((w >> 16) & 0xFF) as bv8, (w >> 24) as bv8]
  }

  lemma DecodeEncode(w: bv32)
    ensures Decode(Encode(w)[0], Encode(w)[1], Encode(w)[2], Encode(w)[3]) == w
  {
  }

  function Words(bytes: seq<bv8>): BlockWords
    requires |bytes| == 64
  {
    seq(16, j requires 0 <= j < 16 => Decode(bytes[4 * j], bytes[4 * j + 1], bytes[4 * j + 2], bytes[4 * j + 3]))
  }

  type Compression = (Regs, BlockWords) -> Regs

  /** Section 3.4: the first `n` blocks of a padded message, in order; `f` is what a
      block does to the registers. */
  function Blocks(f: Compression, q: Regs, bytes: seq<bv8>, n: nat): Regs
    requires 64 * n <= |bytes|
    decreases n
  {
    if n == 0 then q else f(Blocks(f, q, bytes, n - 1), Words(bytes[64 * n - 64..64 * n]))
  }

  function Zeros(n: nat): (z: seq<bv8>)
    ensures |z| == n && forall i :: 0 <= i < n ==> z[i] == 0
  {
    seq(n, _ => 0)
  }

  lemma PaddingFits(n: nat)
    ensures 0 <= (119 - n % 64) % 64 < 64 && (n + 1 + (119 - n % 64) % 64) % 64 == 56
  {
    var q, o := n / 64, n % 64;
    assert n == 64 * q + o;
    if o < 56 {
      assert n + 1 + (119 - o) % 64 == 64 * q + 56;
    } else {
      assert n + 1 + (119 - o) % 64 == 64 * (q + 1) + 56;
    }
  }

  /** Section 3.1: one bit and then zeros, up to 448 bits modulo 512. */
  function Padding(n: nat): (p: seq<bv8>)
    ensures 1 <= |p| <= 64 && (n + |p|) % 64 == 56
  {
    PaddingFits(n);
    [0x80] + Zeros((119 - n % 64) % 64)
  }

  function WordOf(n: nat): bv32
    requires n < 0x1_0000_0000
  {
    n as bv32
  }

  /** Section 3.2: the low-order 64 bits of the length in bits, low-order word first. */
  function LengthWords(n: nat): (bv32, bv32) {
    var bits := 8 * n % 0x1_0000_0000_0000_0000;
    (WordOf(bits % 0x1_0000_0000), WordOf(bits / 0x1_0000_0000))
  }

  function Pad(message: seq<bv8>): seq<bv8> {
    var (low, high) := LengthWords(|message|);
    message + Padding(|message|) + Encode(low) + Encode(high)
  }

  /** Section 3.5 */
  function Output(q: Regs): seq<bv8> {
    Encode(q.a) + Encode(q.b) + Encode(q.c) + Encode(q.d)
  }

  /** Section 3.4: every block of the padded message. */
  function AllBlocks(f: Compression, padded: seq<bv8>): Regs
    requires |padded| % 64 == 0
  {
    Blocks(f, INITIAL, padded, |padded| / 64)
  }

  function DigestBy(f: Compression, message: seq<bv8>): seq<bv8> {
    PadFills(message);
    Output(AllBlocks(f, Pad(message)))
  }

  function Digest(message: seq<bv8>): seq<bv8> {
    DigestBy(Block, message)
  }

  lemma LengthHalves(n: nat) returns (low: nat, high: nat)
    ensures low < 0x1_0000_0000 && high < 0x1_0000_0000 && low + 0x1_0000_0000 * high == 8 * n % 0x1_0000_0000_0000_0000
    ensures LengthWords(n) == (WordOf(low), WordOf(high))
  {
    var bits := 8 * n % 0x1_0000_0000_0000_0000;
    low, high := bits % 0x1_0000_0000, bits / 0x1_0000_0000;
  }

  /** A padded message is the message, a byte 0x80, zeros, and eight bytes: the length in
      bits modulo 2^64 in two words, the low one first. */
  lemma PaddedIs(message: seq<bv8>) returns (low: nat, high: nat)
    ensures low < 0x1_0000_0000 && high < 0x1_0000_0000 && low + 0x1_0000_0000 * high == 8 * |message| % 0x1_0000_0000_0000_0000
    ensures var (n, p) := (|message|, Pad(message));
            && n + 9 <= |p| <= n + 72 && |p| % 64 == 0 && p[..n] == message && p[n] == 0x80
            && (forall i :: n < i < |p| - 8 ==> p[i] == 0) && p[|p| - 8..] == Encode(WordOf(low)) + Encode(WordOf(high))
  {
    PadFills(message);
    low, high := LengthHalves(|message|);
  }

  // ---------- Block by block ----------

  lemma EightMore(n: nat)
    requires n % 64 == 56
    ensures (n + 8) % 64 == 0
  {
  }

  /** Padding completes the last block. */
  lemma PadFills(message: seq<bv8>)
    ensures |Pad(message)| % 64 == 0
  {
    EightMore(|message + Padding(|message|)|);
  }

  lemma {:induction false} BlocksLocal(f: Compression, q: Regs, bytes: seq<bv8>, more: seq<bv8>, n: nat)
    requires 64 * n <= |bytes| && bytes <= more
    ensures Blocks(f, q, bytes, n) == Blocks(f, q, more, n)
    decreases n
  {
    if n > 0 {
      BlocksLocal(f, q, bytes, more, n - 1);
      assert bytes[64 * n - 64..64 * n] == more[64 * n - 64..64 * n];
    }
  }

  // ---------- A message taken in piece by piece ----------

  /** `q` is the state after the `n` whole blocks of `message`, and `part` the rest. */
  ghost predicate Absorbed(c: Compression, q: Regs, n: nat, part: seq<bv8>, message: seq<bv8>) {
    && |part| < 64 && |message| == 64 * n + |part| && part == message[64 * n..]
    && q == Blocks(c, INITIAL, message, n)
  }

  lemma AbsorbByte(c: Compression, q: Regs, n: nat, part: seq<bv8>, message: seq<bv8>, b: bv8)
    requires Absorbed(c, q, n, part, message) && |part| < 63
    ensures Absorbed(c, q, n, part + [b], message + [b])
  {
    BlocksLocal(c, INITIAL, message, message + [b], n);
  }

  lemma AbsorbBlock(c: Compression, q: Regs, n: nat, part: seq<bv8>, message: seq<bv8>, b: bv8)
    requires Absorbed(c, q, n, part, message) && |part| == 63
    ensures Absorbed(c, c(q, Words(part + [b])), n + 1, [], message + [b])
  {
    var m := message + [b];
    BlocksLocal(c, INITIAL, message, m, n);
    assert m[64 * (n + 1) - 64..64 * (n + 1)] == part + [b];
  }

  lemma PartIs(n: nat, p: nat)
    requires p < 64
    ensures (64 * n + p) % 64 == p && (64 * n + p) / 64 == n
  {
  }

  /** The last block of the padded message. */
  lemma AbsorbLength(c: Compression, q: Regs, n: nat, part: seq<bv8>, message: seq<bv8>)
    requires Absorbed(c, q, n, part, message + Padding(|message|))
    ensures |part| == 56 && var (low, high) := LengthWords(|message|);
            DigestBy(c, message) == Output(c(q, Words(part + Encode(low) + Encode(high))))
  {
    var (low, high) := LengthWords(|message|);
    var m := message + Padding(|message|);
    var all, last := Pad(message), part + Encode(low) + Encode(high);
    PartIs(n, |part|);
    PartIs(n + 1, 0);
    BlocksLocal(c, INITIAL, m, all, n);
    assert all[64 * (n + 1) - 64..64 * (n + 1)] == last;
  }
}
