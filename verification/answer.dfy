/** A known answer: the digest of "abc" in section A.5 of RFC 1321, worked through
    operation by operation. */
module KnownAnswer {
  import opened Rfc1321

  /** The one block of the padded message. */
  predicate IsAbc(x: BlockWords) {
    x[0] == 0x80636261 && x[14] == 24 && forall k :: 0 <= k < 16 && k != 0 && k != 14 ==> x[k] == 0
  }

  /** `f` carries out operations on the block `x`. (Written so that a proof sees them only
      where it mentions them.) */
  ghost predicate Works(f: Operation, x: BlockWords) {
    forall r, op, q {:trigger Apply(r, op, q, x)} :: f(r, op, q) == Apply(r, op, q, x)
  }

  /** A quarter of the table T. */
  function Row(r: nat): (t: seq<bv32>)
    requires r < 4
    ensures |t| == 16
  {
    if r == 0 then T1 else if r == 1 then T2 else if r == 2 then T3 else T4
  }

  lemma RowOf(r: nat, n: nat, i: nat)
    requires r < 4 && n < 16 && i == 16 * r + n + 1
    ensures |T| == 64 && T[i - 1] == Row(r)[n]
  {
    Quarters(T1, T2, T3, T4, r, n);
  }

  lemma Quarters(a: seq<bv32>, b: seq<bv32>, c: seq<bv32>, d: seq<bv32>, r: nat, n: nat)
    requires |a| == |b| == |c| == |d| == 16 && r < 4 && n < 16
    ensures (a + b + c + d)[16 * r + n] == if r == 0 then a[n] else if r == 1 then b[n] else if r == 2 then c[n] else d[n]
  {
  }

  /** One operation, with the words `w` and `t` that it adds. */
  lemma Turn(f: Operation, x: BlockWords, r: nat, q: Regs, n: nat, p: Regs, op: Op, w: bv32, t: bv32, v: bv32)
    requires Works(f, x) && r < 4 && n < 16 && Run(f, r, q, n) == p && op == Round(r)[n] && w == x[op.k]
    requires op.i == 16 * r + n + 1 && t == Row(r)[n]
    requires var u := Read(op.order, p); v == Value(r, u.a, u.b, u.c, u.d, w, t, op.s)
    ensures Run(f, r, q, n + 1) == Write(op.order, p, v)
  {
    RowOf(r, n, op.i);
    Applied(x, r, p, op, w, t, v);
    assert f(r, op, p) == Apply(r, op, p, x);
    OneMore(f, r, q, n);
  }

  lemma Applied(x: BlockWords, r: nat, p: Regs, op: Op, w: bv32, t: bv32, v: bv32)
    requires w == x[op.k] && t == T[op.i - 1]
    requires var u := Read(op.order, p); v == Value(r, u.a, u.b, u.c, u.d, w, t, op.s)
    ensures Apply(r, op, p, x) == Write(op.order, p, v)
  {
  }

  lemma OneMore(f: Operation, r: nat, q: Regs, n: nat)
    requires r < 4 && n < 16
    ensures Run(f, r, q, n + 1) == f(r, Round(r)[n], Run(f, r, q, n))
  {
  }

  lemma Round1a(f: Operation, x: BlockWords, q: Regs)
    requires Works(f, x) && IsAbc(x) && Run(f, 0, q, 0) == Regs(0x67452301, 0xefcdab89, 0x98badcfe, 0x10325476)
    ensures Run(f, 0, q, 4) == Regs(0xd6d117b4, 0x7ad956f2, 0x2f6fbd72, 0x344a8432)
  {
    Turn(f, x, 0, q, 0, Regs(0x67452301, 0xefcdab89, 0x98badcfe, 0x10325476), Op(ABCD, 0, 7, 1), 0x80636261, 0xd76aa478, 0xd6d117b4);
    Turn(f, x, 0, q, 1, Regs(0xd6d117b4, 0xefcdab89, 0x98badcfe, 0x10325476), Op(DABC, 1, 12, 2), 0, 0xe8c7b756, 0x344a8432);
    Turn(f, x, 0, q, 2, Regs(0xd6d117b4, 0xefcdab89, 0x98badcfe, 0x344a8432), Op(CDAB, 2, 17, 3), 0, 0x242070db, 0x2f6fbd72);
    Turn(f, x, 0, q, 3, Regs(0xd6d117b4, 0xefcdab89, 0x2f6fbd72, 0x344a8432), Op(BCDA, 3, 22, 4), 0, 0xc1bdceee, 0x7ad956f2);
  }

  lemma Round1b(f: Operation, x: BlockWords, q: Regs)
    requires Works(f, x) && IsAbc(x) && Run(f, 0, q, 4) == Regs(0xd6d117b4, 0x7ad956f2, 0x2f6fbd72, 0x344a8432)
    ensures Run(f, 0, q, 8) == Regs(0xc73741ef, 0x928d99f6, 0x207dc67b, 0x8bac3051)
  {
    Turn(f, x, 0, q, 4, Regs(0xd6d117b4, 0x7ad956f2, 0x2f6fbd72, 0x344a8432), Op(ABCD, 4, 7, 5), 0, 0xf57c0faf, 0xc73741ef);
    Turn(f, x, 0, q, 5, Regs(0xc73741ef, 0x7ad956f2, 0x2f6fbd72, 0x344a8432), Op(DABC, 5, 12, 6), 0, 0x4787c62a, 0x8bac3051);
    Turn(f, x, 0, q, 6, Regs(0xc73741ef, 0x7ad956f2, 0x2f6fbd72, 0x8bac3051), Op(CDAB, 6, 17, 7), 0, 0xa8304613, 0x207dc67b);
    Turn(f, x, 0, q, 7, Regs(0xc73741ef, 0x7ad956f2, 0x207dc67b, 0x8bac3051), Op(BCDA, 7, 22, 8), 0, 0xfd469501, 0x928d99f6);
  }

  lemma Round1c(f: Operation, x: BlockWords, q: Regs)
    requires Works(f, x) && IsAbc(x) && Run(f, 0, q, 8) == Regs(0xc73741ef, 0x928d99f6, 0x207dc67b, 0x8bac3051)
    ensures Run(f, 0, q, 12) == Regs(0x854b3712, 0x5ed49596, 0x3020401c, 0x74e2f284)
  {
    Turn(f, x, 0, q, 8, Regs(0xc73741ef, 0x928d99f6, 0x207dc67b, 0x8bac3051), Op(ABCD, 8, 7, 9), 0, 0x698098d8, 0x854b3712);
    Turn(f, x, 0, q, 9, Regs(0x854b3712, 0x928d99f6, 0x207dc67b, 0x8bac3051), Op(DABC, 9, 12, 10), 0, 0x8b44f7af, 0x74e2f284);
    Turn(f, x, 0, q, 10, Regs(0x854b3712, 0x928d99f6, 0x207dc67b, 0x74e2f284), Op(CDAB, 10, 17, 11), 0, 0xffff5bb1, 0x3020401c);
    Turn(f, x, 0, q, 11, Regs(0x854b3712, 0x928d99f6, 0x3020401c, 0x74e2f284), Op(BCDA, 11, 22, 12), 0, 0x895cd7be, 0x5ed49596);
  }

  lemma Round1d(f: Operation, x: BlockWords, q: Regs)
    requires Works(f, x) && IsAbc(x) && Run(f, 0, q, 12) == Regs(0x854b3712, 0x5ed49596, 0x3020401c, 0x74e2f284)
    ensures Run(f, 0, q, 16) == Regs(0xdda9b9a6, 0x72aff2e0, 0xe396856b, 0xa1051895)
  {
    Turn(f, x, 0, q, 12, Regs(0x854b3712, 0x5ed49596, 0x3020401c, 0x74e2f284), Op(ABCD, 12, 7, 13), 0, 0x6b901122, 0xdda9b9a6);
    Turn(f, x, 0, q, 13, Regs(0xdda9b9a6, 0x5ed49596, 0x3020401c, 0x74e2f284), Op(DABC, 13, 12, 14), 0, 0xfd987193, 0xa1051895);
    Turn(f, x, 0, q, 14, Regs(0xdda9b9a6, 0x5ed49596, 0x3020401c, 0xa1051895), Op(CDAB, 14, 17, 15), 0x00000018, 0xa679438e, 0xe396856b);
    Turn(f, x, 0, q, 15, Regs(0xdda9b9a6, 0x5ed49596, 0xe396856b, 0xa1051895), Op(BCDA, 15, 22, 16), 0, 0x49b40821, 0x72aff2e0);
  }

  lemma Round2a(f: Operation, x: BlockWords, q: Regs)
    requires Works(f, x) && IsAbc(x) && Run(f, 1, q, 0) == Regs(0xdda9b9a6, 0x72aff2e0, 0xe396856b, 0xa1051895)
    ensures Run(f, 1, q, 4) == Regs(0x3e9e9126, 0xb5b204e4, 0xe25e1652, 0x4a1d804e)
  {
    Turn(f, x, 1, q, 0, Regs(0xdda9b9a6, 0x72aff2e0, 0xe396856b, 0xa1051895), Op(ABCD, 1, 5, 17), 0, 0xf61e2562, 0x3e9e9126);
    Turn(f, x, 1, q, 1, Regs(0x3e9e9126, 0x72aff2e0, 0xe396856b, 0xa1051895), Op(DABC, 6, 9, 18), 0, 0xc040b340, 0x4a1d804e);
    Turn(f, x, 1, q, 2, Regs(0x3e9e9126, 0x72aff2e0, 0xe396856b, 0x4a1d804e), Op(CDAB, 11, 14, 19), 0, 0x265e5a51, 0xe25e1652);
    Turn(f, x, 1, q, 3, Regs(0x3e9e9126, 0x72aff2e0, 0xe25e1652, 0x4a1d804e), Op(BCDA, 0, 20, 20), 0x80636261, 0xe9b6c7aa, 0xb5b204e4);
  }

  lemma Round2b(f: Operation, x: BlockWords, q: Regs)
    requires Works(f, x) && IsAbc(x) && Run(f, 1, q, 4) == Regs(0x3e9e9126, 0xb5b204e4, 0xe25e1652, 0x4a1d804e)
    ensures Run(f, 1, q, 8) == Regs(0x59a8ffda, 0x47092c07, 0xabfc7920, 0x6d002f1e)
  {
    Turn(f, x, 1, q, 4, Regs(0x3e9e9126, 0xb5b204e4, 0xe25e1652, 0x4a1d804e), Op(ABCD, 5, 5, 21), 0, 0xd62f105d, 0x59a8ffda);
    Turn(f, x, 1, q, 5, Regs(0x59a8ffda, 0xb5b204e4, 0xe25e1652, 0x4a1d804e), Op(DABC, 10, 9, 22), 0, 0x02441453, 0x6d002f1e);
    Turn(f, x, 1, q, 6, Regs(0x59a8ffda, 0xb5b204e4, 0xe25e1652, 0x6d002f1e), Op(CDAB, 15, 14, 23), 0, 0xd8a1e681, 0xabfc7920);
    Turn(f, x, 1, q, 7, Regs(0x59a8ffda, 0xb5b204e4, 0xabfc7920, 0x6d002f1e), Op(BCDA, 4, 20, 24), 0, 0xe7d3fbc8, 0x47092c07);
  }

  lemma Round2c(f: Operation, x: BlockWords, q: Regs)
    requires Works(f, x) && IsAbc(x) && Run(f, 1, q, 8) == Regs(0x59a8ffda, 0x47092c07, 0xabfc7920, 0x6d002f1e)
    ensures Run(f, 1, q, 12) == Regs(0xb7f268cf, 0x786acb8f, 0xfe1623b1, 0x09388eff)
  {
    Turn(f, x, 1, q, 8, Regs(0x59a8ffda, 0x47092c07, 0xabfc7920, 0x6d002f1e), Op(ABCD, 9, 5, 25), 0, 0x21e1cde6, 0xb7f268cf);
    Turn(f, x, 1, q, 9, Regs(0xb7f268cf, 0x47092c07, 0xabfc7920, 0x6d002f1e), Op(DABC, 14, 9, 26), 0x00000018, 0xc33707d6, 0x09388eff);
    Turn(f, x, 1, q, 10, Regs(0xb7f268cf, 0x47092c07, 0xabfc7920, 0x09388eff), Op(CDAB, 3, 14, 27), 0, 0xf4d50d87, 0xfe1623b1);
    Turn(f, x, 1, q, 11, Regs(0xb7f268cf, 0x47092c07, 0xfe1623b1, 0x09388eff), Op(BCDA, 8, 20, 28), 0, 0x455a14ed, 0x786acb8f);
  }

  lemma Round2d(f: Operation, x: BlockWords, q: Regs)
    requires Works(f, x) && IsAbc(x) && Run(f, 1, q, 12) == Regs(0xb7f268cf, 0x786acb8f, 0xfe1623b1, 0x09388eff)
    ensures Run(f, 1, q, 16) == Regs(0x790a77fb, 0x726342d3, 0xa62884aa, 0x9f47e4f8)
  {
    Turn(f, x, 1, q, 12, Regs(0xb7f268cf, 0x786acb8f, 0xfe1623b1, 0x09388eff), Op(ABCD, 13, 5, 29), 0, 0xa9e3e905, 0x790a77fb);
    Turn(f, x, 1, q, 13, Regs(0x790a77fb, 0x786acb8f, 0xfe1623b1, 0x09388eff), Op(DABC, 2, 9, 30), 0, 0xfcefa3f8, 0x9f47e4f8);
    Turn(f, x, 1, q, 14, Regs(0x790a77fb, 0x786acb8f, 0xfe1623b1, 0x9f47e4f8), Op(CDAB, 7, 14, 31), 0, 0x676f02d9, 0xa62884aa);
    Turn(f, x, 1, q, 15, Regs(0x790a77fb, 0x786acb8f, 0xa62884aa, 0x9f47e4f8), Op(BCDA, 12, 20, 32), 0, 0x8d2a4c8a, 0x726342d3);
  }

  lemma Round3a(f: Operation, x: BlockWords, q: Regs)
    requires Works(f, x) && IsAbc(x) && Run(f, 2, q, 0) == Regs(0x790a77fb, 0x726342d3, 0xa62884aa, 0x9f47e4f8)
    ensures Run(f, 2, q, 4) == Regs(0xb3707ebf, 0x3b0875c7, 0x8d212ff5, 0x60127b2e)
  {
    Turn(f, x, 2, q, 0, Regs(0x790a77fb, 0x726342d3, 0xa62884aa, 0x9f47e4f8), Op(ABCD, 5, 4, 33), 0, 0xfffa3942, 0xb3707ebf);
    Turn(f, x, 2, q, 1, Regs(0xb3707ebf, 0x726342d3, 0xa62884aa, 0x9f47e4f8), Op(DABC, 8, 11, 34), 0, 0x8771f681, 0x60127b2e);
    Turn(f, x, 2, q, 2, Regs(0xb3707ebf, 0x726342d3, 0xa62884aa, 0x60127b2e), Op(CDAB, 11, 16, 35), 0, 0x6d9d6122, 0x8d212ff5);
    Turn(f, x, 2, q, 3, Regs(0xb3707ebf, 0x726342d3, 0x8d212ff5, 0x60127b2e), Op(BCDA, 14, 23, 36), 0x00000018, 0xfde5380c, 0x3b0875c7);
  }

  lemma Round3b(f: Operation, x: BlockWords, q: Regs)
    requires Works(f, x) && IsAbc(x) && Run(f, 2, q, 4) == Regs(0xb3707ebf, 0x3b0875c7, 0x8d212ff5, 0x60127b2e)
    ensures Run(f, 2, q, 8) == Regs(0x21b117b9, 0x5a2f5ea5, 0x3575227e, 0x6e7429d5)
  {
    Turn(f, x, 2, q, 4, Regs(0xb3707ebf, 0x3b0875c7, 0x8d212ff5, 0x60127b2e), Op(ABCD, 1, 4, 37), 0, 0xa4beea44, 0x21b117b9);
    Turn(f, x, 2, q, 5, Regs(0x21b117b9, 0x3b0875c7, 0x8d212ff5, 0x60127b2e), Op(DABC, 4, 11, 38), 0, 0x4bdecfa9, 0x6e7429d5);
    Turn(f, x, 2, q, 6, Regs(0x21b117b9, 0x3b0875c7, 0x8d212ff5, 0x6e7429d5), Op(CDAB, 7, 16, 39), 0, 0xf6bb4b60, 0x3575227e);
    Turn(f, x, 2, q, 7, Regs(0x21b117b9, 0x3b0875c7, 0x3575227e, 0x6e7429d5), Op(BCDA, 10, 23, 40), 0, 0xbebfbc70, 0x5a2f5ea5);
  }

  lemma Round3c(f: Operation, x: BlockWords, q: Regs)
    requires Works(f, x) && IsAbc(x) && Run(f, 2, q, 8) == Regs(0x21b117b9, 0x5a2f5ea5, 0x3575227e, 0x6e7429d5)
    ensures Run(f, 2, q, 12) == Regs(0x11de1779, 0x4c6124f4, 0x31c465ca, 0xfadcaa38)
  {
    Turn(f, x, 2, q, 8, Regs(0x21b117b9, 0x5a2f5ea5, 0x3575227e, 0x6e7429d5), Op(ABCD, 13, 4, 41), 0, 0x289b7ec6, 0x11de1779);
    Turn(f, x, 2, q, 9, Regs(0x11de1779, 0x5a2f5ea5, 0x3575227e, 0x6e7429d5), Op(DABC, 0, 11, 42), 0x80636261, 0xeaa127fa, 0xfadcaa38);
    Turn(f, x, 2, q, 10, Regs(0x11de1779, 0x5a2f5ea5, 0x3575227e, 0xfadcaa38), Op(CDAB, 3, 16, 43), 0, 0xd4ef3085, 0x31c465ca);
    Turn(f, x, 2, q, 11, Regs(0x11de1779, 0x5a2f5ea5, 0x31c465ca, 0xfadcaa38), Op(BCDA, 6, 23, 44), 0, 0x04881d05, 0x4c6124f4);
  }

  lemma Round3d(f: Operation, x: BlockWords, q: Regs)
    requires Works(f, x) && IsAbc(x) && Run(f, 2, q, 12) == Regs(0x11de1779, 0x4c6124f4, 0x31c465ca, 0xfadcaa38)
    ensures Run(f, 2, q, 16) == Regs(0x7f2e507b, 0x7beb9700, 0x8fae6399, 0x99d9679d)
  {
    Turn(f, x, 2, q, 12, Regs(0x11de1779, 0x4c6124f4, 0x31c465ca, 0xfadcaa38), Op(ABCD, 9, 4, 45), 0, 0xd9d4d039, 0x7f2e507b);
    Turn(f, x, 2, q, 13, Regs(0x7f2e507b, 0x4c6124f4, 0x31c465ca, 0xfadcaa38), Op(DABC, 12, 11, 46), 0, 0xe6db99e5, 0x99d9679d);
    Turn(f, x, 2, q, 14, Regs(0x7f2e507b, 0x4c6124f4, 0x31c465ca, 0x99d9679d), Op(CDAB, 15, 16, 47), 0, 0x1fa27cf8, 0x8fae6399);
    Turn(f, x, 2, q, 15, Regs(0x7f2e507b, 0x4c6124f4, 0x8fae6399, 0x99d9679d), Op(BCDA, 2, 23, 48), 0, 0xc4ac5665, 0x7beb9700);
  }

  lemma Round4a(f: Operation, x: BlockWords, q: Regs)
    requires Works(f, x) && IsAbc(x) && Run(f, 3, q, 0) == Regs(0x7f2e507b, 0x7beb9700, 0x8fae6399, 0x99d9679d)
    ensures Run(f, 3, q, 4) == Regs(0x7b201df8, 0x8bf025c4, 0xb298cefd, 0xf4e8e96e)
  {
    Turn(f, x, 3, q, 0, Regs(0x7f2e507b, 0x7beb9700, 0x8fae6399, 0x99d9679d), Op(ABCD, 0, 6, 49), 0x80636261, 0xf4292244, 0x7b201df8);
    Turn(f, x, 3, q, 1, Regs(0x7b201df8, 0x7beb9700, 0x8fae6399, 0x99d9679d), Op(DABC, 7, 10, 50), 0, 0x432aff97, 0xf4e8e96e);
    Turn(f, x, 3, q, 2, Regs(0x7b201df8, 0x7beb9700, 0x8fae6399, 0xf4e8e96e), Op(CDAB, 14, 15, 51), 0x00000018, 0xab9423a7, 0xb298cefd);
    Turn(f, x, 3, q, 3, Regs(0x7b201df8, 0x7beb9700, 0xb298cefd, 0xf4e8e96e), Op(BCDA, 5, 21, 52), 0, 0xfc93a039, 0x8bf025c4);
  }

  lemma Round4b(f: Operation, x: BlockWords, q: Regs)
    requires Works(f, x) && IsAbc(x) && Run(f, 3, q, 4) == Regs(0x7b201df8, 0x8bf025c4, 0xb298cefd, 0xf4e8e96e)
    ensures Run(f, 3, q, 8) == Regs(0x06cc5e8a, 0x3bfa2c27, 0x7d632dd0, 0x5b0d97aa)
  {
    Turn(f, x, 3, q, 4, Regs(0x7b201df8, 0x8bf025c4, 0xb298cefd, 0xf4e8e96e), Op(ABCD, 12, 6, 53), 0, 0x655b59c3, 0x06cc5e8a);
    Turn(f, x, 3, q, 5, Regs(0x06cc5e8a, 0x8bf025c4, 0xb298cefd, 0xf4e8e96e), Op(DABC, 3, 10, 54), 0, 0x8f0ccc92, 0x5b0d97aa);
    Turn(f, x, 3, q, 6, Regs(0x06cc5e8a, 0x8bf025c4, 0xb298cefd, 0x5b0d97aa), Op(CDAB, 10, 15, 55), 0, 0xffeff47d, 0x7d632dd0);
    Turn(f, x, 3, q, 7, Regs(0x06cc5e8a, 0x8bf025c4, 0x7d632dd0, 0x5b0d97aa), Op(BCDA, 1, 21, 56), 0, 0x85845dd1, 0x3bfa2c27);
  }

  lemma Round4c(f: Operation, x: BlockWords, q: Regs)
    requires Works(f, x) && IsAbc(x) && Run(f, 3, q, 8) == Regs(0x06cc5e8a, 0x3bfa2c27, 0x7d632dd0, 0x5b0d97aa)
    ensures Run(f, 3, q, 12) == Regs(0x7f81cc35, 0x7327d604, 0x4f9dbe3f, 0x094454ab)
  {
    Turn(f, x, 3, q, 8, Regs(0x06cc5e8a, 0x3bfa2c27, 0x7d632dd0, 0x5b0d97aa), Op(ABCD, 8, 6, 57), 0, 0x6fa87e4f, 0x7f81cc35);
    Turn(f, x, 3, q, 9, Regs(0x7f81cc35, 0x3bfa2c27, 0x7d632dd0, 0x5b0d97aa), Op(DABC, 15, 10, 58), 0, 0xfe2ce6e0, 0x094454ab);
    Turn(f, x, 3, q, 10, Regs(0x7f81cc35, 0x3bfa2c27, 0x7d632dd0, 0x094454ab), Op(CDAB, 6, 15, 59), 0, 0xa3014314, 0x4f9dbe3f);
    Turn(f, x, 3, q, 11, Regs(0x7f81cc35, 0x3bfa2c27, 0x4f9dbe3f, 0x094454ab), Op(BCDA, 13, 21, 60), 0, 0x4e0811a1, 0x7327d604);
  }

  lemma Round4d(f: Operation, x: BlockWords, q: Regs)
    requires Works(f, x) && IsAbc(x) && Run(f, 3, q, 12) == Regs(0x7f81cc35, 0x7327d604, 0x4f9dbe3f, 0x094454ab)
    ensures Run(f, 3, q, 16) == Regs(0x310ade8f, 0xc08226b3, 0xe484b9d8, 0x624d8cb2)
  {
    Turn(f, x, 3, q, 12, Regs(0x7f81cc35, 0x7327d604, 0x4f9dbe3f, 0x094454ab), Op(ABCD, 4, 6, 61), 0, 0xf7537e82, 0x310ade8f);
    Turn(f, x, 3, q, 13, Regs(0x310ade8f, 0x7327d604, 0x4f9dbe3f, 0x094454ab), Op(DABC, 11, 10, 62), 0, 0xbd3af235, 0x624d8cb2);
    Turn(f, x, 3, q, 14, Regs(0x310ade8f, 0x7327d604, 0x4f9dbe3f, 0x624d8cb2), Op(CDAB, 2, 15, 63), 0, 0x2ad7d2bb, 0xe484b9d8);
    Turn(f, x, 3, q, 15, Regs(0x310ade8f, 0x7327d604, 0xe484b9d8, 0x624d8cb2), Op(BCDA, 9, 21, 64), 0, 0xeb86d391, 0xc08226b3);
  }

  /** The four rounds, one after the other. */
  lemma Rounds(f: Operation, x: BlockWords)
    requires Works(f, x) && IsAbc(x)
    ensures Run(f, 3, Run(f, 2, Run(f, 1, Run(f, 0, INITIAL, 16), 16), 16), 16) == Regs(0x310ade8f, 0xc08226b3, 0xe484b9d8, 0x624d8cb2)
  {
    Round1a(f, x, INITIAL);
    Round1b(f, x, INITIAL);
    Round1c(f, x, INITIAL);
    Round1d(f, x, INITIAL);
    var q1 := Run(f, 0, INITIAL, 16);
    Round2a(f, x, q1);
    Round2b(f, x, q1);
    Round2c(f, x, q1);
    Round2d(f, x, q1);
    var q2 := Run(f, 1, q1, 16);
    Round3a(f, x, q2);
    Round3b(f, x, q2);
    Round3c(f, x, q2);
    Round3d(f, x, q2);
    var q3 := Run(f, 2, q2, 16);
    Round4a(f, x, q3);
    Round4b(f, x, q3);
    Round4c(f, x, q3);
    Round4d(f, x, q3);
  }

  lemma BlockOfAbc(x: BlockWords)
    requires IsAbc(x)
    ensures Block(INITIAL, x) == Regs(0x98500190, 0xb04fd23c, 0x7d3f96d6, 0x727fe128)
  {
    Rounds(OperationOn(x), x);
  }

  /** Padding "abc" to one block. */
  lemma PaddedAbc(message: seq<bv8>)
    requires message == [0x61, 0x62, 0x63]
    ensures |Pad(message)| == 64 && IsAbc(Words(Pad(message)[0..64]))
  {
    var padding, low, high, p := PartsOf(message);
    Parts(message, padding, low, high, p);
    assert p[0..64] == p;
    AbcWords(p);
  }

  lemma PartsOf(message: seq<bv8>) returns (padding: seq<bv8>, low: seq<bv8>, high: seq<bv8>, p: seq<bv8>)
    requires |message| == 3
    ensures p == Pad(message) && p == message + padding + low + high
    ensures |padding| == 53 && padding[0] == 0x80 && forall i :: 1 <= i < 53 ==> padding[i] == 0
    ensures low == [24, 0, 0, 0] && high == [0, 0, 0, 0]
  {
    Lengths(|message|);
    padding, low, high, p := Padding(|message|), Encode(LengthWords(|message|).0), Encode(LengthWords(|message|).1), Pad(message);
    Bytes();
  }

  lemma Lengths(n: nat)
    requires n == 3
    ensures LengthWords(n) == (24, 0)
  {
    var bits := 8 * n % 0x1_0000_0000_0000_0000;
    assert bits == 24 && bits % 0x1_0000_0000 == 24 && bits / 0x1_0000_0000 == 0;
    SmallWords();
  }

  lemma SmallWords()
    ensures WordOf(24) == 24 && WordOf(0) == 0
  {
  }

  lemma Bytes()
    ensures Encode(24) == [24, 0, 0, 0] && Encode(0) == [0, 0, 0, 0]
  {
  }

  lemma Parts(message: seq<bv8>, padding: seq<bv8>, low: seq<bv8>, high: seq<bv8>, p: seq<bv8>)
    requires p == message + padding + low + high && |message| == 3 && |padding| == 53 && |low| == |high| == 4
    requires padding[0] == 0x80 && (forall i :: 1 <= i < 53 ==> padding[i] == 0)
    requires low[0] == 24 && low[1] == low[2] == low[3] == 0 && forall i :: 0 <= i < 4 ==> high[i] == 0
    ensures |p| == 64 && p[0] == message[0] && p[1] == message[1] && p[2] == message[2] && p[3] == 0x80 && p[56] == 24
    ensures forall i :: 4 <= i < 64 && i != 56 ==> p[i] == 0
  {
  }

  lemma AbcWords(p: seq<bv8>)
    requires |p| == 64 && p[0] == 0x61 && p[1] == 0x62 && p[2] == 0x63 && p[3] == 0x80 && p[56] == 24
    requires forall i :: 4 <= i < 64 && i != 56 ==> p[i] == 0
    ensures IsAbc(Words(p))
  {
    assert Decode(0x61, 0x62, 0x63, 0x80) == 0x80636261 && Decode(24, 0, 0, 0) == 24 && Decode(0, 0, 0, 0) == 0;
  }

  /** The digest of "abc" is 900150983cd24fb0d6963f7d28e17f72. */
  lemma DigestOfAbc()
    ensures Digest([0x61, 0x62, 0x63]) ==
            [0x90, 0x01, 0x50, 0x98, 0x3c, 0xd2, 0x4f, 0xb0,
             0xd6, 0x96, 0x3f, 0x7d, 0x28, 0xe1, 0x7f, 0x72]
  {
    var message: seq<bv8> := [0x61, 0x62, 0x63];
    PaddedAbc(message);
    PadFills(message);
    var x := Words(Pad(message)[0..64]);
    BlockOfAbc(x);
    OneBlock(message);
    AbcBytes();
  }

  /** A message that is padded to one block. */
  lemma OneBlock(message: seq<bv8>)
    requires |Pad(message)| == 64
    ensures Digest(message) == Output(Block(INITIAL, Words(Pad(message)[0..64])))
  {
    assert Blocks(Block, INITIAL, Pad(message), 1) == Block(Blocks(Block, INITIAL, Pad(message), 0), Words(Pad(message)[0..64]));
  }

  lemma AbcBytes()
    ensures Output(Regs(0x98500190, 0xb04fd23c, 0x7d3f96d6, 0x727fe128)) ==
            [0x90, 0x01, 0x50, 0x98, 0x3c, 0xd2, 0x4f, 0xb0,
             0xd6, 0x96, 0x3f, 0x7d, 0x28, 0xe1, 0x7f, 0x72]
  {
    assert Encode(0x98500190) == [0x90, 0x01, 0x50, 0x98];
    assert Encode(0xb04fd23c) == [0x3c, 0xd2, 0x4f, 0xb0];
    assert Encode(0x7d3f96d6) == [0xd6, 0x96, 0x3f, 0x7d];
    assert Encode(0x727fe128) == [0x28, 0xe1, 0x7f, 0x72];
  }
}
