/** Printing and parsing of numbers (src/kernel/tools/klib.c). */
module Klib {
  import opened Mmu
  import opened Numerals

  const INT_MIN: int := -0x8000_0000
  const INT_MAX: int := 0x7FFF_FFFF

  /** C's / and %, which truncate toward zero. */
  function Quot(a: int, b: int): int
    requires b > 0
  {
    if a >= 0 then a / b else -(-a / b)
  }

  function Rem(a: int, b: int): int
    requires b > 0
  {
    if a >= 0 then a % b else -(-a % b)
  }

  function Abs(a: int): nat {
    if a < 0 then -a else a
  }

  predicate KnownRadix(radix: int) {
    radix == 8 || radix == 10 || radix == 16
  }

  /** One turn of the digit loop on a value of either sign. */
  lemma RemSmall(a: int, b: int)
    requires KnownRadix(b)
    ensures -16 < Rem(a, b) < 16 && Abs(Rem(a, b)) == Abs(a) % b && Abs(Quot(a, b)) == Abs(a) / b
  {
    if b == 8 {
    } else if b == 10 {
    } else {
    }
  }

  lemma DigitsSplit(m: nat, b: nat)
    requires KnownRadix(b)
    ensures Digits(m, b) == (if m / b != 0 then Digits(m / b, b) else "") + [DigitChar(m % b)]
    ensures m != 0 ==> m / b < m
  {
    if b == 8 {
    } else if b == 10 {
    } else {
    }
  }

  function Reversed(s: string): (r: string)
    ensures |r| == |s|
  {
    if s == "" then "" else Reversed(s[1..]) + [s[0]]
  }

  lemma {:induction false} ReversedAppend(s: string, c: char)
    ensures Reversed(s + [c]) == [c] + Reversed(s)
    decreases s
  {
    if s == "" {
      assert s + [c] == [c] && Reversed([c]) == Reversed([c][1..]) + [c];
    } else {
      assert (s + [c])[1..] == s[1..] + [c];
      ReversedAppend(s[1..], c);
    }
  }

  lemma {:induction false} ReversedAt(s: string, k: nat)
    requires k < |s|
    ensures Reversed(s)[k] == s[|s| - 1 - k]
    decreases s
  {
    if k < |s| - 1 {
      ReversedAt(s[1..], k);
    }
  }

  /** Bounds the digits of a number below 8^n. */
  function Pow8(n: nat): nat {
    if n == 0 then 1 else 8 * Pow8(n - 1)
  }

  lemma EighthFits(m: nat, n: nat, radix: nat)
    requires m < Pow8(n) && n > 0 && KnownRadix(radix)
    ensures m / radix < Pow8(n - 1)
  {
    var q := m / radix;
    assert m == q * radix + m % radix;
    assert q * 8 <= q * radix by {
      assert q * (radix - 8) >= 0;
    }
  }

  lemma Pow8Int()
    ensures Pow8(11) > 0x8000_0000
  {
  }

  // ---------- Printing ----------

  /** What num2str writes: base 10 with a sign, bases 8 and 16 modulo 2^32. */
  function Printed(num: int, radix: nat): string
    requires 8 <= radix <= 16
  {
    if radix == 10 && num < 0 then "-" + Digits(-num, 10) else Digits(num % 0x1_0000_0000, radix)
  }

  predicate IsInt(num: int) {
    INT_MIN <= num <= INT_MAX
  }

  /** The do-while loop: digits are written lowest first, from `at` on. */
  method WriteDigits(value: int, radix: nat, buf: array<char>, at: nat) returns (curr: nat)
    requires IsInt(value) && KnownRadix(radix) && at + 11 < buf.Length
    modifies buf
    ensures at < curr <= at + 11
    ensures Reversed(buf[at..curr]) == Digits(Abs(value), radix)
    ensures buf[..at] == old(buf[..at])
  {
    var num := value;
    curr := at;
    Pow8Int();
    var more := true;
    while more
      invariant at <= curr <= at + 11 && Pending(value, num, more, radix, buf[at..curr], at + 11 - curr)
      invariant buf[..at] == old(buf[..at])
      decreases more, Abs(num)
    {
      num, more := WriteDigit(value, num, radix, buf, at, curr);
      curr := curr + 1;
    }
    PendingDone(value, num, radix, buf[at..curr], at + 11 - curr);
  }

  /** One digit, and the quotient that is left. */
  method WriteDigit(ghost value: int, num: int, radix: nat, buf: array<char>, at: nat, curr: nat) returns (next: int, more: bool)
    requires at <= curr <= at + 11 < buf.Length && Pending(value, num, true, radix, buf[at..curr], at + 11 - curr)
    modifies buf
    ensures curr < at + 11 && Pending(value, next, more, radix, buf[at..curr + 1], at + 10 - curr)
    ensures buf[..at] == old(buf[..at]) && (more ==> Abs(next) < Abs(num))
  {
    ghost var digit, rest := Turn(value, num, radix, buf[at..curr], at + 11 - curr);
    PutChar(buf, at, curr, NUM2CHAR[Rem(num, radix) + 15]);
    next := Quot(num, radix);
    more := next != 0;
  }

  method PutChar(buf: array<char>, at: nat, curr: nat, c: char)
    requires at <= curr < buf.Length
    modifies buf
    ensures buf[at..curr + 1] == old(buf[at..curr]) + [c] && buf[..at] == old(buf[..at])
  {
    buf[curr] := c;
  }

  /** What is written so far, lowest digit first, and what is still to be divided make up
      the numeral; `room` digits may still come. */
  ghost predicate Pending(value: int, num: int, more: bool, radix: nat, written: string, room: nat) {
    && KnownRadix(radix) && (more ==> room > 0 && Abs(num) < Pow8(room)) && (written == "" ==> more)
    && Digits(Abs(value), radix) == (if more then Digits(Abs(num), radix) else "") + Reversed(written)
  }

  lemma PendingDone(value: int, num: int, radix: nat, written: string, room: nat)
    requires Pending(value, num, false, radix, written, room)
    ensures Reversed(written) == Digits(Abs(value), radix) && written != ""
  {
    assert "" + Reversed(written) == Reversed(written);
  }

  lemma Turn(value: int, num: int, radix: nat, written: string, room: nat) returns (c: char, next: int)
    requires Pending(value, num, true, radix, written, room)
    ensures -16 < Rem(num, radix) < 16 && |NUM2CHAR| == 31 && c == NUM2CHAR[Rem(num, radix) + 15] && next == Quot(num, radix)
    ensures room >= 1 && Pending(value, next, next != 0, radix, written + [c], room - 1)
    ensures next != 0 ==> Abs(next) < Abs(num)
  {
    c, next := DigitChar(Abs(num) % radix), Quot(num, radix);
    var q := Abs(num) / radix;
    RemSmall(num, radix);
    Num2CharDigit(Rem(num, radix));
    DigitsSplit(Abs(num), radix);
    EighthFits(Abs(num), room, radix);
    ReversedAppend(written, c);
    var high := if q != 0 then Digits(q, radix) else "";
    assert high + [c] + Reversed(written) == high + ([c] + Reversed(written));
  }

  /** The swapping loop between two pointers. */
  method ReverseRange(buf: array<char>, lo: nat, hi: nat)
    requires lo < hi <= buf.Length
    modifies buf
    ensures buf[lo..hi] == Reversed(old(buf[lo..hi]))
    ensures buf[..lo] == old(buf[..lo]) && buf[hi..] == old(buf[hi..])
  {
    SwapEnds(buf, lo, hi);
    SwappedIs(old(buf[..]), buf[..], lo, hi);
    assert buf[..][lo..hi] == buf[lo..hi] && old(buf[..])[lo..hi] == old(buf[lo..hi]);
  }

  method SwapEnds(buf: array<char>, lo: nat, hi: nat)
    requires lo < hi <= buf.Length
    modifies buf
    ensures forall k :: lo <= k < hi ==> buf[k] == old(buf[lo + hi - 1 - k])
    ensures forall k :: 0 <= k < lo || hi <= k < buf.Length ==> buf[k] == old(buf[k])
  {
    var start: int, curr: int := lo, hi - 1;
    while start < curr
      invariant lo <= start <= curr + 1 <= hi && start + curr == lo + hi - 1
      invariant forall k :: lo <= k < start || curr < k < hi ==> buf[k] == old(buf[lo + hi - 1 - k])
      invariant forall k :: (start <= k <= curr || 0 <= k < lo || hi <= k < buf.Length) ==> buf[k] == old(buf[k])
    {
      buf[start], buf[curr] := buf[curr], buf[start];
      start := start + 1;
      curr := curr - 1;
    }
  }

  lemma SwappedIs(before: string, now: string, lo: nat, hi: nat)
    requires lo < hi <= |before| == |now| && forall k :: lo <= k < hi ==> now[k] == before[lo + hi - 1 - k]
    ensures now[lo..hi] == Reversed(before[lo..hi])
  {
    var was, after := before[lo..hi], now[lo..hi];
    forall k | 0 <= k < |after| ensures after[k] == was[|was| - 1 - k] {
      assert after[k] == now[lo + k];
    }
    ReversedIs(was, after);
  }

  lemma ReversedIs(was: string, now: string)
    requires |now| == |was| && forall k :: 0 <= k < |now| ==> now[k] == was[|was| - 1 - k]
    ensures now == Reversed(was)
  {
    forall k | 0 <= k < |now| ensures now[k] == Reversed(was)[k] {
      ReversedAt(was, k);
    }
  }

  // ---------- Negative numbers in bases 8 and 16 ----------

  /** C's `>>` on an unsigned number. */
  function ShiftDown(x: nat, n: nat): nat
    decreases n
  {
    if n == 0 then x else ShiftDown(x / 2, n - 1)
  }

  /** Masking a field and shifting it down yields the field. */
  lemma {:induction false} MaskedField(u: nat, m: nat, n: nat)
    ensures ShiftDown(And(u, m * Pow2(n)), n) == And(ShiftDown(u, n), m)
    decreases n
  {
    if n > 0 {
      var half := m * Pow2(n - 1);
      assert m * Pow2(n) == 2 * half;
      AndEven(u, half);
      MaskedField(u / 2, m, n - 1);
    }
  }

  lemma AndEven(u: nat, half: nat)
    ensures And(u, 2 * half) / 2 == And(u / 2, half)
  {
    assert 2 * half / 2 == half && 2 * half % 2 == 0;
  }

  lemma {:induction false} ShiftTwice(u: nat, a: nat, b: nat)
    ensures ShiftDown(u, a + b) == ShiftDown(ShiftDown(u, a), b)
    decreases a
  {
    if a > 0 {
      ShiftTwice(u / 2, a - 1, b);
    }
  }

  /** The bits per digit. */
  function Width(radix: nat): nat {
    if radix == 8 then 3 else 4
  }

  lemma FieldIsDigit(u: nat, n: nat, radix: nat)
    requires radix == 8 || radix == 16
    ensures ShiftDown(And(u, (radix - 1) * Pow2(n)), n) == ShiftDown(u, n) % radix
    ensures ShiftDown(u, n + Width(radix)) == ShiftDown(u, n) / radix
  {
    MaskedField(u, radix - 1, n);
    AndMask(ShiftDown(u, n), Width(radix));
    assert Pow2(3) == 8 && Pow2(4) == 16;
    ShiftTwice(u, n, Width(radix));
    HalfHalf(ShiftDown(u, n));
  }

  lemma HalfHalf(x: nat)
    ensures ShiftDown(x, 3) == x / 8 && ShiftDown(x, 4) == x / 16
  {
    assert x / 2 / 2 / 2 == x / 8 && x / 2 / 2 / 2 / 2 == x / 16;
  }

  lemma MaskDown(n: nat)
    ensures n >= 3 ==> 7 * Pow2(n) / 8 == 7 * Pow2(n - 3)
    ensures n >= 4 ==> 15 * Pow2(n) / 16 == 15 * Pow2(n - 4)
  {
    if n >= 3 {
      assert Pow2(n) == 2 * Pow2(n - 1) == 4 * Pow2(n - 2) == 8 * Pow2(n - 3);
    }
  }

  /** One more field is one more digit. */
  lemma FieldTurn(u: nat, n: nat, radix: nat, high: string)
    requires radix == 8 || radix == 16
    requires ShiftDown(u, n + Width(radix)) > 0 && high == Digits(ShiftDown(u, n + Width(radix)), radix)
    ensures var d := ShiftDown(And(u, (radix - 1) * Pow2(n)), n);
            d < radix && ShiftDown(u, n) > 0 && high + [DigitChar(d)] == Digits(ShiftDown(u, n), radix)
  {
    FieldIsDigit(u, n, radix);
    DigitsSplit(ShiftDown(u, n), radix);
  }

  /** Shifting keeps bounds. */
  lemma {:induction false} ShiftBounds(u: nat, n: nat, lo: nat, hi: nat)
    requires lo * Pow2(n) <= u < hi * Pow2(n)
    ensures lo <= ShiftDown(u, n) < hi
    decreases n
  {
    if n > 0 {
      var p := Pow2(n - 1);
      assert lo * Pow2(n) == 2 * (lo * p) && hi * Pow2(n) == 2 * (hi * p);
      ShiftBounds(u / 2, n - 1, lo, hi);
    }
  }

  /** The topmost field is the first digit; it is not zero when the top bit is set. */
  lemma TopOctal(u: nat, n: nat)
    requires 2 * Pow2(n) <= u < 4 * Pow2(n)
    ensures ShiftDown(And(u, 3 * Pow2(n)), n) == ShiftDown(u, n) && 2 <= ShiftDown(u, n) < 4
  {
    MaskedField(u, 3, n);
    ShiftBounds(u, n, 2, 4);
    AndMask(ShiftDown(u, n), 2);
  }

  lemma TopHex(u: nat, n: nat)
    requires 8 * Pow2(n) <= u < 16 * Pow2(n)
    ensures ShiftDown(And(u, 15 * Pow2(n)), n) == ShiftDown(u, n) && 8 <= ShiftDown(u, n) < 16
  {
    MaskedField(u, 15, n);
    ShiftBounds(u, n, 8, 16);
    Mask15(ShiftDown(u, n));
  }

  lemma Mask15(x: nat)
    ensures And(x, 15) == x % 16
  {
    AndMask(x, 4);
    assert Pow2(4) == 16;
  }

  method WriteField(u: nat, mask: nat, n: nat, buf: array<char>, curr: nat, ghost d: nat)
    requires d == ShiftDown(And(u, mask), n) < 16 && curr < buf.Length
    modifies buf
    ensures buf[..curr + 1] == old(buf[..curr]) + [DigitChar(d)]
    ensures buf[curr + 1..] == old(buf[curr + 1..])
  {
    Num2CharDigit(d);
    buf[curr] := NUM2CHAR[ShiftDown(And(u, mask), n) + 15];
  }

  /** The field at bit `n` continues the numeral of what lies above it. */
  method WriteNext(u: nat, n: nat, radix: nat, mask: nat, buf: array<char>, curr: nat)
    requires (radix == 8 || radix == 16) && mask == (radix - 1) * Pow2(n) && curr < buf.Length
    requires ShiftDown(u, n + Width(radix)) > 0 && buf[..curr] == Digits(ShiftDown(u, n + Width(radix)), radix)
    modifies buf
    ensures ShiftDown(u, n) > 0 && buf[..curr + 1] == Digits(ShiftDown(u, n), radix)
    ensures buf[curr + 1..] == old(buf[curr + 1..])
  {
    FieldTurn(u, n, radix, buf[..curr]);
    WriteField(u, mask, n, buf, curr, ShiftDown(And(u, mask), n));
  }

  /** The two bits at the top are the first octal digit. */
  method WriteTop(u: nat, top: nat, buf: array<char>) returns (curr: nat)
    requires 2 * Pow2(top) <= u < 4 * Pow2(top) && buf.Length > 0
    modifies buf
    ensures curr == 1 && ShiftDown(u, top) > 0 && buf[..curr] == Digits(ShiftDown(u, top), 8) && buf[curr..] == old(buf[curr..])
  {
    TopOctal(u, top);
    WriteField(u, 3 * Pow2(top), top, buf, 0, ShiftDown(u, top));
    curr := 1;
    assert buf[..1] == [DigitChar(ShiftDown(u, top))] == Digits(ShiftDown(u, top), 8);
  }

  /** The octal branch for negative numbers: two bits from bit `top`, then three at a time. */
  method WriteOctal(u: nat, top: nat, ghost fields: nat, buf: array<char>) returns (curr: nat)
    requires fields > 0 && top == 3 * fields && 2 * Pow2(top) <= u < 4 * Pow2(top) && buf.Length > fields
    modifies buf
    ensures curr == fields + 1 && buf[..curr] == Digits(u, 8) && buf[curr..] == old(buf[curr..])
  {
    curr := WriteTop(u, top, buf);
    var i: int, mask := top - 3, 7 * Pow2(top - 3);
    ghost var x := ShiftDown(u, top);
    while i >= 0
      invariant -3 <= i == top - 3 * curr && 1 <= curr <= fields + 1 && (i >= 0 ==> mask == 7 * Pow2(i))
      invariant x == ShiftDown(u, i + 3) > 0 && buf[..curr] == Digits(x, 8)
      invariant buf[curr..] == old(buf[curr..])
      decreases i
    {
      WriteNext(u, i, 8, mask, buf, curr);
      curr := curr + 1;
      x := ShiftDown(u, i);
      MaskDown(i);
      mask := mask / 8;
      i := i - 3;
    }
    ShiftNone(u, i + 3);
  }

  /** The hexadecimal branch for negative numbers: four bits at a time from bit `top`. */
  method WriteHex(u: nat, top: nat, ghost fields: nat, buf: array<char>) returns (curr: nat)
    requires top == 4 * fields && 8 * Pow2(top) <= u < 16 * Pow2(top) && buf.Length > fields
    modifies buf
    ensures curr == fields + 1 && buf[..curr] == Digits(u, 16) && buf[curr..] == old(buf[curr..])
  {
    curr := 0;
    var i: int, mask := top, 15 * Pow2(top);
    ghost var x := 0;
    while i >= 0
      invariant -4 <= i == top - 4 * curr && 0 <= curr <= fields + 1 && (i >= 0 ==> mask == 15 * Pow2(i))
      invariant curr > 0 ==> x == ShiftDown(u, i + 4) > 0 && buf[..curr] == Digits(x, 16)
      invariant buf[curr..] == old(buf[curr..])
      decreases i
    {
      HexTurn(u, i, top, curr, buf[..curr]);
      WriteField(u, mask, i, buf, curr, ShiftDown(And(u, mask), i));
      curr := curr + 1;
      x := ShiftDown(u, i);
      MaskDown(i);
      mask := mask / 16;
      i := i - 4;
    }
    ShiftNone(u, i + 4);
  }

  lemma HexTurn(u: nat, i: nat, top: nat, curr: nat, high: string)
    requires 8 * Pow2(top) <= u < 16 * Pow2(top) && (curr == 0 ==> i == top && high == "")
    requires curr > 0 ==> ShiftDown(u, i + 4) > 0 && high == Digits(ShiftDown(u, i + 4), 16)
    ensures var d := ShiftDown(And(u, 15 * Pow2(i)), i);
            d < 16 && ShiftDown(u, i) > 0 && high + [DigitChar(d)] == Digits(ShiftDown(u, i), 16)
  {
    if curr > 0 {
      FieldTurn(u, i, 16, high);
    } else {
      TopHex(u, i);
    }
  }

  lemma ShiftNone(u: nat, n: nat)
    requires n == 0
    ensures ShiftDown(u, n) == u
  {
  }

  lemma PowTop()
    ensures Pow2(28) == 0x1000_0000 && Pow2(30) == 0x4000_0000
  {
    assert Pow2(6) == 64;
    assert Pow2(12) == 4096;
    assert Pow2(18) == 0x4_0000;
    assert Pow2(24) == 0x100_0000;
  }

  /** num2str: the numeral and a terminating zero; nothing for any other base. */
  method Num2Str(num: int, buf: array<char>, radix: int) returns (ghost length: nat)
    requires IsInt(num) && buf.Length >= 13
    modifies buf
    ensures !KnownRadix(radix) ==> buf[..] == old(buf[..])
    ensures KnownRadix(radix) ==> length < buf.Length && buf[length] == '\0' && buf[..length] == Printed(num, radix)
  {
    length := 0;
    if !KnownRadix(radix) {
      return;
    }
    var curr;
    if (num < 0 && radix == 10) || num >= 0 {
      curr := PrintSigned(num, radix, buf);
    } else {
      curr := PrintFields(num, radix, buf);
    }
    buf[curr] := '\0';
    length := curr;
  }

  /** The branch that divides. */
  method PrintSigned(num: int, radix: nat, buf: array<char>) returns (curr: nat)
    requires IsInt(num) && buf.Length >= 13 && KnownRadix(radix) && (num >= 0 || radix == 10)
    modifies buf
    ensures curr < buf.Length && buf[..curr] == Printed(num, radix)
  {
    var start := 0;
    if num < 0 {
      buf[0] := '-';
      start := 1;
    }
    ghost var sign := buf[..start];
    curr := WriteDigits(num, radix, buf, start);
    ReverseRange(buf, start, curr);
    PrintedIs(num, radix);
    assert buf[..curr] == sign + buf[start..curr];
    assert sign == if num < 0 then "-" else "";
  }

  lemma PrintedIs(num: int, radix: nat)
    requires IsInt(num) && KnownRadix(radix) && (num >= 0 || radix == 10)
    ensures Printed(num, radix) == (if num < 0 then "-" else "") + Digits(Abs(num), radix)
  {
    assert num >= 0 ==> num % 0x1_0000_0000 == num;
  }

  /** The branches that mask and shift. */
  method PrintFields(num: int, radix: nat, buf: array<char>) returns (curr: nat)
    requires IsInt(num) && num < 0 && buf.Length >= 13 && (radix == 8 || radix == 16)
    modifies buf
    ensures curr < buf.Length && buf[..curr] == Printed(num, radix)
  {
    PowTop();
    var uNum := num % 0x1_0000_0000;
    if radix == 8 {
      curr := WriteOctal(uNum, 30, 10, buf);
    } else {
      curr := WriteHex(uNum, 28, 7, buf);
    }
  }

  /** The printed string is the numeral of the number: in base 10 with a sign, INT_MIN
      included, in bases 8 and 16 modulo 2^32. */
  lemma PrintedDenotes(num: int, radix: nat)
    requires IsInt(num) && KnownRadix(radix)
    ensures radix == 10 && num < 0 ==> Printed(num, radix)[0] == '-' && Denotes(Printed(num, radix)[1..], 10, -num)
    ensures radix == 10 && num >= 0 ==> Denotes(Printed(num, radix), 10, num)
    ensures radix != 10 ==> Denotes(Printed(num, radix), radix, num % 0x1_0000_0000)
  {
    if radix == 10 && num < 0 {
      DigitsDenote(-num, 10);
      assert Printed(num, radix)[1..] == Digits(-num, 10);
    } else {
      DigitsDenote(num % 0x1_0000_0000, radix);
    }
  }

  // ---------- Parsing ----------

  /** The 32-bit int that differs from `x` by a multiple of 2^32. */
  function Wrap(x: int): (w: int)
    ensures IsInt(w) && (x - w) % 0x1_0000_0000 == 0
  {
    (x + 0x8000_0000) % 0x1_0000_0000 - 0x8000_0000
  }

  lemma WrapStep(x: int, d: int)
    ensures Wrap(Wrap(x) * 10 + d) == Wrap(x * 10 + d)
  {
    var k := (x + 0x8000_0000) / 0x1_0000_0000;
    assert x == k * 0x1_0000_0000 + Wrap(x);
    assert x * 10 + d == Wrap(x) * 10 + d + k * 10 * 0x1_0000_0000;
    WrapShift(Wrap(x) * 10 + d, k * 10);
  }

  lemma WrapShift(y: int, m: int)
    ensures Wrap(y + m * 0x1_0000_0000) == Wrap(y)
  {
  }

  /** str2num_dec on a string of the given length before its terminating zero: it
      succeeds exactly on non-empty strings of decimal digits, with the value they
      denote as a 32-bit int. */
  method Str2NumDec(str: array<char>, ghost length: nat) returns (rc: int, num: int)
    requires length < str.Length && str[length] == '\0' && '\0' !in str[..length]
    ensures rc == if length > 0 && AllDigits(str[..length], 10) then 0 else -1
    ensures rc == 0 ==> num == Wrap(ValueOf(str[..length], 10))
  {
    num := 0;
    if str[0] == '\0' {
      return -1, num;
    }
    var target, i := 0, 0;
    var more := true;
    while more
      invariant 0 <= i <= length + 1 && (more <==> i <= length) && length > 0
      invariant var n := if i <= length then i else length;
                AllDigits(str[..n], 10) && target == Wrap(ValueOf(str[..n], 10))
      decreases more, length + 1 - i
    {
      var c := str[i];
      assert i < length ==> c in str[..length];
      if '0' <= c <= '9' {
        assert i < length && str[..i + 1][..i] == str[..i];
        WrapStep(ValueOf(str[..i], 10), c as int - '0' as int);
        target := Wrap(target * 10 + c as int - '0' as int);
      } else if c != '\0' {
        assert i < length && str[..length][i] == c;
        return -1, num;
      }
      more := c != '\0';
      i := i + 1;
    }
    assert str[..length] == str[..length];
    return 0, target;
  }

  lemma NoZero(num: int)
    requires IsInt(num)
    ensures '\0' !in Printed(num, 10) && Printed(num, 10) != ""
    ensures AllDigits(Printed(num, 10), 10) <==> num >= 0
    ensures num >= 0 ==> ValueOf(Printed(num, 10), 10) == num
  {
    PrintedDenotes(num, 10);
    var s := Printed(num, 10);
    forall k | 0 <= k < |s| ensures s[k] != '\0' {
      if num < 0 && k > 0 {
        assert s[k] == s[1..][k - 1];
      }
    }
  }

  /** Parsing inverts printing in base 10, for the numbers that are not negative and for
      no others: a sign is refused. */
  method PrintThenParse(num: int) returns (rc: int, back: int)
    requires IsInt(num)
    ensures rc == if num >= 0 then 0 else -1
    ensures num >= 0 ==> back == num
  {
    var buf := new char[13];
    ghost var length := Num2Str(num, buf, 10);
    NoZero(num);
    rc, back := Str2NumDec(buf, length);
  }
}
