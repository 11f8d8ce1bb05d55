/** Numerals: what a string of digits denotes, and that it is the only one to denote it. */
module Numerals {
  import opened Mmu

  /** The digit characters, twice: a negative remainder finds its digit as well. */
  const NUM2CHAR: string := "FEDCBA9876543210123456789ABCDEF"

  function DigitChar(d: nat): (c: char)
    requires d < 16
  {
    if d < 10 then '0' + d as char else 'A' + (d - 10) as char
  }

  /** The value of a digit character, or 16 for any other character. */
  function DigitValue(c: char): (d: nat)
    ensures d <= 16 && (d < 16 ==> DigitChar(d) == c)
  {
    if '0' <= c <= '9' then c as nat - '0' as nat
    else if 'A' <= c <= 'F' then c as nat - 'A' as nat + 10
    else 16
  }

  lemma DigitCharValue(d: nat)
    requires d < 16
    ensures DigitValue(DigitChar(d)) == d && DigitChar(d) == "0123456789ABCDEF"[d] && DigitChar(d) != '\0'
    ensures d < 10 ==> '0' <= DigitChar(d) <= '9' && DigitChar(d) as int == '0' as int + d
  {
  }

  lemma Num2CharDigit(r: int)
    requires -16 < r < 16
    ensures |NUM2CHAR| == 31 && NUM2CHAR[r + 15] == DigitChar(if r < 0 then -r else r)
  {
  }

  /** What a string of digits denotes in base `radix`. */
  function ValueOf(s: string, radix: nat): nat {
    if s == "" then 0 else ValueOf(s[..|s| - 1], radix) * radix + DigitValue(s[|s| - 1])
  }

  predicate AllDigits(s: string, radix: nat) {
    forall i :: 0 <= i < |s| ==> DigitValue(s[i]) < radix
  }

  /** `s` is the numeral of `v`: digits only, no leading zero, and the right value. */
  predicate Denotes(s: string, radix: nat, v: nat) {
    s != "" && AllDigits(s, radix) && (s[0] == '0' ==> |s| == 1) && ValueOf(s, radix) == v
  }

  /** The digits of `m`, most significant first. */
  function Digits(m: nat, radix: nat): (s: string)
    requires 2 <= radix <= 16
    ensures s != ""
    decreases m
  {
    if m < radix then [DigitChar(m)] else Digits(m / radix, radix) + [DigitChar(m % radix)]
  }

  lemma {:induction false} DigitsDenote(m: nat, radix: nat)
    requires 2 <= radix <= 16
    ensures Denotes(Digits(m, radix), radix, m) && (m > 0 ==> Digits(m, radix)[0] != '0')
    decreases m
  {
    if m < radix {
      DigitCharValue(m);
      assert Digits(m, radix)[..0] == "";
    } else {
      var q, r := DigitsUnfold(m, radix);
      DigitsDenote(q, radix);
      AppendDigit(Digits(q, radix), r, q, radix, m);
    }
  }

  lemma DigitsUnfold(m: nat, radix: nat) returns (q: nat, r: nat)
    requires 2 <= radix <= 16 && m >= radix
    ensures 0 < q < m && r < radix && m == q * radix + r && Digits(m, radix) == Digits(q, radix) + [DigitChar(r)]
  {
    q, r := m / radix, m % radix;
    QuotientPositive(m, radix);
  }

  lemma AppendDigit(front: string, r: nat, q: nat, radix: nat, m: nat)
    requires r < radix <= 16 && Denotes(front, radix, q) && front[0] != '0' && m == q * radix + r
    ensures Denotes(front + [DigitChar(r)], radix, m)
  {
    DigitCharValue(r);
    var s := front + [DigitChar(r)];
    assert s[..|s| - 1] == front && s[|s| - 1] == DigitChar(r);
  }

  lemma QuotientPositive(m: nat, radix: nat)
    requires 1 <= radix <= m
    ensures m / radix >= 1 && m == m / radix * radix + m % radix && m % radix < radix
  {
  }

  /** A number has only one numeral. */
  lemma {:induction false} NumeralUnique(s: string, radix: nat, v: nat)
    requires 2 <= radix <= 16 && Denotes(s, radix, v)
    ensures s == Digits(v, radix)
    decreases |s|
  {
    var front, d := s[..|s| - 1], DigitValue(s[|s| - 1]);
    if front == "" {
      assert |s| == 1 && DigitValue(s[0]) < radix && DigitChar(d) == s[0];
      assert ValueOf(front, radix) * radix == 0;
    } else {
      var w := ValueOf(front, radix);
      NumeralUnique(front, radix, w);
      LeadingDigit(front, radix, w);
      SplitIs(w, d, radix);
      assert s == front + [DigitChar(d)];
    }
  }

  lemma LeadingDigit(front: string, radix: nat, w: nat)
    requires 2 <= radix <= 16 && Denotes(front, radix, w) && front == Digits(w, radix) && front[0] != '0'
    ensures w > 0
  {
    assert Digits(0, radix) == [DigitChar(0)];
  }

  lemma SplitIs(w: nat, d: nat, radix: nat)
    requires w > 0 && d < radix
    ensures (w * radix + d) / radix == w && (w * radix + d) % radix == d && w * radix + d >= radix
  {
    ModIs(w * radix + d, radix, w, d);
    assert (w - 1) * radix >= 0;
  }
}
