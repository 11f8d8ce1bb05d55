/** Sequences and machine arithmetic: what several parts of the model share. */
module Basics {

  type Byte = b: nat | b < 0x100

  const TWO32: nat := 0x1_0000_0000

  /** `s` without the first occurrence of `x`. */
  function Without<T(==)>(s: seq<T>, x: T): seq<T> {
    if s == [] then [] else if s[0] == x then s[1..] else [s[0]] + Without(s[1..], x)
  }

  ghost predicate NoDup<T>(s: seq<T>) {
    forall i, j :: 0 <= i < j < |s| ==> s[i] != s[j]
  }

  lemma {:induction false} WithoutAt<T>(s: seq<T>, k: nat)
    requires NoDup(s) && k < |s|
    ensures Without(s, s[k]) == s[..k] + s[k + 1..]
  {
    if k > 0 {
      assert s[1..][k - 1] == s[k];
      WithoutAt(s[1..], k - 1);
      assert s[1..][..k - 1] == s[1..k] && s[1..][k..] == s[k + 1..];
    }
  }

  /** Removing from a duplicate-free sequence removes exactly that element. */
  lemma WithoutMembers<T>(s: seq<T>, x: T)
    requires NoDup(s) && x in s
    ensures NoDup(Without(s, x)) && x !in Without(s, x) && |Without(s, x)| == |s| - 1
    ensures forall y :: y != x ==> (y in Without(s, x) <==> y in s)
  {
    var k :| 0 <= k < |s| && s[k] == x;
    WithoutAt(s, k);
    var r := s[..k] + s[k + 1..];
    forall y | y != x && y in s ensures y in r {
      var i :| 0 <= i < |s| && s[i] == y;
      assert i < k ==> r[i] == y;
      assert i > k ==> r[i - 1] == y;
    }
  }

  /** Where `x` stands in a duplicate-free sequence, and what is left without it. */
  lemma TakenOut<T>(s: seq<T>, x: T) returns (k: nat, r: seq<T>)
    requires NoDup(s) && x in s
    ensures k < |s| && s[k] == x && r == s[..k] + s[k + 1..]
    ensures r == Without(s, x) && NoDup(r) && forall y :: y in r ==> y in s
  {
    k :| k < |s| && s[k] == x;
    r := s[..k] + s[k + 1..];
    WithoutAt(s, k);
    WithoutMembers(s, x);
  }

  predicate AllBelow(s: seq<nat>, n: nat) {
    forall i :: 0 <= i < |s| ==> s[i] < n
  }

  lemma Assoc<T>(a: seq<T>, b: seq<T>, c: seq<T>)
    ensures a + (b + c) == a + b + c
  {
  }

  lemma TailNoDup<T>(x: T, rest: seq<T>)
    requires NoDup([x] + rest)
    ensures NoDup(rest) && x !in rest
  {
    var all := [x] + rest;
    forall i | 0 <= i < |rest| ensures rest[i] != x {
      assert all[0] != all[i + 1];
    }
    forall i, j | 0 <= i < j < |rest| ensures rest[i] != rest[j] {
      assert all[i + 1] != all[j + 1];
    }
  }
}
