/** Chains of clusters in a FAT table, and what cluster_alloc_free
    (src/kernel/fs/fatfs/fatfs.c) does to them. */
module FatChains {
  import opened FatVolume

  type Entries = seq<Cluster>

  predicate IsFree(t: Entries, c: nat) {
    CLUSTER_START_NO <= c < FAT_CLUSTER_INVALID && c < |t| && t[c] == FAT_CLUSTER_FREE
  }

  /** The free clusters below `hi`, in ascending order. */
  function Frees(t: Entries, hi: nat): seq<Cluster>
    decreases hi
  {
    if hi == 0 then [] else Frees(t, hi - 1) + (if IsFree(t, hi - 1) then [hi - 1] else [])
  }

  function AllFrees(t: Entries): seq<Cluster> {
    Frees(t, |t|)
  }

  predicate Within(chain: seq<Cluster>, n: nat) {
    forall i :: 0 <= i < |chain| ==> chain[i] < n
  }

  /** `t` with each cluster of the chain but the last pointing to the next one. */
  function Linked(t: Entries, chain: seq<Cluster>): (t': Entries)
    requires Within(chain, |t|)
    ensures |t'| == |t|
    decreases |chain|
  {
    if |chain| < 2 then t
    else Linked(t, chain[..|chain| - 1])[chain[|chain| - 2] := chain[|chain| - 1]]
  }

  predicate Ascending(s: seq<Cluster>) {
    forall i, j :: 0 <= i < j < |s| ==> s[i] < s[j]
  }

  lemma {:induction false} FreesAre(t: Entries, hi: nat)
    requires hi <= |t|
    ensures Ascending(Frees(t, hi))
    ensures forall c: Cluster :: c in Frees(t, hi) <==> c < hi && IsFree(t, c)
    decreases hi
  {
    if hi > 0 {
      FreesAre(t, hi - 1);
      var a, b := Frees(t, hi - 1), Frees(t, hi);
      forall i, j | 0 <= i < j < |b| ensures b[i] < b[j] {
        assert i < |a| ==> b[i] == a[i] && a[i] in a;
        assert j < |a| ==> b[j] == a[j];
      }
    }
  }

  lemma {:induction false} FreesPrefix(t: Entries, lo: nat, hi: nat)
    requires lo <= hi
    ensures Frees(t, lo) <= Frees(t, hi)
    decreases hi
  {
    if lo < hi {
      FreesPrefix(t, lo, hi - 1);
    }
  }

  lemma FreesBelow(t: Entries, hi: nat)
    requires hi <= |t|
    ensures forall i :: 0 <= i < |Frees(t, hi)| ==> Frees(t, hi)[i] < hi && IsFree(t, Frees(t, hi)[i])
  {
    FreesAre(t, hi);
    forall i | 0 <= i < |Frees(t, hi)| ensures Frees(t, hi)[i] < hi && IsFree(t, Frees(t, hi)[i]) {
      assert Frees(t, hi)[i] in Frees(t, hi);
    }
  }

  /** The result of cluster_alloc_free: the table, and the first cluster. A request that
      cannot be met links all free clusters before it gives up. */
  function Alloc(t: Entries, n: nat): (Entries, Cluster) {
    FreesBelow(t, |t|);
    var frees := AllFrees(t);
    if n == 0 then (t, FAT_CLUSTER_INVALID)
    else if n <= |frees| then (Linked(t, frees[..n])[frees[n - 1] := FAT_CLUSTER_INVALID], frees[0])
    else (Linked(t, frees), FAT_CLUSTER_INVALID)
  }

  lemma {:induction false} LinkedElsewhere(t: Entries, chain: seq<Cluster>, c: nat)
    requires Within(chain, |t|) && c < |t| && c !in chain
    ensures Linked(t, chain)[c] == t[c]
    decreases |chain|
  {
    if |chain| >= 2 {
      LinkedElsewhere(t, chain[..|chain| - 1], c);
    }
  }

  lemma {:induction false} LinkedTo(t: Entries, chain: seq<Cluster>, i: nat)
    requires Within(chain, |t|) && Ascending(chain) && i < |chain| - 1
    ensures Linked(t, chain)[chain[i]] == chain[i + 1]
    decreases |chain|
  {
    var k := |chain| - 1;
    if i < k - 1 {
      assert chain[i] < chain[k - 1];
      LinkedTo(t, chain[..k], i);
    }
  }

  lemma LinkedLast(t: Entries, chain: seq<Cluster>)
    requires Within(chain, |t|) && Ascending(chain) && chain != []
    ensures Linked(t, chain)[chain[|chain| - 1]] == t[chain[|chain| - 1]]
  {
    var k := |chain| - 1;
    if k > 0 {
      assert chain[k - 1] < chain[k];
      forall i | 0 <= i < k ensures chain[..k][i] != chain[k] {
      }
      LinkedElsewhere(t, chain[..k], chain[k]);
    }
  }

  lemma LinkedAt(t: Entries, chain: seq<Cluster>)
    requires Ascending(chain) && Within(chain, |t|)
    ensures forall i :: 0 <= i < |chain| - 1 ==> Linked(t, chain)[chain[i]] == chain[i + 1]
    ensures forall c :: 0 <= c < |t| && c !in chain ==> Linked(t, chain)[c] == t[c]
    ensures chain != [] ==> Linked(t, chain)[chain[|chain| - 1]] == t[chain[|chain| - 1]]
  {
    forall i | 0 <= i < |chain| - 1 ensures Linked(t, chain)[chain[i]] == chain[i + 1] {
      LinkedTo(t, chain, i);
    }
    forall c | 0 <= c < |t| && c !in chain ensures Linked(t, chain)[c] == t[c] {
      LinkedElsewhere(t, chain, c);
    }
    if chain != [] {
      LinkedLast(t, chain);
    }
  }

  /** A terminated chain of valid clusters. */
  ghost predicate IsChain(t: Entries, chain: seq<Cluster>) {
    && chain != []
    && (forall i :: 0 <= i < |chain| ==> ValidCluster(chain[i]) && chain[i] < |t|)
    && (forall i {:trigger t[chain[i]]} :: 0 <= i < |chain| - 1 ==> t[chain[i]] == chain[i + 1])
    && t[chain[|chain| - 1]] >= FAT_CLUSTER_INVALID
  }

  lemma FirstFrees(t: Entries, n: nat)
    requires n <= |AllFrees(t)|
    ensures var chain := AllFrees(t)[..n];
            && Ascending(chain) && (forall i :: 0 <= i < n ==> IsFree(t, chain[i]))
            && (forall i, e :: 0 <= i < n && IsFree(t, e) && e < chain[i] ==> e in chain)
  {
    FreesAre(t, |t|);
    FreesBelow(t, |t|);
    var frees := AllFrees(t);
    forall i, e | 0 <= i < n && IsFree(t, e) && e < frees[i] ensures e in frees[..n] {
      assert e in frees;
      var j :| 0 <= j < |frees| && frees[j] == e;
      assert frees[..n][j] == e;
    }
  }

  /** On success the result is a terminated chain of exactly the n lowest free clusters in
      ascending order, and no other entry changed. */
  lemma AllocTakesLowest(t: Entries, n: nat)
    requires 1 <= n <= |AllFrees(t)|
    ensures var chain := AllFrees(t)[..n];
            var (t', start) := Alloc(t, n);
            && start == chain[0] && |t'| == |t| && IsChain(t', chain) && Ascending(chain)
            && (forall c :: 0 <= c < |t| && c !in chain ==> t'[c] == t[c])
            && (forall i :: 0 <= i < n ==> IsFree(t, chain[i]))
            && (forall i, e :: 0 <= i < n && IsFree(t, e) && e < chain[i] ==> e in chain)
  {
    FirstFrees(t, n);
    var chain := AllFrees(t)[..n];
    LinkedAt(t, chain);
    forall i | 0 <= i < n - 1 ensures Alloc(t, n).0[chain[i]] == chain[i + 1] {
      assert chain[i] < chain[n - 1];
    }
  }

  lemma FreeAfter(t: Entries, n: nat, last: nat, c: Cluster)
    requires 1 <= n <= |AllFrees(t)| && last == AllFrees(t)[n - 1]
    ensures IsFree(Alloc(t, n).0, c) <==> IsFree(t, c) && c > last
  {
    AllocTakesLowest(t, n);
    var t', chain := Alloc(t, n).0, AllFrees(t)[..n];
    assert chain[n - 1] == last;
    if c in chain {
      var i :| 0 <= i < n && chain[i] == c;
      assert i < n - 1 ==> t'[c] == chain[i + 1] && IsFree(t, chain[i + 1]) && c < chain[n - 1];
    }
  }

  /** What is free afterwards is what was free and is not in the chain. */
  lemma AllocLeavesRest(t: Entries, n: nat)
    requires 1 <= n <= |AllFrees(t)|
    ensures AllFrees(Alloc(t, n).0) == AllFrees(t)[n..]
  {
    var t', last: nat := Alloc(t, n).0, AllFrees(t)[n - 1];
    forall c: Cluster ensures IsFree(t', c) <==> IsFree(t, c) && c > last {
      FreeAfter(t, n, last, c);
    }
    CountBelow(t, n, last);
    assert |t'| == |t| by {
      AllocTakesLowest(t, n);
    }
    RestFrees(t, t', last, |t|);
  }

  /** Freeing nothing below or at `last` drops exactly the free clusters up to it. */
  lemma {:induction false} RestFrees(t: Entries, t': Entries, last: nat, hi: nat)
    requires |t'| == |t| && last < hi <= |t|
    requires forall c: Cluster :: IsFree(t', c) <==> IsFree(t, c) && c > last
    ensures Frees(t, hi) == Frees(t, last + 1) + Frees(t', hi)
    decreases hi
  {
    if hi == last + 1 {
      NoneFree(t', hi);
    } else {
      RestFrees(t, t', last, hi - 1);
    }
  }

  lemma {:induction false} NoneFree(t: Entries, hi: nat)
    requires forall c: Cluster :: c < hi ==> !IsFree(t, c)
    ensures Frees(t, hi) == []
    decreases hi
  {
    if hi > 0 {
      NoneFree(t, hi - 1);
    }
  }

  /** Up to the n-th free cluster there are n free clusters. */
  lemma CountBelow(t: Entries, n: nat, last: nat)
    requires 1 <= n <= |AllFrees(t)| && last == AllFrees(t)[n - 1]
    ensures last < |t| && Frees(t, last + 1) == AllFrees(t)[..n]
  {
    var frees := AllFrees(t);
    FreesBelow(t, |t|);
    FreesAre(t, |t|);
    FreesAre(t, last + 1);
    FreesBelow(t, last + 1);
    FreesPrefix(t, last + 1, |t|);
    var low := Frees(t, last + 1);
    assert low == frees[..|low|] && frees[n - 1] in low;
    var j :| 0 <= j < |low| && low[j] == last;
    assert frees[j] == last;
    LastIsMax(low, j, last);
    assert j == n - 1;
  }

  lemma LastIsMax(s: seq<Cluster>, j: nat, last: nat)
    requires Ascending(s) && j < |s| && s[j] == last && forall i :: 0 <= i < |s| ==> s[i] <= last
    ensures j == |s| - 1
  {
    if j + 1 < |s| {
      StepUp(s, j);
    }
  }

  lemma StepUp(s: seq<Cluster>, j: nat)
    requires Ascending(s) && j + 1 < |s|
    ensures s[j] < s[j + 1]
  {
  }

  lemma ChainNotFree(t: Entries, chain: seq<Cluster>, i: nat)
    requires IsChain(t, chain) && i < |chain|
    ensures !IsFree(t, chain[i])
  {
    assert i < |chain| - 1 ==> t[chain[i]] == chain[i + 1] && ValidCluster(chain[i + 1]);
  }

  /** Every chain there was stays as it was, and shares no cluster with the new one. */
  lemma AllocKeepsChains(t: Entries, n: nat, kept: seq<Cluster>)
    requires 1 <= n <= |AllFrees(t)| && IsChain(t, kept)
    ensures IsChain(Alloc(t, n).0, kept)
    ensures forall i :: 0 <= i < |kept| ==> kept[i] !in AllFrees(t)[..n]
  {
    AllocTakesLowest(t, n);
    var chain := AllFrees(t)[..n];
    forall i | 0 <= i < |kept| ensures kept[i] !in chain {
      ChainNotFree(t, kept, i);
    }
  }

  /** A request that cannot be met is refused, but the free clusters are left linked to
      one another; only the last of them stays free. */
  lemma AllocFailure(t: Entries, n: nat)
    requires n > |AllFrees(t)| >= 1
    ensures Alloc(t, n).1 == FAT_CLUSTER_INVALID
    ensures AllFrees(Alloc(t, n).0) == [AllFrees(t)[|AllFrees(t)| - 1]]
  {
    var frees, t' := AllFrees(t), Alloc(t, n).0;
    FreesAre(t, |t|);
    FreesBelow(t, |t|);
    LinkedAt(t, frees);
    var last := frees[|frees| - 1];
    forall c: Cluster ensures IsFree(t', c) <==> c == last {
      if c in frees {
        var i :| 0 <= i < |frees| && frees[i] == c;
        assert i < |frees| - 1 ==> t'[c] == frees[i + 1] && IsFree(t, frees[i + 1]);
      }
    }
    OneFree(t', last, |t|);
  }

  lemma {:induction false} OneFree(t: Entries, last: Cluster, hi: nat)
    requires forall c: Cluster :: IsFree(t, c) <==> c == last
    ensures Frees(t, hi) == if last < hi then [last] else []
    decreases hi
  {
    if hi > 0 {
      OneFree(t, last, hi - 1);
      assert IsFree(t, last);
    }
  }
}
