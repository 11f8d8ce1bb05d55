/** The search loop of cluster_alloc_free, step by step: a 16-bit counter that runs over
    the table, when it stops, and what it has then done. */
module FatSearch {
  import opened FatVolume
  import opened FatChains

  /** The variables of the loop, with the table it writes to. */
  datatype Search = Search(curr: Cluster, clusters: nat, prev: Cluster, start: Cluster, t: Entries)

  predicate Running(s: Search) {
    s.clusters != 0 && s.curr < |s.t|
  }

  /** `curr++` on a 16-bit number. */
  function NextNumber(c: Cluster): Cluster {
    (c + 1) % 0x1_0000
  }

  /** The body of the loop: a free cluster is linked behind the last one found. */
  function Visit(s: Search): (s': Search)
    ensures |s'.t| == |s.t|
  {
    if s.clusters > 0 && IsFree(s.t, s.curr) then
      Search(NextNumber(s.curr), s.clusters - 1, s.curr, if ValidCluster(s.start) then s.start else s.curr,
             if ValidCluster(s.prev) && s.prev < |s.t| then s.t[s.prev := s.curr] else s.t)
    else s.(curr := NextNumber(s.curr))
  }

  function Step(s: Search): Search {
    if Running(s) then Visit(s) else s
  }

  function Steps(s: Search, k: nat): Search
    decreases k, s
  {
    if k == 0 then s else Step(Steps(s, k - 1))
  }

  function Start(t: Entries, n: nat): Search {
    Search(CLUSTER_START_NO, n, FAT_CLUSTER_INVALID, FAT_CLUSTER_INVALID, t)
  }

  /** What follows the loop: the last cluster found becomes the end of the chain. */
  function Result(s: Search): (Entries, Cluster) {
    if s.clusters == 0 && ValidCluster(s.prev) && s.prev < |s.t| then (s.t[s.prev := FAT_CLUSTER_INVALID], s.start)
    else (s.t, FAT_CLUSTER_INVALID)
  }

  // ---------- The steps ----------

  lemma {:induction false} StepsSplit(s: Search, j: nat, k: nat)
    ensures Steps(s, j + k) == Steps(Steps(s, j), k)
    decreases k
  {
    if k > 0 {
      StepsSplit(s, j, k - 1);
    }
  }

  lemma {:induction false} StepsStay(s: Search, k: nat)
    requires !Running(s)
    ensures Steps(s, k) == s
    decreases k
  {
    if k > 0 {
      StepsStay(s, k - 1);
    }
  }

  lemma StaysStopped(s: Search, j: nat, more: nat, k: nat)
    requires !Running(Steps(s, j)) && k == j + more
    ensures Steps(s, k) == Steps(s, j)
  {
    StepsSplit(s, j, more);
    StepsStay(Steps(s, j), more);
  }

  /** Where the loop stops does not depend on how it is counted. */
  lemma StopsOnce(s: Search, j: nat, k: nat)
    requires !Running(Steps(s, j)) && !Running(Steps(s, k))
    ensures Steps(s, j) == Steps(s, k)
  {
    if j <= k {
      StaysStopped(s, j, k - j, k);
    } else {
      StaysStopped(s, k, j - k, j);
    }
  }

  /** `prev` is always a cluster with an entry. */
  predicate PrevInside(s: Search) {
    ValidCluster(s.prev) ==> s.prev < |s.t|
  }

  lemma {:induction false} StepsInside(t: Entries, n: nat, k: nat)
    ensures PrevInside(Steps(Start(t, n), k)) && |Steps(Start(t, n), k).t| == |t|
    decreases k
  {
    if k > 0 {
      StepsInside(t, n, k - 1);
    }
  }

  lemma NextStep(t: Entries, n: nat, k: nat, stop: nat)
    requires k <= stop && Running(Steps(Start(t, n), k)) && !Running(Steps(Start(t, n), stop))
    ensures k < stop && Steps(Start(t, n), k + 1) == Visit(Steps(Start(t, n), k))
    ensures PrevInside(Steps(Start(t, n), k)) && |Steps(Start(t, n), k).t| == |t|
  {
    StepsInside(t, n, k);
  }

  // ---------- The first pass ----------

  /** The loop when it has looked at everything below `c` once. */
  function Mid(t: Entries, n: nat, c: nat): Search
    requires c <= |t| && |Frees(t, c)| <= n
  {
    FreesBelow(t, c);
    var chosen := Frees(t, c);
    Search(c % 0x1_0000, n - |chosen|, if chosen == [] then FAT_CLUSTER_INVALID else chosen[|chosen| - 1],
           if chosen == [] then FAT_CLUSTER_INVALID else chosen[0], Linked(t, chosen))
  }

  lemma LinkOne(t: Entries, chain: seq<Cluster>, c: Cluster, all: seq<Cluster>)
    requires Within(chain, |t|) && Within(all, |t|) && all == chain + [c]
    ensures Linked(t, all) == if chain != [] then Linked(t, chain)[chain[|chain| - 1] := c] else Linked(t, chain)
  {
    if chain != [] {
      assert all[..|all| - 1] == chain && all[|all| - 2] == chain[|chain| - 1] && all[|all| - 1] == c;
    }
  }

  lemma ChosenEnds(t: Entries, c: nat)
    requires c <= |t| && Frees(t, c) != []
    ensures var chosen := Frees(t, c);
            ValidCluster(chosen[0]) && ValidCluster(chosen[|chosen| - 1]) && chosen[|chosen| - 1] < c
  {
    FreesBelow(t, c);
    var chosen := Frees(t, c);
    assert IsFree(t, chosen[0]) && IsFree(t, chosen[|chosen| - 1]);
  }

  /** Linking what lies below `c` leaves the entry of `c` alone; if it is free it is
      linked next. */
  lemma LinkNext(t: Entries, c: Cluster)
    requires c < |t|
    ensures var (chosen, more) := (Frees(t, c), Frees(t, c + 1));
            Within(chosen, |t|) && Within(more, |t|) && IsFree(Linked(t, chosen), c) == IsFree(t, c) &&
            if IsFree(t, c) then
              more == chosen + [c] &&
              Linked(t, more) == if chosen != [] then Linked(t, chosen)[chosen[|chosen| - 1] := c] else Linked(t, chosen)
            else more == chosen
  {
    FreesBelow(t, c);
    FreesBelow(t, c + 1);
    var chosen := Frees(t, c);
    assert c !in chosen;
    LinkedElsewhere(t, chosen, c);
    if IsFree(t, c) {
      LinkOne(t, chosen, c, Frees(t, c + 1));
    }
  }

  /** The loop variables when `chosen` has been found and linked below `c`. */
  predicate Chosen(s: Search, t: Entries, n: nat, c: nat, chosen: seq<Cluster>) {
    && Within(chosen, |t|) && s.curr == c % 0x1_0000 && s.clusters + |chosen| == n && s.t == Linked(t, chosen)
    && s.prev == (if chosen == [] then FAT_CLUSTER_INVALID else chosen[|chosen| - 1])
    && s.start == (if chosen == [] then FAT_CLUSTER_INVALID else chosen[0])
    && (chosen != [] ==> ValidCluster(s.prev) && ValidCluster(s.start) && s.prev < |t|)
  }

  lemma MidIs(t: Entries, n: nat, c: nat)
    requires c <= |t| && |Frees(t, c)| <= n
    ensures Chosen(Mid(t, n, c), t, n, c, Frees(t, c))
  {
    FreesBelow(t, c);
    if Frees(t, c) != [] {
      ChosenEnds(t, c);
    }
  }

  lemma VisitFound(s: Search, s': Search, t: Entries, n: nat, c: Cluster, chosen: seq<Cluster>, more: seq<Cluster>)
    requires Chosen(s, t, n, c, chosen) && Chosen(s', t, n, c + 1, more) && s.clusters > 0
    requires IsFree(s.t, c) && more == chosen + [c]
    requires Linked(t, more) == if chosen != [] then Linked(t, chosen)[chosen[|chosen| - 1] := c] else Linked(t, chosen)
    ensures Visit(s) == s'
  {
  }

  lemma VisitPassed(s: Search, s': Search, t: Entries, n: nat, c: Cluster, chosen: seq<Cluster>)
    requires Chosen(s, t, n, c, chosen) && Chosen(s', t, n, c + 1, chosen) && !IsFree(s.t, c)
    ensures Visit(s) == s'
  {
  }

  lemma ChosenNext(s: Search, s': Search, t: Entries, n: nat, c: Cluster)
    requires c < |t| && |Frees(t, c)| < n && Chosen(s, t, n, c, Frees(t, c)) && Chosen(s', t, n, c + 1, Frees(t, c + 1))
    ensures Running(s) && Visit(s) == s'
  {
    LinkNext(t, c);
    if IsFree(t, c) {
      VisitFound(s, s', t, n, c, Frees(t, c), Frees(t, c + 1));
    } else {
      VisitPassed(s, s', t, n, c, Frees(t, c));
    }
  }

  lemma MidNext(t: Entries, n: nat, c: Cluster)
    requires c < |t| && |Frees(t, c)| < n
    ensures Running(Mid(t, n, c)) && |Frees(t, c + 1)| <= n && Visit(Mid(t, n, c)) == Mid(t, n, c + 1)
  {
    MidIs(t, n, c);
    MidIs(t, n, c + 1);
    ChosenNext(Mid(t, n, c), Mid(t, n, c + 1), t, n, c);
  }

  lemma PassOn(t: Entries, n: nat, c: Cluster, k: nat)
    requires c < |t| && |Frees(t, c)| < n && Steps(Start(t, n), k) == Mid(t, n, c)
    ensures |Frees(t, c + 1)| <= n && Steps(Start(t, n), k + 1) == Mid(t, n, c + 1)
  {
    MidNext(t, n, c);
  }

  lemma {:induction false} FirstPass(t: Entries, n: nat, c: nat, k: nat)
    requires c == CLUSTER_START_NO + k <= |t| && c <= 0x1_0000 && (k == 0 || |Frees(t, c - 1)| < n)
    ensures |Frees(t, c)| <= n && Steps(Start(t, n), k) == Mid(t, n, c)
    decreases k
  {
    if k == 0 {
      NoneFree(t, c);
    } else {
      if k > 1 {
        FreesPrefix(t, c - 2, c - 1);
      }
      FirstPass(t, n, c - 1, k - 1);
      PassOn(t, n, c - 1, k - 1);
    }
  }

  lemma {:induction false} NoMoreFrees(t: Entries, lo: nat, hi: nat)
    requires FAT_CLUSTER_INVALID <= lo <= hi
    ensures Frees(t, lo) == Frees(t, hi)
    decreases hi
  {
    if lo < hi {
      NoMoreFrees(t, lo, hi - 1);
    }
  }

  /** The first pass ends the search at `c`: enough clusters are found, or the table ends. */
  predicate EndsAt(t: Entries, n: nat, c: nat) {
    && CLUSTER_START_NO <= c <= |t| && c <= 0x1_0000 && (c == CLUSTER_START_NO || |Frees(t, c - 1)| < n)
    && |Frees(t, c)| <= n && (|Frees(t, c)| == n || c == |t| < 0x1_0000)
  }

  lemma {:induction false} FindEnd(t: Entries, n: nat, c: nat) returns (end: nat)
    requires CLUSTER_START_NO <= c <= |t| && c <= 0x1_0000 && (c == CLUSTER_START_NO || |Frees(t, c - 1)| < n)
    requires |t| < 0x1_0000 || n <= |AllFrees(t)|
    requires |Frees(t, c)| <= n
    ensures EndsAt(t, n, end)
    decreases |t| - c
  {
    if EndsAt(t, n, c) {
      return c;
    }
    if c == 0x1_0000 {
      NoMoreFrees(t, c, |t|);
    }
    end := FindEnd(t, n, c + 1);
  }

  lemma EndResult(t: Entries, n: nat, c: nat)
    requires EndsAt(t, n, c)
    ensures !Running(Mid(t, n, c)) && Result(Mid(t, n, c)) == Alloc(t, n)
  {
    FreesPrefix(t, c, |t|);
    FreesBelow(t, c);
    FreesBelow(t, |t|);
    var chosen := Frees(t, c);
    assert chosen != [] ==> IsFree(t, chosen[0]) && IsFree(t, chosen[|chosen| - 1]);
    if |chosen| == n {
      assert chosen == AllFrees(t)[..n];
    }
  }

  // ---------- Round again ----------

  /** Nothing is left to find, and the counter cannot reach the end of the table. */
  ghost predicate Endless(s: Search) {
    s.clusters > 0 && |s.t| >= 0x1_0000 && forall c: Cluster :: !IsFree(s.t, c)
  }

  lemma {:induction false} EndlessRuns(s: Search, k: nat)
    requires Endless(s)
    ensures Endless(Steps(s, k)) && Running(Steps(s, k))
    decreases k
  {
    if k > 0 {
      EndlessRuns(s, k - 1);
    }
  }

  /** The counter passes over what is not free. */
  lemma {:induction false} PassOver(s: Search, k: nat)
    requires s.curr == 0 && s.clusters > 0 && |s.t| >= 0x1_0000 && k < 0x1_0000
    requires forall c: Cluster :: c < k ==> !IsFree(s.t, c)
    ensures Steps(s, k) == s.(curr := k)
    decreases k
  {
    if k > 0 {
      PassOver(s, k - 1);
    }
  }

  /** After the first pass: everything free is linked, and only the last of it still
      looks free. */
  lemma FirstPassDone(t: Entries, n: nat, top: nat) returns (k: nat)
    requires |t| >= top == 0x1_0000 && n > |AllFrees(t)|
    ensures Frees(t, top) == AllFrees(t) && Steps(Start(t, n), k) == Mid(t, n, top)
  {
    k := top - CLUSTER_START_NO;
    NoMoreFrees(t, top, |t|);
    FreesPrefix(t, top - 1, top);
    FirstPass(t, n, top, k);
  }

  lemma OnlyLastFree(t: Entries, linked: Entries, last: Cluster)
    requires AllFrees(t) != [] && last == AllFrees(t)[|AllFrees(t)| - 1]
    requires linked == Alloc(t, |AllFrees(t)| + 1).0
    ensures last < |t| == |linked| && forall c: Cluster :: IsFree(linked, c) <==> c == last
  {
    FreesBelow(t, |t|);
    AllocFailure(t, |AllFrees(t)| + 1);
    FreesAre(linked, |linked|);
    forall c: Cluster ensures IsFree(linked, c) <==> c == last {
      assert c in AllFrees(linked) <==> IsFree(linked, c);
    }
  }

  /** The second pass finds the last free cluster once more and links it to itself. */
  lemma SecondPass(t: Entries, n: nat, top: nat, s: Search) returns (k: nat, s': Search)
    requires |t| >= top == 0x1_0000 && n > |AllFrees(t)| > 0 && Frees(t, top) == AllFrees(t) && s == Mid(t, n, top)
    ensures s' == Steps(s, k) && s'.clusters == n - |AllFrees(t)| - 1 && |s'.t| == |t|
    ensures forall c: Cluster :: !IsFree(s'.t, c)
    ensures s'.clusters == 0 ==> Result(s') == Alloc(t, |AllFrees(t)|)
  {
    MidIs(t, n, top);
    FreesBelow(t, |t|);
    OnlyLastFree(t, s.t, s.prev);
    k, s' := FindLast(s, s.prev);
    FoundTwice(t, s.t, s.prev);
  }

  lemma FindLast(s: Search, last: Cluster) returns (k: nat, s': Search)
    requires s.curr == 0 && s.clusters > 0 && |s.t| >= 0x1_0000 && s.prev == last && ValidCluster(last) && ValidCluster(s.start)
    requires forall c: Cluster :: IsFree(s.t, c) <==> c == last
    ensures s' == Steps(s, k)
    ensures s' == Search(NextNumber(last), s.clusters - 1, last, s.start, s.t[last := last])
    ensures forall c: Cluster :: !IsFree(s'.t, c)
  {
    PassOver(s, last);
    k := last + 1;
    s' := Steps(s, k);
    assert s' == Step(Steps(s, last)) == Visit(s.(curr := last));
    assert IsFree(s.t, last);
    forall c: Cluster ensures !IsFree(s'.t, c) {
      assert IsFree(s.t, c) <==> c == last;
    }
  }

  lemma FoundTwice(t: Entries, linked: Entries, last: Cluster)
    requires AllFrees(t) != [] && last == AllFrees(t)[|AllFrees(t)| - 1] && last < |t|
    requires linked == Alloc(t, |AllFrees(t)| + 1).0
    ensures (linked[last := last][last := FAT_CLUSTER_INVALID], AllFrees(t)[0]) == Alloc(t, |AllFrees(t)|)
  {
    FreesBelow(t, |t|);
    var frees := AllFrees(t);
    assert frees[..|frees|] == frees && linked == Linked(t, frees);
    assert Alloc(t, |frees|) == (linked[last := FAT_CLUSTER_INVALID], frees[0]);
    assert linked[last := last][last := FAT_CLUSTER_INVALID] == linked[last := FAT_CLUSTER_INVALID];
  }

  // ---------- When it stops, and with what ----------

  /** The counter reaches the end of the table, or enough clusters are found, where the
      last free one may count twice. */
  predicate Stops(t: Entries, n: nat) {
    |t| < 0x1_0000 || n <= |AllFrees(t)| || (n == |AllFrees(t)| + 1 && AllFrees(t) != [])
  }

  /** The outcome: with 65536 entries, one cluster too many is granted. */
  function Outcome(t: Entries, n: nat): (Entries, Cluster) {
    if |t| >= 0x1_0000 && n > |AllFrees(t)| then Alloc(t, |AllFrees(t)|) else Alloc(t, n)
  }

  lemma SearchStops(t: Entries, n: nat) returns (k: nat)
    requires CLUSTER_START_NO <= |t| && Stops(t, n)
    ensures !Running(Steps(Start(t, n), k)) && Result(Steps(Start(t, n), k)) == Outcome(t, n)
  {
    if |t| < 0x1_0000 || n <= |AllFrees(t)| {
      NoneFree(t, CLUSTER_START_NO);
      var c := FindEnd(t, n, CLUSTER_START_NO);
      k := c - CLUSTER_START_NO;
      FirstPass(t, n, c, k);
      EndResult(t, n, c);
    } else {
      k := SearchGoesRound(t, n, 0x1_0000);
    }
  }

  lemma SearchGoesRound(t: Entries, n: nat, top: nat) returns (k: nat)
    requires |t| >= top == 0x1_0000 && n == |AllFrees(t)| + 1 && AllFrees(t) != []
    ensures !Running(Steps(Start(t, n), k)) && Result(Steps(Start(t, n), k)) == Alloc(t, |AllFrees(t)|)
  {
    k := FirstPassDone(t, n, top);
    var j, s := SecondPass(t, n, top, Mid(t, n, top));
    StepsSplit(Start(t, n), k, j);
    k := k + j;
  }

  lemma RunsBefore(s: Search, j: nat, k: nat)
    requires Running(Steps(s, k + j))
    ensures Running(Steps(s, k))
  {
    StepsSplit(s, k, j);
    if !Running(Steps(s, k)) {
      StepsStay(Steps(s, k), j);
    }
  }

  lemma NothingFree(t: Entries)
    requires AllFrees(t) == []
    ensures forall c: Cluster :: !IsFree(t, c)
  {
    FreesAre(t, |t|);
    forall c: Cluster ensures !IsFree(t, c) {
      assert c in AllFrees(t) <==> c < |t| && IsFree(t, c);
    }
  }

  lemma EndlessAtOnce(t: Entries, n: nat, top: nat)
    requires AllFrees(t) == [] && n > 0 && |t| >= top && Frees(t, top) == [] && top == 0x1_0000
    ensures Endless(Mid(t, n, top))
  {
    MidIs(t, n, top);
    NothingFree(t);
  }

  /** From some step on nothing is left to find. */
  lemma BecomesEndless(t: Entries, n: nat, top: nat) returns (j: nat)
    requires !Stops(t, n) && top == 0x1_0000
    ensures Endless(Steps(Start(t, n), j))
  {
    j := FirstPassDone(t, n, top);
    if AllFrees(t) == [] {
      EndlessAtOnce(t, n, top);
    } else {
      var i, s' := SecondPass(t, n, top, Mid(t, n, top));
      StepsSplit(Start(t, n), j, i);
      j := j + i;
    }
  }

  lemma SearchRunsOn(t: Entries, n: nat, k: nat)
    requires !Stops(t, n)
    ensures Running(Steps(Start(t, n), k))
  {
    var j := BecomesEndless(t, n, 0x1_0000);
    EndlessRuns(Steps(Start(t, n), j), k);
    StepsSplit(Start(t, n), j, k);
    RunsBefore(Start(t, n), j, k);
  }

  /** cluster_alloc_free comes to an end if and only if the counter does not wrap, or there
      are enough free clusters, or it is asked for exactly one more than there are. */
  lemma SearchStopsIff(t: Entries, n: nat)
    requires CLUSTER_START_NO <= |t|
    ensures (exists k: nat :: !Running(Steps(Start(t, n), k))) <==> Stops(t, n)
    ensures forall k: nat :: !Running(Steps(Start(t, n), k)) ==> Result(Steps(Start(t, n), k)) == Outcome(t, n)
    ensures forall k: nat :: !Stops(t, n) ==> Steps(Start(t, n), k).clusters > 0
  {
    if Stops(t, n) {
      var k := SearchStops(t, n);
      forall j: nat | !Running(Steps(Start(t, n), j)) ensures Result(Steps(Start(t, n), j)) == Outcome(t, n) {
        StopsOnce(Start(t, n), j, k);
      }
    } else {
      forall k: nat ensures Running(Steps(Start(t, n), k)) {
        SearchRunsOn(t, n, k);
      }
    }
  }
}
