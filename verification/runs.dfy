/** What the scheduler guarantees over whole runs: bounded waiting, exact sleeping
    times, and the books of a semaphore. */
module SchedRuns {
  import opened Basics
  import opened Sched

  /** Every event is enabled when its turn comes. */
  ghost predicate CanRun(s: State, evs: seq<Event>)
    requires Inv(s)
    decreases |evs|
  {
    evs == [] || (Enabled(s, evs[0]) && (StepKeepsInv(s, evs[0]); CanRun(Step(s, evs[0]), evs[1..])))
  }

  ghost function Exec(s: State, evs: seq<Event>): (s': State)
    requires Inv(s) && CanRun(s, evs)
    ensures Inv(s') && |s'.slice| == |s.slice| && |s'.sems| == |s.sems|
    decreases |evs|
  {
    if evs == [] then s else
      StepKeepsInv(s, evs[0]);
      Exec(Step(s, evs[0]), evs[1..])
  }

  function Ticks(evs: seq<Event>): nat {
    if evs == [] then 0 else (if evs[0] == Tick then 1 else 0) + Ticks(evs[1..])
  }

  lemma {:induction false} PrefixCanRun(s: State, evs: seq<Event>, n: nat)
    requires Inv(s) && CanRun(s, evs) && n <= |evs|
    ensures CanRun(s, evs[..n])
    decreases n
  {
    if n > 0 {
      StepKeepsInv(s, evs[0]);
      PrefixCanRun(Step(s, evs[0]), evs[1..], n - 1);
      assert evs[..n][1..] == evs[1..][..n - 1];
    }
  }

  // ---------- Bounded waiting ----------

  /** The ticks that the tasks ahead of `t` may still use. */
  function Ahead(ready: seq<nat>, slice: seq<int>, t: nat): int
    requires AllBelow(ready, |slice|)
  {
    if ready == [] || ready[0] == t then 0 else slice[ready[0]] + Ahead(ready[1..], slice, t)
  }

  lemma {:induction false} AheadIgnoresTail(ready: seq<nat>, more: seq<nat>, slice: seq<int>, t: nat)
    requires t in ready && AllBelow(ready, |slice|) && AllBelow(ready + more, |slice|)
    ensures Ahead(ready + more, slice, t) == Ahead(ready, slice, t)
    decreases ready
  {
    if ready[0] != t {
      assert (ready + more)[1..] == ready[1..] + more;
      AheadIgnoresTail(ready[1..], more, slice, t);
    }
  }

  lemma {:induction false} AheadIgnoresSlice(ready: seq<nat>, slice: seq<int>, slice': seq<int>, t: nat, u: nat)
    requires AllBelow(ready, |slice|) && |slice'| == |slice| && u !in ready
    requires forall i :: 0 <= i < |slice| && i != u ==> slice'[i] == slice[i]
    ensures Ahead(ready, slice', t) == Ahead(ready, slice, t)
    decreases ready
  {
    if ready != [] && ready[0] != t {
      AheadIgnoresSlice(ready[1..], slice, slice', t, u);
    }
  }

  lemma {:induction false} AheadBound(ready: seq<nat>, slice: seq<int>, t: nat, k: nat)
    requires AllBelow(ready, |slice|) && k < |ready| && ready[k] == t
    requires forall i :: 0 <= i < |slice| ==> 1 <= slice[i] <= TIME_SLICE
    ensures 0 <= Ahead(ready, slice, t) <= TIME_SLICE * k
    decreases k
  {
    if k > 0 && ready[0] != t {
      AheadBound(ready[1..], slice, t, k - 1);
    }
  }

  function Wait(s: State, t: nat): int
    requires AllBelow(s.ready, |s.slice|)
  {
    Ahead(s.ready, s.slice, t)
  }

  /** A ready list that is the old one without its head, and with more at the end. */
  ghost predicate HeadGone(s: State, s': State) {
    s.ready != [] && s.ready[1..] <= s'.ready && |s'.slice| == |s.slice| &&
    forall i :: 0 <= i < |s.slice| && i != s.ready[0] ==> s'.slice[i] == s.slice[i]
  }

  lemma HeadGoneWait(s: State, s': State, t: nat)
    requires Inv(s) && AllBelow(s'.ready, |s'.slice|) && HeadGone(s, s') && t in s.ready && t != s.ready[0]
    ensures t in s'.ready && Wait(s', t) == Wait(s, t) - s.slice[s.ready[0]]
  {
    var rest := s.ready[1..];
    RotateMembers(s.ready);
    assert s'.ready == rest + s'.ready[|rest|..];
    assert t in rest;
    forall i | 0 <= i < |rest| ensures rest[i] < |s.slice| {
      assert rest[i] == s.ready[i + 1];
    }
    AheadIgnoresTail(rest, s'.ready[|rest|..], s'.slice, t);
    AheadIgnoresSlice(rest, s.slice, s'.slice, t, s.ready[0]);
  }

  lemma HeadKeptWait(s: State, s': State, t: nat, used: int)
    requires Inv(s) && AllBelow(s'.ready, |s'.slice|) && t in s.ready && t != s.ready[0]
    requires s.ready <= s'.ready && s'.slice == s.slice[s.ready[0] := s.slice[s.ready[0]] - used]
    ensures t in s'.ready && Wait(s', t) == Wait(s, t) - used
  {
    assert s'.ready == s.ready + s'.ready[|s.ready|..];
    assert AllBelow(s.ready, |s'.slice|);
    AheadIgnoresTail(s.ready, s'.ready[|s.ready|..], s'.slice, t);
    RotateMembers(s.ready);
    AheadIgnoresSlice(s.ready[1..], s.slice, s'.slice, t, s.ready[0]);
  }

  lemma TickLists(s: State)
    requires Inv(s)
    ensures var s1, s' := UseSlice(s), DoTick(s);
            Inv(s') && s1.ready <= s'.ready && s'.slice == s1.slice
  {
    StepKeepsInv(s, Tick);
    UseSliceKeeps(s);
    WakeScans(UseSlice(s), s.sleep);
  }

  lemma TickWait(s: State, t: nat)
    requires Inv(s) && t in s.ready && t != s.curr
    ensures t in DoTick(s).ready && AllBelow(DoTick(s).ready, |DoTick(s).slice|)
    ensures Wait(DoTick(s), t) == Wait(s, t) - 1
  {
    var s1, s' := UseSlice(s), DoTick(s);
    TickLists(s);
    RotateMembers(s.ready);
    if s.slice[s.curr] == 1 {
      var rest := s.ready[1..];
      assert s.ready[0] in s.ready && Without(s.ready, s.curr) == rest;
      assert s1.ready == rest + [s.curr];
      assert s'.ready[..|rest|] == s1.ready[..|rest|] == rest;
      HeadGoneWait(s, s', t);
    } else {
      HeadKeptWait(s, s', t, 1);
    }
  }

  /** A step never takes a waiting task off the ready list and never lengthens its
      wait; a tick shortens it by one. */
  lemma StepWait(s: State, e: Event, t: nat)
    requires Inv(s) && Enabled(s, e) && t in s.ready && t != s.curr
    ensures Inv(Step(s, e)) && t in Step(s, e).ready
    ensures Wait(Step(s, e), t) <= Wait(s, t) - if e == Tick then 1 else 0
  {
    StepKeepsInv(s, e);
    var s' := Step(s, e);
    RotateMembers(s.ready);
    assert |s.ready| > 1;
    match e
    case Tick => TickWait(s, t);
    case Yield => HeadGoneWait(s, s', t);
    case SleepFor(ms) => HeadGoneWait(s, s', t);
    case SemWait(k) =>
      if s.sems[k].count <= 0 {
        HeadGoneWait(s, s', t);
      }
    case SemNotify(k) => HeadKeptWait(s, s', t, 0);
    case Start(u) => HeadKeptWait(s, s', t, 0);
  }

  /** Bounded waiting: in every run with at least as many ticks as the tasks ahead may
      use, a ready task becomes current, and by then no more ticks than that have
      passed, whatever yields, blocks, wake-ups and starts happen meanwhile. */
  lemma {:induction false} BecomesCurrent(s: State, t: nat, evs: seq<Event>) returns (n: nat)
    requires Inv(s) && t in s.ready && CanRun(s, evs) && Ticks(evs) >= Wait(s, t)
    ensures n <= |evs| && CanRun(s, evs[..n]) && Exec(s, evs[..n]).curr == t
    ensures Ticks(evs[..n]) <= Wait(s, t)
    decreases |evs|
  {
    if s.curr == t {
      return 0;
    }
    HeadSlice(s, t);
    assert evs != [];
    var e := evs[0];
    StepWait(s, e, t);
    var m := BecomesCurrent(Step(s, e), t, evs[1..]);
    n := m + 1;
    ExecPrefix(s, evs, m);
  }

  lemma ExecPrefix(s: State, evs: seq<Event>, m: nat)
    requires Inv(s) && CanRun(s, evs) && m < |evs|
    ensures Inv(Step(s, evs[0])) && CanRun(Step(s, evs[0]), evs[1..]) && CanRun(Step(s, evs[0]), evs[1..][..m])
    ensures CanRun(s, evs[..m + 1]) && Exec(s, evs[..m + 1]) == Exec(Step(s, evs[0]), evs[1..][..m])
    ensures Ticks(evs[..m + 1]) == (if evs[0] == Tick then 1 else 0) + Ticks(evs[1..][..m])
  {
    StepKeepsInv(s, evs[0]);
    PrefixCanRun(Step(s, evs[0]), evs[1..], m);
    assert evs[..m + 1][1..] == evs[1..][..m];
  }

  lemma HeadSlice(s: State, t: nat)
    requires Inv(s) && t in s.ready && t != s.curr
    ensures Wait(s, t) >= 1
  {
    var k :| 0 <= k < |s.ready| && s.ready[k] == t;
    assert s.ready[1..][k - 1] == t;
    forall i | 0 <= i < |s.ready[1..]| ensures s.ready[1..][i] < |s.slice| {
      assert s.ready[1..][i] == s.ready[i + 1];
    }
    AheadBound(s.ready[1..], s.slice, t, k - 1);
  }

  /** In particular, at index `k` of the ready list, at most 10 k ticks. */
  lemma WaitsAtMostTenTicksEach(s: State, k: nat, evs: seq<Event>) returns (n: nat)
    requires Inv(s) && k < |s.ready| && CanRun(s, evs) && Ticks(evs) >= 10 * k
    ensures n <= |evs| && CanRun(s, evs[..n]) && Exec(s, evs[..n]).curr == s.ready[k]
    ensures Ticks(evs[..n]) <= 10 * k
  {
    AheadBound(s.ready, s.slice, s.ready[k], k);
    n := BecomesCurrent(s, s.ready[k], evs);
  }

  // ---------- Sleeping ----------

  lemma StepSleep(s: State, e: Event, t: nat)
    requires Inv(s) && Enabled(s, e) && t in s.sleep
    ensures var s' := Step(s, e);
            Inv(s') && t < |s.sleepTicks| == |s'.sleepTicks| &&
            if e == Tick && s.sleepTicks[t] == 1 then t in s'.ready && t !in s'.sleep
            else t in s'.sleep && s'.sleepTicks[t] == s.sleepTicks[t] - if e == Tick then 1 else 0
  {
    StepKeepsInv(s, e);
    if e == Tick {
      var s1 := UseSlice(s);
      UseSliceKeeps(s);
      WakeScans(s1, s1.sleep);
      DueMembers(s1, s1.sleep);
    } else if e.SleepFor? || e.SemWait? {
      assert s.ready[0] in s.ready;
    }
  }

  lemma {:induction false} SleepsOn(s: State, t: nat, evs: seq<Event>)
    requires Inv(s) && CanRun(s, evs) && t in s.sleep && Ticks(evs) < s.sleepTicks[t]
    ensures var s' := Exec(s, evs);
            t in s'.sleep && t < |s'.sleepTicks| && s'.sleepTicks[t] == s.sleepTicks[t] - Ticks(evs)
    decreases |evs|
  {
    if evs != [] {
      StepSleep(s, evs[0], t);
      SleepsOn(Step(s, evs[0]), t, evs[1..]);
    }
  }

  /** sys_sleep puts the caller on the sleep list exactly when `ms + 9` neither stays
      below ten nor wraps around; otherwise the caller ends up on no list at all. */
  lemma SleepIffTicks(s: State, ms: nat)
    requires Inv(s) && Enabled(s, SleepFor(ms))
    ensures var s' := Step(s, SleepFor(ms));
            && (s.curr in s'.sleep <==> 0 < ms <= 0x1_0000_0000 - 10)
            && (s.curr in s'.sleep ==> s'.sleepTicks[s.curr] == SleepTicks(ms))
            && (s.curr !in s'.sleep ==> Nowhere(s', s.curr))
  {
    BlockKeeps(s);
    var s1 := SetBlock(s, s.curr);
    assert s.curr in s.ready;
    var s' := Step(s, SleepFor(ms));
    assert forall t, k: nat :: Waiting(s', k, t) <==> Waiting(s1, k, t);
    assert SleepTicks(ms) == 0 <==> !(0 < ms <= 0x1_0000_0000 - OS_TICKS_MS);
  }

  lemma TicksRoundUp(ms: nat)
    requires 0 < ms <= 0x1_0000_0000 - 10
    ensures 10 * (SleepTicks(ms) - 1) < ms <= 10 * SleepTicks(ms)
  {
  }

  /** A caller of sys_sleep(ms) is asleep for exactly n = ceil(ms / 10) ticks, however
      the run goes on, and the n-th tick puts it on the ready list. */
  lemma SleepsExactly(s: State, ms: nat, evs: seq<Event>)
    requires Inv(s) && Enabled(s, SleepFor(ms)) && 0 < ms <= 0x1_0000_0000 - 10
    requires Inv(Step(s, SleepFor(ms))) && CanRun(Step(s, SleepFor(ms)), evs)
    ensures 10 * (SleepTicks(ms) - 1) < ms <= 10 * SleepTicks(ms)
    ensures var end := Exec(Step(s, SleepFor(ms)), evs);
            && (Ticks(evs) < SleepTicks(ms) ==> s.curr in end.sleep)
            && (Ticks(evs) == SleepTicks(ms) - 1 ==>
                  s.curr in Step(end, Tick).ready && s.curr !in Step(end, Tick).sleep)
  {
    TicksRoundUp(ms);
    SleepIffTicks(s, ms);
    var s1 := Step(s, SleepFor(ms));
    if Ticks(evs) < SleepTicks(ms) {
      SleepsOn(s1, s.curr, evs);
      StepSleep(Exec(s1, evs), Tick, s.curr);
    }
  }

  lemma TickNowhere(s: State, t: nat)
    requires Inv(s) && t != IDLE && Nowhere(s, t)
    ensures Nowhere(Step(s, Tick), t)
  {
    TickLists(s);
    var s1, s' := UseSlice(s), Step(s, Tick);
    UseSliceKeeps(s);
    WakeScans(s1, s1.sleep);
    DueMembers(s1, s1.sleep);
    if s.curr != IDLE {
      RotateMembers(s.ready);
    }
    assert forall u, k: nat :: Waiting(s', k, u) <==> Waiting(s, k, u);
  }

  lemma StepNowhere(s: State, e: Event, t: nat)
    requires Inv(s) && Enabled(s, e) && t != IDLE && Nowhere(s, t)
    ensures Inv(Step(s, e)) && Nowhere(Step(s, e), t)
  {
    StepKeepsInv(s, e);
    var s' := Step(s, e);
    match e
    case Tick => TickNowhere(s, t);
    case SemWait(k) =>
      assert s.ready[0] in s.ready;
      BlockKeeps(s);
      assert forall u, l: nat :: Waiting(s', l, u) ==> Waiting(s, l, u) || u == s.curr;
    case SemNotify(k) =>
      assert s.sems[k].waiters != [] ==> Waiting(s, k, s.sems[k].waiters[0]);
      assert forall u, l: nat :: Waiting(s', l, u) ==> Waiting(s, l, u);
    case _ =>
      RotateMembers(s.ready);
      assert forall u, k: nat :: Waiting(s', k, u) <==> Waiting(s, k, u);
  }

  /** A task on no list never runs again: sys_sleep(0) stops its caller for good. */
  lemma {:induction false} LostForever(s: State, t: nat, evs: seq<Event>)
    requires Inv(s) && CanRun(s, evs) && t != IDLE && Nowhere(s, t)
    ensures Nowhere(Exec(s, evs), t) && Exec(s, evs).curr != t
    decreases |evs|
  {
    if evs != [] {
      StepNowhere(s, evs[0], t);
      LostForever(Step(s, evs[0]), t, evs[1..]);
    } else {
      assert s.curr != IDLE ==> s.curr in s.ready;
    }
  }

  // ---------- Semaphores ----------

  function Notifies(evs: seq<Event>, k: nat): nat {
    if evs == [] then 0 else (if evs[0] == SemNotify(k) then 1 else 0) + Notifies(evs[1..], k)
  }

  function Waits(evs: seq<Event>, k: nat): nat {
    if evs == [] then 0 else (if evs[0] == SemWait(k) then 1 else 0) + Waits(evs[1..], k)
  }

  /** The callers that blocked on semaphore `k`, in order of arrival. */
  ghost function Arrivals(s: State, evs: seq<Event>, k: nat): seq<nat>
    requires Inv(s) && CanRun(s, evs) && k < |s.sems|
    decreases |evs|
  {
    if evs == [] then [] else
      StepKeepsInv(s, evs[0]);
      (if evs[0] == SemWait(k) && s.sems[k].count <= 0 then [s.curr] else []) + Arrivals(Step(s, evs[0]), evs[1..], k)
  }

  /** The waiters that notifications woke, in order of release. */
  ghost function Releases(s: State, evs: seq<Event>, k: nat): seq<nat>
    requires Inv(s) && CanRun(s, evs) && k < |s.sems|
    decreases |evs|
  {
    if evs == [] then [] else
      StepKeepsInv(s, evs[0]);
      (if evs[0] == SemNotify(k) && s.sems[k].waiters != [] then [s.sems[k].waiters[0]] else []) +
      Releases(Step(s, evs[0]), evs[1..], k)
  }

  /** Waits granted: those that found the count positive, and those released. */
  ghost function Granted(s: State, evs: seq<Event>, k: nat): int
    requires Inv(s) && CanRun(s, evs) && k < |s.sems|
  {
    Waits(evs, k) - |Arrivals(s, evs, k)| + |Releases(s, evs, k)|
  }

  /** A step on semaphore `k` touches no other semaphore. */
  lemma StepSem(s: State, e: Event, k: nat)
    requires Inv(s) && Enabled(s, e) && k < |s.sems|
    ensures Inv(Step(s, e)) && |Step(s, e).sems| == |s.sems|
    ensures var sem, sem' := s.sems[k], Step(s, e).sems[k];
            sem' == if e == SemWait(k) then
                      if sem.count > 0 then Sem(sem.count - 1, sem.waiters) else Sem(sem.count, sem.waiters + [s.curr])
                    else if e == SemNotify(k) then
                      if sem.waiters != [] then Sem(sem.count, sem.waiters[1..]) else Sem(sem.count + 1, sem.waiters)
                    else sem
  {
    StepKeepsInv(s, e);
    if e == Tick {
      UseSliceKeeps(s);
      WakeScans(UseSlice(s), s.sleep);
    }
  }

  lemma {:induction false} ReleasedInOrder(s: State, evs: seq<Event>, k: nat)
    requires Inv(s) && CanRun(s, evs) && k < |s.sems|
    ensures s.sems[k].waiters + Arrivals(s, evs, k) == Releases(s, evs, k) + Exec(s, evs).sems[k].waiters
    decreases |evs|
  {
    if evs != [] {
      var s1, w := Step(s, evs[0]), s.sems[k].waiters;
      StepSem(s, evs[0], k);
      ReleasedInOrder(s1, evs[1..], k);
      var a, r, f := Arrivals(s1, evs[1..], k), Releases(s1, evs[1..], k), Exec(s1, evs[1..]).sems[k].waiters;
      if evs[0] == SemNotify(k) && w != [] {
        assert w == [w[0]] + w[1..];
        Assoc([w[0]], w[1..], a);
        Assoc([w[0]], r, f);
        EmptyFront(a);
      } else if evs[0] == SemWait(k) && s.sems[k].count <= 0 {
        Assoc(w, [s.curr], a);
        EmptyFront(r);
      } else {
        EmptyFront(a);
        EmptyFront(r);
      }
    }
  }

  lemma EmptyFront(a: seq<nat>)
    ensures [] + a == a
  {
    assert [] + a == a;
  }

  lemma {:induction false} GrantsBalance(s: State, evs: seq<Event>, k: nat)
    requires Inv(s) && CanRun(s, evs) && k < |s.sems|
    ensures Granted(s, evs, k) + Exec(s, evs).sems[k].count == s.sems[k].count + Notifies(evs, k)
    decreases |evs|
  {
    if evs != [] {
      StepSem(s, evs[0], k);
      GrantsBalance(Step(s, evs[0]), evs[1..], k);
    }
  }

  /** Over every run, waits granted plus the count equal the initial count plus the
      notifications, the count is never negative and positive only without waiters,
      and waiters are released in the order in which they arrived. */
  lemma SemaphoreBooks(s: State, evs: seq<Event>, k: nat)
    requires Inv(s) && CanRun(s, evs) && k < |s.sems|
    ensures var sem, end := s.sems[k], Exec(s, evs).sems[k];
            && Granted(s, evs, k) + end.count == sem.count + Notifies(evs, k)
            && sem.waiters + Arrivals(s, evs, k) == Releases(s, evs, k) + end.waiters
            && end.count >= 0 && (end.count > 0 ==> end.waiters == [])
  {
    GrantsBalance(s, evs, k);
    ReleasedInOrder(s, evs, k);
  }
}
