/** What each operation of the scheduler does to the whole state, told without the
    functions that define it, and what follows for the tasks it concerns. */
module Effects {
  import opened Basics
  import opened Sched
  import opened SchedRuns

  /** `ts` without the tasks in `gone`, in order. */
  function Others(ts: seq<nat>, gone: seq<nat>): seq<nat> {
    if ts == [] then [] else (if ts[0] in gone then [] else [ts[0]]) + Others(ts[1..], gone)
  }

  function Head(ready: seq<nat>): nat {
    if ready == [] then 0 else ready[0]
  }

  // ---------- System calls ----------

  /** With another task ready, the caller of sys_yield goes to the end of the ready list
      and the next task becomes current; alone, it goes on. */
  lemma YieldEffect(s: State)
    requires Inv(s) && Enabled(s, Yield)
    ensures s.ready != [] && s.ready[0] == s.curr
    ensures Step(s, Yield) == if |s.ready| > 1 then s.(ready := s.ready[1..] + [s.ready[0]], curr := s.ready[1]) else s
  {
    RotateMembers(s.ready);
  }

  /** Yielding shortens the wait of every other ready task by what was left of the
      caller's slice. */
  lemma YieldShortens(s: State, t: nat)
    requires Inv(s) && Enabled(s, Yield) && t in s.ready && t != s.curr
    ensures Inv(Step(s, Yield)) && t in Step(s, Yield).ready
    ensures Wait(Step(s, Yield), t) == Wait(s, t) - s.slice[s.curr]
  {
    StepKeepsInv(s, Yield);
    YieldEffect(s);
    HeadGoneWait(s, Step(s, Yield), t);
  }

  /** sys_sleep: the caller leaves the ready list for the end of the sleep list, with its
      ticks; without ticks it only leaves. */
  lemma SleepEffect(s: State, ms: nat)
    requires Inv(s) && Enabled(s, SleepFor(ms))
    ensures var (rest, n) := (s.ready[1..], (ms + 9) % 0x1_0000_0000 / 10);
            Step(s, SleepFor(ms)) ==
            if n == 0 then s.(ready := rest, curr := Head(rest))
            else s.(ready := rest, curr := Head(rest), sleep := s.sleep + [s.curr], sleepTicks := s.sleepTicks[s.curr := n])
  {
    BlockKeeps(s);
  }

  /** sem_wait: the count goes down, or the caller leaves the ready list for the end of
      the wait list. */
  lemma WaitEffect(s: State, k: nat)
    requires Inv(s) && Enabled(s, SemWait(k))
    ensures var (rest, sem) := (s.ready[1..], s.sems[k]);
            Step(s, SemWait(k)) ==
            if sem.count > 0 then s.(sems := s.sems[k := Sem(sem.count - 1, sem.waiters)])
            else s.(ready := rest, curr := Head(rest), sems := s.sems[k := Sem(sem.count, sem.waiters + [s.curr])])
  {
    BlockKeeps(s);
  }

  /** sem_notify: the first waiter goes to the end of the ready list, and runs at once
      if only the idle task did; without a waiter the count goes up. */
  lemma NotifyEffect(s: State, k: nat)
    requires Inv(s) && Enabled(s, SemNotify(k))
    ensures var sem := s.sems[k];
            Step(s, SemNotify(k)) ==
            if sem.waiters == [] then s.(sems := s.sems[k := Sem(sem.count + 1, [])])
            else s.(ready := s.ready + [sem.waiters[0]], curr := if s.ready == [] then sem.waiters[0] else s.curr,
                    sems := s.sems[k := Sem(sem.count, sem.waiters[1..])])
  {
    assert s.sems[k].waiters != [] ==> Waiting(s, k, s.sems[k].waiters[0]);
  }

  /** task_start: the task goes to the end of the ready list; the caller goes on. */
  lemma StartEffect(s: State, t: nat)
    requires Inv(s) && Enabled(s, Start(t))
    ensures Step(s, Start(t)) == s.(ready := s.ready + [t], created := s.created - {t})
  {
  }

  // ---------- The timer ----------

  lemma {:induction false} WithoutIsOthers(ts: seq<nat>, t: nat)
    requires NoDup(ts)
    ensures Without(ts, t) == Others(ts, [t])
    decreases ts
  {
    if ts != [] {
      if ts[0] == t {
        NoneGone(ts[1..], [t]);
      } else {
        WithoutIsOthers(ts[1..], t);
      }
    }
  }

  lemma {:induction false} NoneGone(ts: seq<nat>, gone: seq<nat>)
    requires forall t :: t in ts ==> t !in gone
    ensures Others(ts, gone) == ts
    decreases ts
  {
    if ts != [] {
      assert ts[0] in ts;
      NoneGone(ts[1..], gone);
    }
  }

  lemma {:induction false} OthersTwice(ts: seq<nat>, a: seq<nat>, b: seq<nat>)
    ensures Others(Others(ts, a), b) == Others(ts, a + b)
    decreases ts
  {
    if ts != [] {
      OthersTwice(ts[1..], a, b);
      if ts[0] !in a {
        assert ([ts[0]] + Others(ts[1..], a))[1..] == Others(ts[1..], a);
      } else {
        assert [] + Others(ts[1..], a) == Others(ts[1..], a);
      }
    }
  }

  /** The scan takes the tasks that are due off the sleep list and leaves the rest in
      order. */
  lemma {:induction false} ScanLeaves(s: State, todo: seq<nat>)
    requires Sleepers(s) && NoDup(todo) && (forall t :: t in todo ==> t in s.sleep) && AllBelow(todo, |s.sleepTicks|)
    ensures Wake(s, todo).sleep == Others(s.sleep, Due(s, todo))
    decreases |todo|
  {
    if todo == [] {
      NoneGone(s.sleep, []);
    } else {
      var t, rest := todo[0], todo[1..];
      assert todo == [t] + rest && t in todo;
      var s1 := WakeOne(s, t);
      WakeOneVisits(s, t);
      RestReady(s, s1, t, rest);
      ScanLeaves(s1, rest);
      if s.sleepTicks[t] == 1 {
        WithoutIsOthers(s.sleep, t);
        OthersTwice(s.sleep, [t], Due(s, rest));
      } else {
        assert [] + Due(s, rest) == Due(s, rest);
      }
    }
  }

  /** The ready list after the running task has used a tick: it goes to the end when that
      was its last one. */
  function Rotated(s: State): seq<nat>
    requires s.curr < |s.slice|
  {
    if s.slice[s.curr] == 1 && s.ready != [] then s.ready[1..] + [s.ready[0]] else s.ready
  }

  lemma SliceEffect(s: State)
    requires Inv(s)
    ensures s.curr < |s.slice|
    ensures UseSlice(s) == s.(ready := Rotated(s), slice := s.slice[s.curr := if s.slice[s.curr] == 1 then 10 else s.slice[s.curr] - 1])
  {
    if s.ready != [] {
      RotateMembers(s.ready);
      assert s.ready[0] in s.ready;
    }
  }

  /** task_time_tick: the running task loses a tick, and with its last one gets ten new
      ones and goes to the end of the ready list; every sleeper loses a tick, and those
      at their last one follow it, in order; the head of the ready list runs. */
  lemma TickEffect(s: State)
    requires Inv(s)
    ensures s.curr < |s.slice| && AllBelow(s.sleep, |s.sleepTicks|)
    ensures var (s', due) := (Step(s, Tick), Due(s, s.sleep));
            && s' == s.(ready := Rotated(s) + due, sleep := Others(s.sleep, due), curr := Head(Rotated(s) + due),
                        slice := s.slice[s.curr := if s.slice[s.curr] == 1 then 10 else s.slice[s.curr] - 1],
                        sleepTicks := s'.sleepTicks)
            && |s'.sleepTicks| == |s.sleepTicks|
            && forall t :: 0 <= t < |s.sleepTicks| ==> s'.sleepTicks[t] == s.sleepTicks[t] - if t in s.sleep then 1 else 0
    ensures forall t :: t in Due(s, s.sleep) <==> t in s.sleep && s.sleepTicks[t] == 1
  {
    SliceEffect(s);
    UseSliceKeeps(s);
    var s1 := UseSlice(s);
    WakeScans(s1, s1.sleep);
    ScanLeaves(s1, s1.sleep);
    DueLocal(s, s1, s.sleep);
    DueMembers(s, s.sleep);
  }

  // ---------- Over runs ----------

  /** The last task of a ready list becomes current in every run with enough ticks. */
  lemma LastBecomesCurrent(s: State, t: nat, evs: seq<Event>) returns (n: nat)
    requires Inv(s) && s.ready != [] && s.ready[|s.ready| - 1] == t && CanRun(s, evs) && Ticks(evs) >= 10 * (|s.ready| - 1)
    ensures n <= |evs| && CanRun(s, evs[..n]) && Exec(s, evs[..n]).curr == t && Ticks(evs[..n]) <= 10 * (|s.ready| - 1)
  {
    n := WaitsAtMostTenTicksEach(s, |s.ready| - 1, evs);
  }

  /** A notification with a waiter makes the waiter ready, and it becomes current within
      ten ticks for each task that was ready before. */
  lemma ReleasedBecomesCurrent(s: State, k: nat, evs: seq<Event>) returns (n: nat)
    requires Inv(s) && Enabled(s, SemNotify(k)) && s.sems[k].waiters != []
    requires Inv(Step(s, SemNotify(k))) && CanRun(Step(s, SemNotify(k)), evs) && Ticks(evs) >= 10 * |s.ready|
    ensures var s1, w := Step(s, SemNotify(k)), s.sems[k].waiters[0];
            && s1.ready == s.ready + [w] && n <= |evs| && CanRun(s1, evs[..n])
            && Exec(s1, evs[..n]).curr == w && Ticks(evs[..n]) <= 10 * |s.ready|
  {
    NotifyEffect(s, k);
    n := LastBecomesCurrent(Step(s, SemNotify(k)), s.sems[k].waiters[0], evs);
  }

  /** So does a task that is started. */
  lemma StartedBecomesCurrent(s: State, t: nat, evs: seq<Event>) returns (n: nat)
    requires Inv(s) && Enabled(s, Start(t))
    requires Inv(Step(s, Start(t))) && CanRun(Step(s, Start(t)), evs) && Ticks(evs) >= 10 * |s.ready|
    ensures var s1 := Step(s, Start(t));
            && s1.ready == s.ready + [t] && n <= |evs| && CanRun(s1, evs[..n])
            && Exec(s1, evs[..n]).curr == t && Ticks(evs[..n]) <= 10 * |s.ready|
  {
    StartEffect(s, t);
    n := LastBecomesCurrent(Step(s, Start(t)), t, evs);
  }

  /** What the first event of a run releases. */
  function First(s: State, e: Event, k: nat): seq<nat>
    requires k < |s.sems|
  {
    if e == SemNotify(k) && s.sems[k].waiters != [] then [s.sems[k].waiters[0]] else []
  }

  /** A prefix of a run, seen from after its first event. */
  lemma LaterPrefix(s: State, s1: State, evs: seq<Event>, rest: seq<Event>, k: nat, n: nat)
    requires Inv(s) && CanRun(s, evs) && evs != [] && rest == evs[1..] && k < |s.sems|
    requires s1 == Step(s, evs[0]) && Inv(s1) && CanRun(s1, rest) && k < |s1.sems| && n < |rest|
    requires CanRun(s1, rest[..n + 1])
    ensures CanRun(s, evs[..n + 2]) && Exec(s, evs[..n + 2]) == Exec(s1, rest[..n + 1])
    ensures Releases(s, evs[..n + 2], k) == First(s, evs[0], k) + Releases(s1, rest[..n + 1], k)
  {
    ExecPrefix(s, evs, n + 1);
    assert evs[..n + 2][1..] == rest[..n + 1];
  }

  lemma ReleasesSplit(s: State, evs: seq<Event>, k: nat) returns (s1: State)
    requires Inv(s) && CanRun(s, evs) && evs != [] && k < |s.sems|
    ensures s1 == Step(s, evs[0]) && Inv(s1) && CanRun(s1, evs[1..]) && k < |s1.sems|
    ensures Releases(s, evs, k) == First(s, evs[0], k) + Releases(s1, evs[1..], k)
  {
    StepKeepsInv(s, evs[0]);
    s1 := Step(s, evs[0]);
  }

  /** Over every run, each task released from a semaphore is ready right after the
      notification that released it. */
  lemma {:induction false} ReleasesAreReady(s: State, evs: seq<Event>, k: nat, i: nat) returns (n: nat)
    requires Inv(s) && CanRun(s, evs) && k < |s.sems| && i < |Releases(s, evs, k)|
    ensures n < |evs| && evs[n] == SemNotify(k) && CanRun(s, evs[..n + 1])
    ensures Releases(s, evs, k)[i] in Exec(s, evs[..n + 1]).ready && |Releases(s, evs[..n + 1], k)| == i + 1
    decreases |evs|
  {
    var s1 := ReleasesSplit(s, evs, k);
    var one := First(s, evs[0], k);
    if i < |one| {
      n := 0;
      NotifyEffect(s, k);
      FirstStep(s, evs, k);
    } else {
      var m := ReleasesAreReady(s1, evs[1..], k, i - |one|);
      LaterPrefix(s, s1, evs, evs[1..], k, m);
      n := m + 1;
    }
  }

  lemma FirstStep(s: State, evs: seq<Event>, k: nat)
    requires Inv(s) && CanRun(s, evs) && evs != [] && k < |s.sems|
    ensures Inv(Step(s, evs[0])) && CanRun(s, evs[..1]) && Exec(s, evs[..1]) == Step(s, evs[0])
    ensures Releases(s, evs[..1], k) == First(s, evs[0], k)
  {
    StepKeepsInv(s, evs[0]);
    assert evs[..1][1..] == [];
  }

  /** The running task neither yields, sleeps nor waits. */
  predicate Busy(evs: seq<Event>) {
    forall e :: e in evs ==> e.Tick? || e.SemNotify? || e.Start?
  }

  lemma BusyStep(s: State, e: Event)
    requires Inv(s) && Enabled(s, e) && s.curr != IDLE && (e.SemNotify? || e.Start? || (e.Tick? && s.slice[s.curr] > 1))
    ensures Inv(Step(s, e)) && Step(s, e).curr == s.curr && |Step(s, e).slice| == |s.slice|
    ensures Step(s, e).slice[s.curr] == s.slice[s.curr] - if e == Tick then 1 else 0
  {
    StepKeepsInv(s, e);
    match e
    case Tick => TickEffect(s);
    case SemNotify(k) => NotifyEffect(s, k);
    case Start(t) => StartEffect(s, t);
  }

  /** A busy task stays current until its slice is used up: with a fresh slice, for nine
      ticks, and through whatever happens before the tenth. */
  lemma {:induction false} KeepsProcessor(s: State, evs: seq<Event>)
    requires Inv(s) && s.curr != IDLE && s.curr < |s.slice| && CanRun(s, evs) && Busy(evs) && Ticks(evs) < s.slice[s.curr]
    ensures Exec(s, evs).curr == s.curr && Exec(s, evs).slice[s.curr] == s.slice[s.curr] - Ticks(evs)
    decreases |evs|
  {
    if evs != [] {
      assert evs[0] in evs && forall e :: e in evs[1..] ==> e in evs;
      BusyStep(s, evs[0]);
      KeepsProcessor(Step(s, evs[0]), evs[1..]);
    }
  }

  /** Its last tick takes the processor from it if another task is ready: the next one
      runs, and it goes behind all of them with ten ticks again. */
  lemma LosesProcessor(s: State)
    requires Inv(s) && |s.ready| > 1 && s.curr < |s.slice| && s.slice[s.curr] == 1
    ensures var s' := Step(s, Tick);
            && s'.curr == s.ready[1] && s.curr < |s'.slice| && s'.slice[s.curr] == 10
            && |s'.ready| >= |s.ready| && s'.ready[..|s.ready|] == s.ready[1..] + [s.curr]
  {
    TickEffect(s);
  }
}
