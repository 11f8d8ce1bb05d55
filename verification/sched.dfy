/** The scheduler, the sleep list and the semaphores (src/kernel/core/task.c,
    src/kernel/ipc/sem.c) as a transition system. Every operation runs with
    interrupts off, so each is one step. Tasks are numbered; number 0 is the idle
    task, which is never on a list. */
module Sched {
  import opened Basics

  const IDLE := 0
  const TIME_SLICE := 10
  const OS_TICKS_MS := 10

  datatype Sem = Sem(count: int, waiters: seq<nat>)

  datatype State = State(
    ready: seq<nat>,
    sleep: seq<nat>,
    sems: seq<Sem>,
    curr: nat,
    slice: seq<int>,
    sleepTicks: seq<int>,
    created: set<nat>)   // initialised by task_init, not yet started

  datatype Event = Tick | Yield | SleepFor(ms: nat) | SemWait(k: nat) | SemNotify(k: nat) | Start(t: nat)

  // ---------- The operations ----------

  function SetReady(s: State, t: nat): State {
    if t != IDLE then s.(ready := s.ready + [t]) else s
  }

  function SetBlock(s: State, t: nat): State {
    if t != IDLE then s.(ready := Without(s.ready, t)) else s
  }

  function NextRun(s: State): nat {
    if s.ready == [] then IDLE else s.ready[0]
  }

  function Dispatch(s: State): State {
    s.(curr := NextRun(s))
  }

  function DoYield(s: State): State {
    if |s.ready| > 1 then Dispatch(SetReady(SetBlock(s, s.curr), s.curr)) else s
  }

  /** The first half of task_time_tick: the running task uses up one tick. */
  function UseSlice(s: State): State
    requires s.curr < |s.slice|
  {
    var left := s.slice[s.curr] - 1;
    if left == 0 then SetReady(SetBlock(s.(slice := s.slice[s.curr := TIME_SLICE]), s.curr), s.curr)
    else s.(slice := s.slice[s.curr := left])
  }

  /** One node of the sleep list: one tick less, and awake at zero. */
  function WakeOne(s: State, t: nat): State
    requires t < |s.sleepTicks|
  {
    var left := s.sleepTicks[t] - 1;
    var s1 := s.(sleepTicks := s.sleepTicks[t := left]);
    if left == 0 then SetReady(s1.(sleep := Without(s1.sleep, t)), t) else s1
  }

  /** The scan over the sleep list; `todo` are the nodes still to be visited. */
  function Wake(s: State, todo: seq<nat>): State
    requires AllBelow(todo, |s.sleepTicks|)
    decreases todo
  {
    if todo == [] then s else Wake(WakeOne(s, todo[0]), todo[1..])
  }

  function DoTick(s: State): State
    requires s.curr < |s.slice| && AllBelow(s.sleep, |s.sleepTicks|)
  {
    Dispatch(Wake(UseSlice(s), s.sleep))
  }

  /** task_set_sleep; with no ticks it does nothing. */
  function SetSleep(s: State, t: nat, ticks: nat): State
    requires t < |s.sleepTicks|
  {
    if ticks == 0 then s else s.(sleepTicks := s.sleepTicks[t := ticks], sleep := s.sleep + [t])
  }

  /** Milliseconds to ticks, in 32 bits. */
  function SleepTicks(ms: nat): nat {
    (ms + (OS_TICKS_MS - 1)) % 0x1_0000_0000 / OS_TICKS_MS
  }

  function DoSleep(s: State, ms: nat): State
    requires s.curr < |s.sleepTicks|
  {
    Dispatch(SetSleep(SetBlock(s, s.curr), s.curr, SleepTicks(ms)))
  }

  function DoWait(s: State, k: nat): State
    requires k < |s.sems|
  {
    var sem := s.sems[k];
    if sem.count > 0 then s.(sems := s.sems[k := sem.(count := sem.count - 1)])
    else Dispatch(SetBlock(s, s.curr).(sems := s.sems[k := sem.(waiters := sem.waiters + [s.curr])]))
  }

  function DoNotify(s: State, k: nat): State
    requires k < |s.sems|
  {
    var sem := s.sems[k];
    if sem.waiters != [] then
      Dispatch(SetReady(s.(sems := s.sems[k := sem.(waiters := sem.waiters[1..])]), sem.waiters[0]))
    else s.(sems := s.sems[k := sem.(count := sem.count + 1)])
  }

  /** task_start, which does not dispatch. */
  function DoStart(s: State, t: nat): State {
    SetReady(s, t).(created := s.created - {t})
  }

  // ---------- The invariant ----------

  predicate Known(s: State, t: nat) {
    t != IDLE && t < |s.slice|
  }

  predicate Waiting(s: State, k: nat, t: nat) {
    k < |s.sems| && t in s.sems[k].waiters
  }

  /** No task is in two places: ready list, sleep list, the wait list of one
      semaphore, or created and not yet started. */
  ghost predicate OnePlace(s: State) {
    && (forall t :: t in s.ready ==> t !in s.sleep && t !in s.created)
    && (forall t :: t in s.sleep ==> t !in s.created)
    && (forall t, k: nat :: Waiting(s, k, t) ==> t !in s.ready && t !in s.sleep && t !in s.created)
    && (forall t, k: nat, l: nat :: Waiting(s, k, t) && Waiting(s, l, t) ==> k == l)
  }

  /** Both lists and all wait lists are duplicate-free and disjoint; sleepers have
      ticks to go; a semaphore with a positive count has no waiters; every time slice
      is between 1 and 10. */
  ghost predicate Orderly(s: State) {
    && |s.sleepTicks| == |s.slice| && 0 < |s.slice| && AllBelow(s.sleep, |s.slice|) && AllBelow(s.ready, |s.slice|)
    && NoDup(s.ready) && NoDup(s.sleep) && (forall k: nat :: k < |s.sems| ==> NoDup(s.sems[k].waiters))
    && (forall t :: t in s.ready ==> Known(s, t))
    && (forall t :: t in s.sleep ==> Known(s, t) && s.sleepTicks[t] >= 1)
    && (forall t, k: nat :: Waiting(s, k, t) ==> Known(s, t))
    && (forall t :: t in s.created ==> Known(s, t))
    && OnePlace(s)
    && (forall k: nat :: k < |s.sems| ==> s.sems[k].count >= 0 && (s.sems[k].count > 0 ==> s.sems[k].waiters == []))
    && (forall t :: 0 <= t < |s.slice| ==> 1 <= s.slice[t] <= TIME_SLICE)
  }

  /** Between steps the running task is the head of the ready list, or the idle task
      exactly when that list is empty. */
  ghost predicate Inv(s: State) {
    Orderly(s) && s.curr == NextRun(s)
  }

  /** System calls are made by the running task, which is never the idle task (it
      only halts); notifications and the tick may come from interrupts. */
  predicate Enabled(s: State, e: Event) {
    match e
    case Tick => true
    case Yield => s.curr != IDLE
    case SleepFor(ms) => s.curr != IDLE && ms < 0x1_0000_0000
    case SemWait(k) => s.curr != IDLE && k < |s.sems|
    case SemNotify(k) => k < |s.sems|
    case Start(t) => s.curr != IDLE && t in s.created
  }

  function Step(s: State, e: Event): State
    requires Inv(s) && Enabled(s, e)
  {
    match e
    case Tick => DoTick(s)
    case Yield => DoYield(s)
    case SleepFor(ms) => DoSleep(s, ms)
    case SemWait(k) => DoWait(s, k)
    case SemNotify(k) => DoNotify(s, k)
    case Start(t) => DoStart(s, t)
  }

  // ---------- Every step keeps the invariant ----------

  /** The scan, told in one piece: every sleeper in `todo` loses exactly one tick,
      those at one tick leave the sleep list and join the ready list in order. */
  function Due(s: State, todo: seq<nat>): seq<nat>
    requires AllBelow(todo, |s.sleepTicks|)
    decreases todo
  {
    if todo == [] then [] else (if s.sleepTicks[todo[0]] == 1 then [todo[0]] else []) + Due(s, todo[1..])
  }

  lemma {:induction false} DueMembers(s: State, todo: seq<nat>)
    requires AllBelow(todo, |s.sleepTicks|)
    ensures forall t :: t in Due(s, todo) <==> t in todo && s.sleepTicks[t] == 1
    ensures NoDup(todo) ==> NoDup(Due(s, todo))
    decreases todo
  {
    if todo != [] {
      DueMembers(s, todo[1..]);
    }
  }

  ghost predicate Sleepers(s: State) {
    && |s.sleepTicks| == |s.slice| && NoDup(s.sleep) && AllBelow(s.sleep, |s.slice|)
    && (forall t :: t in s.sleep ==> Known(s, t) && s.sleepTicks[t] >= 1)
  }

  /** The result of the scan over `todo`, a part of the sleep list. */
  ghost predicate Scanned(s: State, s': State, todo: seq<nat>)
    requires AllBelow(todo, |s.sleepTicks|)
  {
    && s' == s.(ready := s.ready + Due(s, todo), sleep := s'.sleep, sleepTicks := s'.sleepTicks)
    && |s'.sleepTicks| == |s.sleepTicks|
    && (forall t :: 0 <= t < |s.sleepTicks| ==> s'.sleepTicks[t] == s.sleepTicks[t] - if t in todo then 1 else 0)
    && NoDup(s'.sleep)
    && (forall t :: t in s'.sleep <==> t in s.sleep && t !in Due(s, todo))
  }

  lemma {:induction false} DueLocal(s: State, s1: State, todo: seq<nat>)
    requires AllBelow(todo, |s.sleepTicks|) && AllBelow(todo, |s1.sleepTicks|)
    requires forall i :: 0 <= i < |todo| ==> s.sleepTicks[todo[i]] == s1.sleepTicks[todo[i]]
    ensures Due(s, todo) == Due(s1, todo)
    decreases todo
  {
    if todo != [] {
      DueLocal(s, s1, todo[1..]);
    }
  }

  /** The effect of visiting one sleeper. */
  ghost predicate Visited(s: State, s1: State, t: nat)
    requires t < |s.sleepTicks|
  {
    && Sleepers(s1)
    && s1 == s.(ready := s1.ready, sleep := s1.sleep, sleepTicks := s.sleepTicks[t := s.sleepTicks[t] - 1])
    && s1.ready == s.ready + (if s.sleepTicks[t] == 1 then [t] else [])
    && (forall u :: u in s1.sleep <==> u in s.sleep && !(u == t && s.sleepTicks[t] == 1))
  }

  lemma WakeOneVisits(s: State, t: nat)
    requires Sleepers(s) && t in s.sleep
    ensures Visited(s, WakeOne(s, t), t)
  {
    WithoutMembers(s.sleep, t);
    var s1 := WakeOne(s, t);
    forall i | 0 <= i < |s1.sleep| ensures s1.sleep[i] < |s1.slice| {
      assert s1.sleep[i] in s1.sleep;
    }
  }

  lemma DueCons(s: State, t: nat, rest: seq<nat>)
    requires t < |s.sleepTicks| && AllBelow(rest, |s.sleepTicks|)
    ensures AllBelow([t] + rest, |s.sleepTicks|)
    ensures Due(s, [t] + rest) == (if s.sleepTicks[t] == 1 then [t] else []) + Due(s, rest)
  {
    assert ([t] + rest)[1..] == rest;
  }

  lemma ScanChain(s: State, s1: State, s': State, t: nat, rest: seq<nat>)
    requires Sleepers(s) && t in s.sleep && t !in rest && Visited(s, s1, t)
    requires AllBelow(rest, |s.sleepTicks|) && AllBelow([t] + rest, |s.sleepTicks|)
    requires Scanned(s1, s', rest) && Due(s, rest) == Due(s1, rest)
    ensures Scanned(s, s', [t] + rest)
  {
    DueCons(s, t, rest);
    var one := if s.sleepTicks[t] == 1 then [t] else [];
    Assoc(s.ready, one, Due(s, rest));
    forall u ensures u in s'.sleep <==> u in s.sleep && u !in one + Due(s, rest) {
    }
    forall u | 0 <= u < |s.sleepTicks|
      ensures s'.sleepTicks[u] == s.sleepTicks[u] - if u in [t] + rest then 1 else 0
    {
    }
  }

  /** Removing nodes during the scan neither skips nor repeats a sleeper. */
  lemma {:induction false} WakeScans(s: State, todo: seq<nat>)
    requires Sleepers(s) && NoDup(todo) && (forall t :: t in todo ==> t in s.sleep) && AllBelow(todo, |s.sleepTicks|)
    ensures Scanned(s, Wake(s, todo), todo)
    decreases |todo|, 0
  {
    if todo == [] {
      assert s.ready + [] == s.ready;
    } else {
      var t, rest := todo[0], todo[1..];
      assert todo == [t] + rest && t in todo;
      WakeOneVisits(s, t);
      WakeRest(s, WakeOne(s, t), t, rest);
    }
  }

  /** What is left to visit is still asleep, and due as before. */
  lemma RestReady(s: State, s1: State, t: nat, rest: seq<nat>)
    requires Sleepers(s) && t in s.sleep && Visited(s, s1, t)
    requires NoDup([t] + rest) && (forall u :: u in rest ==> u in s.sleep) && AllBelow([t] + rest, |s.sleepTicks|)
    ensures NoDup(rest) && t !in rest && (forall u :: u in rest ==> u in s1.sleep) && AllBelow(rest, |s1.sleepTicks|)
    ensures AllBelow(rest, |s.sleepTicks|) && Due(s, rest) == Due(s1, rest)
  {
    TailNoDup(t, rest);
    forall i | 0 <= i < |rest| ensures rest[i] < |s1.sleepTicks| && s.sleepTicks[rest[i]] == s1.sleepTicks[rest[i]] {
      assert ([t] + rest)[i + 1] == rest[i] && rest[i] in rest;
    }
    DueLocal(s, s1, rest);
  }

  lemma WakeRest(s: State, s1: State, t: nat, rest: seq<nat>)
    requires Sleepers(s) && t in s.sleep && Visited(s, s1, t)
    requires NoDup([t] + rest) && (forall u :: u in rest ==> u in s.sleep) && AllBelow([t] + rest, |s.sleepTicks|)
    ensures AllBelow(rest, |s1.sleepTicks|) && Scanned(s, Wake(s1, rest), [t] + rest)
    decreases |rest|, 1
  {
    RestReady(s, s1, t, rest);
    WakeScans(s1, rest);
    ScanChain(s, s1, Wake(s1, rest), t, rest);
  }

  lemma RotateMembers(r: seq<nat>)
    requires r != [] && NoDup(r)
    ensures var r' := r[1..] + [r[0]];
            NoDup(r') && |r'| == |r| && (forall t :: t in r' <==> t in r) && r[0] !in r[1..] && Without(r, r[0]) == r[1..]
  {
    var r' := r[1..] + [r[0]];
    forall t | t in r ensures t in r' {
      var i :| 0 <= i < |r| && r[i] == t;
      assert i > 0 ==> r'[i - 1] == t;
      assert i == 0 ==> r'[|r| - 1] == t;
    }
  }

  lemma BelowFromKnown(s: State, r: seq<nat>)
    requires forall t :: t in r ==> Known(s, t)
    ensures AllBelow(r, |s.slice|)
  {
    forall i | 0 <= i < |r| ensures r[i] < |s.slice| {
      assert r[i] in r;
    }
  }

  /** Any reordering of the ready list is as orderly. */
  lemma Reordered(s: State, s': State)
    requires Orderly(s) && NoDup(s'.ready) && (forall t :: t in s'.ready <==> t in s.ready)
    requires s' == s.(ready := s'.ready, slice := s'.slice, curr := s'.curr) && |s'.slice| == |s.slice|
    requires forall t :: 0 <= t < |s.slice| ==> 1 <= s'.slice[t] <= TIME_SLICE
    ensures Orderly(s')
  {
    BelowFromKnown(s', s'.ready);
    assert forall t, k: nat :: Waiting(s', k, t) <==> Waiting(s, k, t);
  }

  lemma UseSliceKeeps(s: State)
    requires Inv(s)
    ensures Orderly(UseSlice(s))
  {
    if s.curr != IDLE {
      RotateMembers(s.ready);
    }
    Reordered(s, UseSlice(s));
  }

  lemma AppendNoDup(a: seq<nat>, b: seq<nat>)
    requires NoDup(a) && NoDup(b) && forall t :: t in b ==> t !in a
    ensures NoDup(a + b) && forall t :: t in a + b <==> t in a || t in b
  {
    forall i, j | 0 <= i < j < |a + b| ensures (a + b)[i] != (a + b)[j] {
      if j >= |a| {
        assert (a + b)[j] in b;
      }
    }
  }

  lemma WakeKeeps(s: State)
    requires Orderly(s)
    ensures Orderly(Wake(s, s.sleep))
  {
    WakeScans(s, s.sleep);
    DueMembers(s, s.sleep);
    ScannedKeeps(s, Wake(s, s.sleep), Due(s, s.sleep));
  }

  lemma ScannedKeeps(s: State, s': State, due: seq<nat>)
    requires Orderly(s) && Scanned(s, s', s.sleep) && due == Due(s, s.sleep) && NoDup(due)
    requires forall t :: t in due <==> t in s.sleep && s.sleepTicks[t] == 1
    ensures Orderly(s')
  {
    AppendNoDup(s.ready, due);
    BelowFromKnown(s', s'.ready);
    BelowFromKnown(s', s'.sleep);
    assert forall t, k: nat :: Waiting(s', k, t) <==> Waiting(s, k, t);
    assert OnePlace(s');
  }

  lemma YieldKeeps(s: State)
    requires Inv(s) && s.curr != IDLE
    ensures Orderly(DoYield(s))
  {
    RotateMembers(s.ready);
    Reordered(s, DoYield(s));
  }

  /** The state after the running task has left the ready list. */
  lemma BlockKeeps(s: State)
    requires Inv(s) && s.curr != IDLE
    ensures SetBlock(s, s.curr) == s.(ready := s.ready[1..])
    ensures Orderly(SetBlock(s, s.curr)) && s.curr !in s.ready[1..] && Nowhere(SetBlock(s, s.curr), s.curr)
  {
    RotateMembers(s.ready);
    var s' := SetBlock(s, s.curr);
    assert forall t :: t in s'.ready ==> t in s.ready;
    BelowFromKnown(s', s'.ready);
    assert forall t, k: nat :: Waiting(s', k, t) <==> Waiting(s, k, t);
  }

  /** The task is on no list. */
  ghost predicate Nowhere(s: State, t: nat) {
    t !in s.ready && t !in s.sleep && t !in s.created && forall k: nat :: !Waiting(s, k, t)
  }

  lemma SleepKeeps(s: State, t: nat, ticks: nat)
    requires Orderly(s) && Known(s, t) && Nowhere(s, t)
    ensures Orderly(SetSleep(s, t, ticks))
  {
    var s' := SetSleep(s, t, ticks);
    BelowFromKnown(s', s'.sleep);
    assert forall u, k: nat :: Waiting(s', k, u) <==> Waiting(s, k, u);
  }

  lemma ReadyKeeps(s: State, t: nat)
    requires Orderly(s) && Known(s, t) && Nowhere(s, t)
    ensures Orderly(SetReady(s, t))
  {
    var s' := SetReady(s, t);
    BelowFromKnown(s', s'.ready);
    assert forall u, k: nat :: Waiting(s', k, u) <==> Waiting(s, k, u);
  }

  lemma DispatchKeeps(s: State)
    requires Orderly(s)
    ensures Inv(Dispatch(s))
  {
    Reordered(s, Dispatch(s));
  }

  lemma WaitKeeps(s: State, k: nat)
    requires Inv(s) && s.curr != IDLE && k < |s.sems|
    ensures Inv(DoWait(s, k))
  {
    var s' := DoWait(s, k);
    if s.sems[k].count > 0 {
      assert forall t, l: nat :: Waiting(s', l, t) <==> Waiting(s, l, t);
    } else {
      BlockKeeps(s);
      var s1 := SetBlock(s, s.curr);
      EnqueueKeeps(s1, s.curr, k);
      DispatchKeeps(s1.(sems := s'.sems));
    }
  }

  lemma EnqueueKeeps(s: State, t: nat, k: nat)
    requires Orderly(s) && Known(s, t) && Nowhere(s, t) && k < |s.sems| && s.sems[k].count <= 0
    ensures Orderly(s.(sems := s.sems[k := s.sems[k].(waiters := s.sems[k].waiters + [t])]))
  {
    var s' := s.(sems := s.sems[k := s.sems[k].(waiters := s.sems[k].waiters + [t])]);
    assert !Waiting(s, k, t);
    AppendNoDup(s.sems[k].waiters, [t]);
    assert forall u, l: nat :: Waiting(s', l, u) <==> Waiting(s, l, u) || (l == k && u == t);
    assert OnePlace(s');
  }

  lemma DequeueKeeps(s: State, k: nat)
    requires Orderly(s) && k < |s.sems| && s.sems[k].waiters != []
    ensures var s' := s.(sems := s.sems[k := s.sems[k].(waiters := s.sems[k].waiters[1..])]);
            Orderly(s') && Known(s', s.sems[k].waiters[0]) && Nowhere(s', s.sems[k].waiters[0])
  {
    var w := s.sems[k].waiters;
    var s' := s.(sems := s.sems[k := s.sems[k].(waiters := w[1..])]);
    RotateMembers(w);
    assert Waiting(s, k, w[0]);
    forall u, l: nat ensures Waiting(s', l, u) <==> Waiting(s, l, u) && !(l == k && u == w[0]) {
    }
  }

  lemma NotifyKeeps(s: State, k: nat)
    requires Inv(s) && k < |s.sems|
    ensures Inv(DoNotify(s, k))
  {
    var s', w := DoNotify(s, k), s.sems[k].waiters;
    if w == [] {
      assert forall t, l: nat :: Waiting(s', l, t) <==> Waiting(s, l, t);
    } else {
      DequeueKeeps(s, k);
      var s1 := s.(sems := s.sems[k := s.sems[k].(waiters := w[1..])]);
      ReadyKeeps(s1, w[0]);
      DispatchKeeps(SetReady(s1, w[0]));
    }
  }

  lemma StartKeeps(s: State, t: nat)
    requires Inv(s) && s.curr != IDLE && t in s.created
    ensures Inv(DoStart(s, t))
  {
    var s1 := s.(created := s.created - {t});
    assert forall u, k: nat :: Waiting(s1, k, u) <==> Waiting(s, k, u);
    ReadyKeeps(s1, t);
  }

  /** Every scheduler and semaphore step keeps the invariant. */
  lemma StepKeepsInv(s: State, e: Event)
    requires Inv(s) && Enabled(s, e)
    ensures Inv(Step(s, e)) && |Step(s, e).slice| == |s.slice| && |Step(s, e).sems| == |s.sems|
  {
    match e
    case Tick =>
      UseSliceKeeps(s);
      WakeKeeps(UseSlice(s));
      WakeScans(UseSlice(s), s.sleep);
      DispatchKeeps(Wake(UseSlice(s), s.sleep));
    case Yield => YieldKeeps(s);
    case SleepFor(ms) =>
      BlockKeeps(s);
      SleepKeeps(SetBlock(s, s.curr), s.curr, SleepTicks(ms));
      DispatchKeeps(SetSleep(SetBlock(s, s.curr), s.curr, SleepTicks(ms)));
    case SemWait(k) => WaitKeeps(s, k);
    case SemNotify(k) => NotifyKeeps(s, k);
    case Start(t) => StartKeeps(s, t);
  }
}
