/** The scheduler over real lists and task records (src/kernel/core/task.c,
    src/kernel/ipc/sem.c): every method refines the step of the same name in module
    Sched. */
module Scheduler {
  import opened Basics
  import opened Lists
  import opened Sched

  /** The numbers of the tasks whose nodes are on a list. */
  ghost function Ids(nodes: seq<Node>): (ids: seq<nat>)
    ensures |ids| == |nodes| && forall i :: 0 <= i < |nodes| ==> ids[i] == nodes[i].task
  {
    seq(|nodes|, i requires 0 <= i < |nodes| => nodes[i].task)
  }

  lemma IdsAppend(nodes: seq<Node>, node: Node)
    ensures Ids(nodes + [node]) == Ids(nodes) + [node.task]
  {
  }

  /** On a list where the number determines the node, removing the node removes the
      number. */
  lemma {:induction false} IdsWithout(nodes: seq<Node>, node: Node)
    requires forall i :: 0 <= i < |nodes| && nodes[i].task == node.task ==> nodes[i] == node
    ensures Ids(Without(nodes, node)) == Without(Ids(nodes), node.task)
  {
    if nodes != [] {
      assert Ids(nodes)[1..] == Ids(nodes[1..]);
      if nodes[0] != node {
        IdsWithout(nodes[1..], node);
        assert Ids([nodes[0]] + Without(nodes[1..], node)) == [nodes[0].task] + Ids(Without(nodes[1..], node));
      }
    }
  }

  lemma WithoutIn<T>(s: seq<T>, x: T)
    ensures forall y :: y in Without(s, x) ==> y in s
  {
  }

  /** List `l` of a state: the ready list, the sleep list, or a wait list. */
  function ListOf(s: State, l: nat): seq<nat>
    requires l < |s.sems| + 2
  {
    if l == 0 then s.ready else if l == 1 then s.sleep else s.sems[l - 2].waiters
  }

  function WithList(s: State, l: nat, ts: seq<nat>): State
    requires l < |s.sems| + 2
  {
    if l == 0 then s.(ready := ts) else if l == 1 then s.(sleep := ts)
    else s.(sems := s.sems[l - 2 := s.sems[l - 2].(waiters := ts)])
  }

  /** The running task may be taken off the ready list and put back. */
  lemma YieldMoves(s: State)
    requires Inv(s)
    ensures s.curr != IDLE ==> s.curr in s.ready && s.curr !in s.sleep && s.curr !in SetBlock(s, s.curr).ready
  {
    if s.curr != IDLE {
      RotateMembers(s.ready);
    }
  }

  lemma TickParts(s: State)
    requires Inv(s)
    ensures Orderly(UseSlice(s)) && Step(s, Tick) == Sched.Dispatch(Wake(UseSlice(s), UseSlice(s).sleep))
  {
    UseSliceKeeps(s);
  }

  lemma WaitParts(s: State, k: nat)
    requires Inv(s) && Enabled(s, SemWait(k))
    ensures s.curr in s.ready && var s1 := Sched.SetBlock(s, s.curr);
            (forall l: nat :: !Waiting(s1, l, s.curr)) &&
            Step(s, SemWait(k)) == if s.sems[k].count > 0 then s.(sems := s.sems[k := Sem(s.sems[k].count - 1, s.sems[k].waiters)])
                                   else Sched.Dispatch(WithList(s1, k + 2, ListOf(s1, k + 2) + [s.curr]))
  {
    YieldMoves(s);
    BlockKeeps(s);
  }

  /** Visiting the sleepers in `todo` leads from `s` to `end`. */
  ghost predicate Left(s: State, todo: seq<nat>, end: State) {
    Sleepers(s) && AllBelow(todo, |s.sleepTicks|) && Wake(s, todo) == end
  }

  lemma VisitLeft(s: State, todo: seq<nat>, end: State)
    requires Left(s, todo, end) && todo != [] && todo[0] in s.sleep
    ensures Left(WakeOne(s, todo[0]), todo[1..], end)
  {
    WakeOneVisits(s, todo[0]);
  }

  /** The state after boot is orderly. */
  lemma BootInv(s: State, first: nat)
    requires s.ready == [first] && s.sleep == [] && s.curr == first && Known(s, first) && first !in s.created
    requires |s.sleepTicks| == |s.slice| && forall t :: t in s.created ==> Known(s, t)
    requires forall t :: 0 <= t < |s.slice| ==> s.slice[t] == TIME_SLICE
    requires forall k: nat :: k < |s.sems| ==> s.sems[k].waiters == [] && s.sems[k].count >= 0
    ensures Inv(s)
  {
    assert OnePlace(s);
  }

  /** task_manager, the task table and the semaphores; the records of tasks and
      semaphores are kept field by field. */
  class TaskManager {
    const runNodes: seq<Node>         // by task number; number 0 is the idle task
    const waitNodes: seq<Node>
    const sliceTicks: array<int>
    const sleepTicks: array<int>
    const semCount: array<int>        // by semaphore
    const waitLists: seq<List>
    const readyList: List
    const sleepList: List
    var currTask: nat
    ghost var created: set<nat>
    /** The ready list, the sleep list and the wait lists. */
    ghost const lists: seq<List>
    /** Where each list stands in `lists`: no list stands there twice. */
    ghost const place: map<List, nat>
    ghost const nodes: set<Node>

    ghost function NodeOf(t: nat, l: nat): Node
      requires t < |runNodes| == |waitNodes|
    {
      if l < 2 then runNodes[t] else waitNodes[t]
    }

    /** The records and lists are what they are called, and all different. */
    ghost predicate Shape() {
      && |lists| == |waitLists| + 2 && lists[0] == readyList && lists[1] == sleepList
      && (forall k :: 0 <= k < |waitLists| ==> lists[k + 2] == waitLists[k])
      && (forall l :: 0 <= l < |lists| ==> lists[l] in place && place[lists[l]] == l)
      && 0 < |runNodes| == |waitNodes| == sliceTicks.Length == sleepTicks.Length
      && semCount.Length == |waitLists| && sliceTicks != sleepTicks && semCount != sliceTicks && semCount != sleepTicks
      && (forall t :: 0 <= t < |runNodes| ==> runNodes[t].task == t && runNodes[t].isRun && runNodes[t] in nodes)
      && (forall t :: 0 <= t < |waitNodes| ==> waitNodes[t].task == t && !waitNodes[t].isRun && waitNodes[t] in nodes)
    }

    ghost function Contents(): (c: seq<seq<Node>>)
      reads lists
      ensures |c| == |lists| && forall l :: 0 <= l < |lists| ==> c[l] == lists[l].nodes
    {
      seq(|lists|, l requires 0 <= l < |lists| reads lists => lists[l].nodes)
    }

    /** A list holds the right nodes of its tasks, and no node is on two lists. */
    ghost predicate Sorted(c: seq<seq<Node>>)
      requires |runNodes| == |waitNodes|
    {
      && (forall l: nat, n {:trigger n in c[l]} :: l < |c| && n in c[l] ==> n.task < |runNodes| && n == NodeOf(n.task, l))
      && (forall l: nat, m: nat, n {:trigger n in c[l], n in c[m]} :: l < |c| && m < |c| && n in c[l] && n in c[m] ==> l == m)
    }

    ghost predicate ListsValid()
      reads lists, nodes
    {
      && Shape() && Sorted(Contents())
      && (forall l: nat, i: nat :: l < |lists| && i < |lists[l].nodes| ==> lists[l].nodes[i] in nodes)
      && (forall l: nat :: l < |lists| ==> lists[l].Valid())
    }

    ghost predicate Valid()
      reads this, lists, nodes
    {
      ListsValid() && currTask < |runNodes|
    }

    static ghost function Abstract(c: seq<seq<Node>>, counts: seq<int>, curr: nat, slices: seq<int>, sleeps: seq<int>, made: set<nat>): State
      requires |c| == |counts| + 2
    {
      State(Ids(c[0]), Ids(c[1]), seq(|counts|, k requires 0 <= k < |counts| => Sem(counts[k], Ids(c[k + 2]))), curr, slices, sleeps, made)
    }

    /** The state of the transition system that the records stand for. */
    ghost function View(): State
      requires Shape()
      reads this, sliceTicks, sleepTicks, semCount, lists
    {
      Abstract(Contents(), semCount[..], currTask, sliceTicks[..], sleepTicks[..], created)
    }

    lemma AbstractAt(c: seq<seq<Node>>, l: nat, after: seq<Node>, counts: seq<int>, slices: seq<int>, sleeps: seq<int>)
      requires |c| == |counts| + 2 && l < |c|
      ensures Abstract(c[l := after], counts, currTask, slices, sleeps, created) ==
              WithList(Abstract(c, counts, currTask, slices, sleeps, created), l, Ids(after))
      ensures ListOf(Abstract(c, counts, currTask, slices, sleeps, created), l) == Ids(c[l])
    {
    }

    lemma AbstractAppend(c: seq<seq<Node>>, l: nat, node: Node, s: State) returns (s': State)
      requires Shape() && |c| == |lists| && l < |c|
      requires s == Abstract(c, semCount[..], currTask, sliceTicks[..], sleepTicks[..], created)
      ensures s' == Abstract(c[l := c[l] + [node]], semCount[..], currTask, sliceTicks[..], sleepTicks[..], created)
      ensures |s.sems| + 2 == |c| && s' == WithList(s, l, ListOf(s, l) + [node.task])
    {
      IdsAppend(c[l], node);
      AbstractAt(c, l, c[l] + [node], semCount[..], sliceTicks[..], sleepTicks[..]);
      s' := Abstract(c[l := c[l] + [node]], semCount[..], currTask, sliceTicks[..], sleepTicks[..], created);
    }

    lemma AbstractWithout(c: seq<seq<Node>>, l: nat, node: Node, counts: seq<int>, slices: seq<int>, sleeps: seq<int>)
      requires Shape() && Sorted(c) && |c| == |counts| + 2 && l < |c| && node in c[l]
      ensures var s := Abstract(c, counts, currTask, slices, sleeps, created);
              Abstract(c[l := Without(c[l], node)], counts, currTask, slices, sleeps, created) ==
              WithList(s, l, Without(ListOf(s, l), node.task))
    {
      assert forall i :: 0 <= i < |c[l]| ==> c[l][i] in c[l];
      IdsWithout(c[l], node);
      AbstractAt(c, l, Without(c[l], node), counts, slices, sleeps);
    }

    lemma SortedAfter(c: seq<seq<Node>>, l: nat, node: Node, after: seq<Node>)
      requires Shape() && Sorted(c) && l < |c| && node.task < |runNodes| && node == NodeOf(node.task, l)
      requires forall n :: n in after ==> n == node || n in c[l]
      requires forall m: nat :: m < |c| && m != l ==> node !in c[m]
      ensures Sorted(c[l := after])
    {
    }

    lemma SortedWithout(c: seq<seq<Node>>, l: nat, node: Node)
      requires Shape() && Sorted(c) && l < |c| && node in c[l] && NoDup(c[l])
      requires forall i :: 0 <= i < |c[l]| ==> c[l][i] in nodes
      ensures Sorted(c[l := Without(c[l], node)]) && node !in Without(c[l], node)
      ensures forall i :: 0 <= i < |Without(c[l], node)| ==> Without(c[l], node)[i] in nodes
    {
      var after := Without(c[l], node);
      WithoutIn(c[l], node);
      WithoutMembers(c[l], node);
      assert forall m: nat :: m < |c| && m != l ==> node !in c[m];
      SortedAfter(c, l, node, after);
      forall i | 0 <= i < |after| ensures after[i] in nodes {
        assert after[i] in after;
      }
    }

    /** list_insert_last leaves the other lists as they are. */
    method Append(list: List, node: Node, ghost l: nat)
      requires ListsValid() && l < |lists| && list == lists[l]
      requires forall m: nat :: m < |lists| ==> node !in lists[m].nodes
      modifies list, node, list.nodes
      ensures list.Valid() && list.nodes == old(list.nodes) + [node]
      ensures forall m: nat :: m < |lists| && m != l ==> lists[m].Valid() && lists[m].nodes == old(lists[m].nodes)
    {
      ghost var c := Contents();
      assert forall m: nat :: m < |lists| && m != l ==> lists[m] != list && forall n :: n in lists[m].nodes ==> n !in c[l];
      list.InsertLast(node);
      forall m: nat | m < |lists| && m != l ensures lists[m].Valid() && lists[m].nodes == c[m] {
        assert lists[m] != list && lists[m].nodes == c[m];
        assert forall i :: 0 <= i < |c[m]| ==> c[m][i] in c[m] && c[m][i] != node && c[m][i] !in c[l];
      }
    }

    method Put(list: List, node: Node, ghost l: nat)
      requires Valid() && l < |lists| && list == lists[l] && node.task < |runNodes| && node == NodeOf(node.task, l)
      requires forall m: nat :: m < |lists| ==> node !in lists[m].nodes
      modifies list, node, list.nodes
      ensures Valid() && Contents() == old(Contents())[l := old(list.nodes) + [node]]
    {
      ghost var c := Contents();
      Append(list, node, l);
      assert Contents() == c[l := c[l] + [node]];
      SortedAfter(c, l, node, c[l] + [node]);
    }

    method Insert(list: List, node: Node, ghost l: nat)
      requires Valid() && l < |lists| && list == lists[l] && node.task < |runNodes| && node == NodeOf(node.task, l)
      requires forall m: nat :: m < |lists| ==> node !in lists[m].nodes
      modifies list, node, list.nodes
      ensures Valid() && Contents() == old(Contents())[l := old(list.nodes) + [node]]
      ensures View() == WithList(old(View()), l, ListOf(old(View()), l) + [node.task])
    {
      ghost var c, s := Contents(), View();
      ghost var s' := AbstractAppend(c, l, node, s);
      Put(list, node, l);
      assert View() == s';
    }

    /** list_remove leaves the other lists as they are. */
    method Unhook(list: List, node: Node, ghost l: nat)
      requires ListsValid() && l < |lists| && list == lists[l] && node in list.nodes
      modifies list, list.nodes
      ensures list.Valid() && list.nodes == Without(old(list.nodes), node)
      ensures forall m: nat :: m < |lists| && m != l ==> lists[m].Valid() && lists[m].nodes == old(lists[m].nodes)
    {
      ghost var c := Contents();
      assert forall m: nat :: m < |lists| && m != l ==> lists[m] != list && forall n :: n in lists[m].nodes ==> n !in c[l];
      list.Remove(node);
      forall m: nat | m < |lists| && m != l ensures lists[m].Valid() && lists[m].nodes == c[m] {
        assert lists[m] != list && lists[m].nodes == c[m];
        assert forall i :: 0 <= i < |c[m]| ==> c[m][i] in c[m] && c[m][i] != node && c[m][i] !in c[l];
      }
    }

    method Take(list: List, node: Node, ghost l: nat)
      requires Valid() && l < |lists| && list == lists[l] && node in list.nodes
      modifies list, list.nodes
      ensures Valid() && Contents() == old(Contents())[l := Without(old(list.nodes), node)] && node !in list.nodes
    {
      ghost var c := Contents();
      assert lists[l].Valid();
      SortedWithout(c, l, node);
      Unhook(list, node, l);
      assert Contents() == c[l := Without(c[l], node)];
    }

    method Remove(list: List, node: Node, ghost l: nat)
      requires Valid() && l < |lists| && list == lists[l] && node in list.nodes
      modifies list, list.nodes
      ensures Valid() && Contents() == old(Contents())[l := Without(old(list.nodes), node)] && node !in list.nodes
      ensures View() == WithList(old(View()), l, Without(ListOf(old(View()), l), node.task))
    {
      ghost var c, counts, slices, sleeps := Contents(), semCount[..], sliceTicks[..], sleepTicks[..];
      ghost var s := View();
      AbstractWithout(c, l, node, counts, slices, sleeps);
      Take(list, node, l);
      assert View() == Abstract(c[l := Without(c[l], node)], counts, currTask, slices, sleeps, created);
    }

    /** task_manager_init over the static tables: all lists are empty, every task has
        its full time slice, no task runs yet, and the idle task is on no list. */
    constructor (runNodes: seq<Node>, waitNodes: seq<Node>, sliceTicks: array<int>, sleepTicks: array<int>,
        semCount: array<int>, lists: seq<List>, ghost place: map<List, nat>, ghost others: set<nat>)
      requires 0 < |runNodes| == |waitNodes| == sliceTicks.Length == sleepTicks.Length && |lists| == semCount.Length + 2
      requires sliceTicks != sleepTicks && semCount != sliceTicks && semCount != sleepTicks
      requires forall t :: 0 <= t < |runNodes| ==> runNodes[t].task == t && runNodes[t].isRun
      requires forall t :: 0 <= t < |waitNodes| ==> waitNodes[t].task == t && !waitNodes[t].isRun
      requires forall l :: 0 <= l < |lists| ==> lists[l].Valid() && lists[l].nodes == []
      requires forall l :: 0 <= l < |lists| ==> lists[l] in place && place[lists[l]] == l
      ensures Valid() && View().ready == [] && View().sleep == [] && View().curr == IDLE && created == others
      ensures |View().sems| == semCount.Length && forall k :: 0 <= k < semCount.Length ==> View().sems[k] == Sem(semCount[k], [])
      ensures View().slice == sliceTicks[..] && View().sleepTicks == sleepTicks[..]
      ensures this.lists == lists && this.runNodes == runNodes && forall n :: n in nodes ==> n in runNodes || n in waitNodes
    {
      this.runNodes, this.waitNodes, this.sliceTicks, this.sleepTicks := runNodes, waitNodes, sliceTicks, sleepTicks;
      this.semCount, this.lists, this.place := semCount, lists, place;
      readyList, sleepList, waitLists := lists[0], lists[1], lists[2..];
      nodes := (set n | n in runNodes) + (set n | n in waitNodes);
      currTask := IDLE;
      created := others;
    }

    /** A task is on a list exactly when its node is. */
    lemma NodeOn(t: nat, l: nat)
      requires Valid() && t < |runNodes| && l < |lists|
      ensures t in ListOf(View(), l) <==> NodeOf(t, l) in lists[l].nodes
    {
      var c := Contents();
      AbstractAt(c, l, c[l], semCount[..], sliceTicks[..], sleepTicks[..]);
      forall i | 0 <= i < |c[l]| ensures c[l][i].task == t <==> c[l][i] == NodeOf(t, l) {
        assert c[l][i] in c[l];
      }
      assert NodeOf(t, l) in c[l] ==> exists i :: 0 <= i < |c[l]| && c[l][i] == NodeOf(t, l) && Ids(c[l])[i] == t;
    }

    /** A run_node is only ever on the ready or the sleep list. */
    lemma RunNodeFree(t: nat)
      requires Valid() && t < |runNodes| && t !in View().ready && t !in View().sleep
      ensures forall m: nat :: m < |lists| ==> runNodes[t] !in lists[m].nodes
    {
      NodeOn(t, 0);
      NodeOn(t, 1);
      assert forall m: nat :: m < |lists| ==> Contents()[m] == lists[m].nodes;
    }

    method SetReady(t: nat)
      requires Valid() && t < |runNodes|
      requires t != IDLE ==> t !in View().ready && t !in View().sleep
      modifies lists, nodes
      ensures Valid() && View() == Sched.SetReady(old(View()), t) && sleepList.nodes == old(sleepList.nodes)
    {
      if t != IDLE {
        RunNodeFree(t);
        assert runNodes[t] in nodes;
        assert Contents()[1] == sleepList.nodes;
        Insert(readyList, runNodes[t], 0);
        assert Contents()[1] == sleepList.nodes;
      }
    }

    method SetBlock(t: nat)
      requires Valid() && t < |runNodes|
      requires t != IDLE ==> t in View().ready
      modifies lists, nodes
      ensures Valid() && View() == Sched.SetBlock(old(View()), t)
    {
      if t != IDLE {
        NodeOn(t, 0);
        Remove(readyList, runNodes[t], 0);
      }
    }

    method NextRun() returns (t: nat)
      requires Valid()
      ensures t == Sched.NextRun(View()) && t < |runNodes|
    {
      assert Contents()[0] == readyList.nodes && lists[0].Valid();
      if readyList.count == 0 {
        return IDLE;
      }
      assert readyList.nodes[0] in Contents()[0];
      t := readyList.first.task;
    }

    method Dispatch()
      requires Valid()
      modifies this`currTask
      ensures Valid() && View() == Sched.Dispatch(old(View()))
    {
      ghost var c, counts, slices, sleeps := Contents(), semCount[..], sliceTicks[..], sleepTicks[..];
      var next := NextRun();
      if next != currTask {
        currTask := next;
      }
    }

    /** task_first_init: the first task becomes the running one and is started. */
    method StartFirst(first: nat)
      requires Valid() && Known(View(), first) && View().ready == [] && View().sleep == []
      modifies this`currTask, lists, nodes
      ensures Valid() && View() == old(View()).(curr := first, ready := [first])
    {
      ghost var c, counts, slices, sleeps := Contents(), semCount[..], sliceTicks[..], sleepTicks[..];
      currTask := first;
      SetReady(first);
    }

    method SysYield()
      requires Valid() && Inv(View()) && Enabled(View(), Yield)
      modifies this`currTask, lists, nodes
      ensures Valid() && View() == Step(old(View()), Yield)
    {
      assert lists[0].Valid();
      YieldMoves(View());
      if readyList.count > 1 {
        SetBlock(currTask);
        SetReady(currTask);
        Dispatch();
      }
    }

    method TaskStart(t: nat)
      requires Valid() && Inv(View()) && Enabled(View(), Start(t))
      modifies this`created, lists, nodes
      ensures Valid() && View() == Step(old(View()), Start(t))
    {
      SetReady(t);
      Started(t);
    }

    ghost method Started(t: nat)
      requires Valid()
      modifies this`created
      ensures Valid() && View() == old(View()).(created := old(View()).created - {t})
    {
      ghost var c := Contents();
      created := created - {t};
      assert Contents() == c;
    }

    // ---------- The sleep list ----------

    method SetSleep(t: nat, ticks: nat)
      requires Valid() && t < |runNodes| && t !in View().ready && t !in View().sleep
      modifies sleepTicks, lists, nodes
      ensures Valid() && View() == Sched.SetSleep(old(View()), t, ticks)
    {
      if ticks <= 0 {
        return;
      }
      ghost var c, sleeps := Contents(), sleepTicks[..];
      RunNodeFree(t);
      sleepTicks[t] := ticks;
      assert sleepTicks[..] == sleeps[t := ticks] && Contents() == c;
      Insert(sleepList, runNodes[t], 1);
    }

    method SetWakeup(t: nat)
      requires Valid() && t < |runNodes| && t in View().sleep
      modifies lists, nodes
      ensures Valid() && View() == old(View()).(sleep := Without(old(View()).sleep, t))
      ensures sleepList.nodes == Without(old(sleepList.nodes), runNodes[t])
    {
      NodeOn(t, 1);
      assert Contents()[1] == sleepList.nodes;
      Remove(sleepList, runNodes[t], 1);
      assert Contents()[1] == sleepList.nodes;
    }

    /** The body of the scan: one sleeper loses a tick and wakes at zero. */
    method VisitSleeper(t: nat)
      requires Valid() && t < |runNodes| && t in View().sleep && t !in View().ready && NoDup(View().sleep) && t != IDLE
      modifies sleepTicks, lists, nodes
      ensures Valid() && View() == WakeOne(old(View()), t)
      ensures sleepList.nodes == if old(sleepTicks[t]) == 1 then Without(old(sleepList.nodes), runNodes[t]) else old(sleepList.nodes)
    {
      ghost var c, sleeps := Contents(), sleepTicks[..];
      WithoutMembers(View().sleep, t);
      sleepTicks[t] := sleepTicks[t] - 1;
      assert sleepTicks[..] == sleeps[t := sleeps[t] - 1] && Contents() == c;
      if sleepTicks[t] == 0 {
        SetWakeup(t);
        SetReady(t);
      }
    }

    method SysSleep(ms: nat)
      requires Valid() && Inv(View()) && Enabled(View(), SleepFor(ms))
      modifies this`currTask, sleepTicks, lists, nodes
      ensures Valid() && View() == Step(old(View()), SleepFor(ms))
    {
      YieldMoves(View());
      SetBlock(currTask);
      SetSleep(currTask, (ms + (OS_TICKS_MS - 1)) % 0x1_0000_0000 / OS_TICKS_MS);
      Dispatch();
    }

    // ---------- Semaphores ----------

    /** A wait_node is only ever on wait lists. */
    lemma WaitNodeFree(t: nat)
      requires Valid() && t < |runNodes| && forall k: nat :: !Waiting(View(), k, t)
      ensures forall m: nat :: m < |lists| ==> waitNodes[t] !in lists[m].nodes
    {
      forall m: nat | m < |lists| ensures waitNodes[t] !in lists[m].nodes {
        NodeOn(t, m);
        assert Contents()[m] == lists[m].nodes;
        assert m >= 2 ==> !Waiting(View(), m - 2, t);
      }
    }

    method SemWait(k: nat)
      requires Valid() && Inv(View()) && Enabled(View(), Event.SemWait(k))
      modifies this`currTask, semCount, lists, nodes
      ensures Valid() && View() == Step(old(View()), Event.SemWait(k))
    {
      WaitParts(View(), k);
      if semCount[k] > 0 {
        SetCount(k, semCount[k] - 1);
      } else {
        BlockOn(k, Sched.SetBlock(View(), currTask));
        Dispatch();
      }
    }

    /** The caller leaves the ready list and joins a wait list. */
    method BlockOn(k: nat, ghost s1: State)
      requires Valid() && k < |waitLists| == |s1.sems| && currTask in View().ready && s1 == Sched.SetBlock(View(), currTask)
      requires forall l: nat :: !Waiting(s1, l, currTask)
      modifies lists, nodes
      ensures Valid() && View() == WithList(s1, k + 2, ListOf(s1, k + 2) + [currTask])
    {
      SetBlock(currTask);
      WaitNodeFree(currTask);
      assert waitNodes[currTask] in nodes && lists[k + 2] in lists;
      Insert(waitLists[k], waitNodes[currTask], k + 2);
    }

    method SemNotify(k: nat)
      requires Valid() && Inv(View()) && Enabled(View(), Event.SemNotify(k))
      modifies this`currTask, semCount, lists, nodes
      ensures Valid() && View() == Step(old(View()), Event.SemNotify(k))
    {
      ghost var c, s := Contents(), View();
      assert lists[k + 2].Valid() && c[k + 2] == waitLists[k].nodes;
      if waitLists[k].count != 0 {
        var curr := waitLists[k].first;
        assert curr in c[k + 2];
        DequeueKeeps(s, k);
        Remove(waitLists[k], curr, k + 2);
        SetReady(curr.task);
        Dispatch();
      } else {
        SetCount(k, semCount[k] + 1);
      }
    }

    method SetCount(k: nat, value: int)
      requires Valid() && k < semCount.Length
      modifies semCount
      ensures Valid() && View() == old(View()).(sems := old(View()).sems[k := old(View()).sems[k].(count := value)])
    {
      ghost var c, counts := Contents(), semCount[..];
      semCount[k] := value;
      assert semCount[..] == counts[k := value] && Contents() == c;
    }

    // ---------- The timer ----------

    method TimeTick()
      requires Valid() && Inv(View())
      modifies this`currTask, sliceTicks, sleepTicks, lists, nodes
      ensures Valid() && View() == Step(old(View()), Tick)
    {
      TickParts(View());
      SpendSlice();
      ScanSleepers(View());
      Dispatch();
    }

    method SpendSlice()
      requires Valid() && Inv(View())
      modifies sliceTicks, lists, nodes
      ensures Valid() && View() == UseSlice(old(View()))
    {
      ghost var s := View();
      YieldMoves(s);
      SetSlice(currTask, sliceTicks[currTask] - 1);
      if sliceTicks[currTask] == 0 {
        SetSlice(currTask, TIME_SLICE);
        assert s.slice[currTask := 0][currTask := TIME_SLICE] == s.slice[currTask := TIME_SLICE];
        SetBlock(currTask);
        SetReady(currTask);
      }
    }

    method SetSlice(t: nat, ticks: int)
      requires Valid() && t < sliceTicks.Length
      modifies sliceTicks
      ensures Valid() && View() == old(View()).(slice := old(View()).slice[t := ticks]) && sliceTicks[t] == ticks
    {
      ghost var c, slices := Contents(), sliceTicks[..];
      sliceTicks[t] := ticks;
      assert sliceTicks[..] == slices[t := ticks] && Contents() == c;
    }

    /** The scan stands at position `j` of the sleep list, with `todo` still to visit. */
    ghost predicate Scanning(j: nat, curr: Node?, todo: seq<nat>)
      reads sleepList
    {
      && j <= |sleepList.nodes| && Ids(sleepList.nodes[j..]) == todo
      && (if j < |sleepList.nodes| then curr == sleepList.nodes[j] else curr == null)
    }

    lemma SleeperReady(j: nat, curr: Node, todo: seq<nat>)
      requires Valid() && Scanning(j, curr, todo) && Sleepers(View())
      ensures todo != [] && curr.task == todo[0] && curr.task < |runNodes| && runNodes[curr.task] == curr && curr.task != IDLE
      ensures curr.task in View().sleep && curr.task !in View().ready
      ensures curr.next == (if j + 1 < |sleepList.nodes| then sleepList.nodes[j + 1] else null)
    {
      var c := Contents();
      assert c[1] == sleepList.nodes && lists[1].Valid() && c[1][j] in c[1];
      assert Ids(c[1])[j] == curr.task;
      NodeOn(curr.task, 0);
      NodeOn(curr.task, 1);
    }

    /** One turn of the scan loop; the successor is read before the node is unlinked. */
    method ScanOne(curr: Node, ghost j: nat, ghost todo: seq<nat>) returns (next: Node?, ghost j': nat)
      requires Valid() && Scanning(j, curr, todo) && Sleepers(View())
      modifies sleepTicks, lists, nodes
      ensures todo != [] && todo[0] in old(View()).sleep && todo[0] < |runNodes| && View() == WakeOne(old(View()), todo[0])
      ensures Valid() && Scanning(j', next, todo[1..])
    {
      SleeperReady(j, curr, todo);
      next := curr.next;
      ghost var nodes0 := sleepList.nodes;
      assert NoDup(nodes0) by {
        assert lists[1].Valid();
      }
      VisitSleeper(curr.task);
      j' := ScanNext(nodes0, j, sleepList.nodes, todo);
      assert next == if j' < |sleepList.nodes| then sleepList.nodes[j'..][0] else null;
    }

    method ScanSleepers(ghost s: State)
      requires Valid() && Orderly(View()) && View() == s
      modifies sleepTicks, lists, nodes
      ensures Valid() && View() == Wake(s, s.sleep)
    {
      ghost var j, todo := 0, s.sleep;
      ScanStart();
      var curr := sleepList.first;
      while curr != null
        invariant Valid() && Scanning(j, curr, todo) && Left(View(), todo, Wake(s, s.sleep))
        decreases |todo|
      {
        ghost var s0 := View();
        curr, j := ScanOne(curr, j, todo);
        VisitLeft(s0, todo, Wake(s, s.sleep));
        todo := todo[1..];
      }
    }

    lemma ScanStart()
      requires Valid()
      ensures Scanning(0, sleepList.first, View().sleep)
    {
      assert Contents()[1] == sleepList.nodes == sleepList.nodes[0..] && lists[1].Valid();
    }
  }

  lemma ScanNext(nodes: seq<Node>, j: nat, nodes': seq<Node>, todo: seq<nat>) returns (j': nat)
    requires NoDup(nodes) && j < |nodes| && Ids(nodes[j..]) == todo
    requires nodes' == nodes || nodes' == Without(nodes, nodes[j])
    ensures j' <= |nodes'| && nodes'[j'..] == nodes[j + 1..] && Ids(nodes'[j'..]) == todo[1..]
  {
    WithoutAt(nodes, j);
    j' := if nodes' == nodes then j + 1 else j;
  }

  // ---------- Boot ----------

  /** One run_node or wait_node for every task. */
  method NewNodes(count: nat, isRun: bool) returns (nodes: seq<Node>)
    ensures |nodes| == count && fresh(nodes)
    ensures forall t :: 0 <= t < count ==> nodes[t].task == t && nodes[t].isRun == isRun
  {
    nodes := [];
    for t := 0 to count
      invariant |nodes| == t && fresh(nodes)
      invariant forall u :: 0 <= u < t ==> nodes[u].task == u && nodes[u].isRun == isRun
    {
      var node := new Node(t, isRun);
      nodes := nodes + [node];
    }
  }

  /** list_init for each list, with the place of each. */
  method NewLists(count: nat) returns (lists: seq<List>, ghost place: map<List, nat>)
    ensures |lists| == count && fresh(lists)
    ensures forall l :: 0 <= l < count ==> lists[l].Valid() && lists[l].nodes == []
    ensures forall l :: 0 <= l < count ==> lists[l] in place && place[lists[l]] == l
  {
    lists, place := [], map[];
    for l := 0 to count
      invariant |lists| == l && fresh(lists)
      invariant forall k :: 0 <= k < l ==> lists[k].Valid() && lists[k].nodes == []
      invariant forall k :: 0 <= k < l ==> lists[k] in place && place[lists[k]] == k
    {
      var list := new List();
      lists := lists + [list];
      place := place[list := l];
    }
  }

  method NewTicks(count: nat, ticks: int) returns (a: array<int>)
    ensures fresh(a) && a.Length == count && forall t :: 0 <= t < count ==> a[..][t] == ticks
  {
    a := new int[count](_ => ticks);
  }

  /** task_manager_init: nothing is on a list, and every task has its full time slice. */
  method NewManager(tasks: nat, counts: array<int>, ghost others: set<nat>) returns (m: TaskManager)
    requires tasks > 0
    ensures fresh(m) && fresh(m.lists) && fresh(m.nodes) && m.Valid()
    ensures var s := m.View();
            && s.ready == [] && s.sleep == [] && s.created == others && |s.sems| == counts.Length
            && (forall k: nat :: k < |s.sems| ==> s.sems[k] == Sem(counts[k], []))
            && |s.slice| == |s.sleepTicks| == tasks && forall t :: 0 <= t < tasks ==> s.slice[t] == TIME_SLICE
  {
    var runNodes := NewNodes(tasks, true);
    var waitNodes := NewNodes(tasks, false);
    var lists, place := NewLists(counts.Length + 2);
    var slices := NewTicks(tasks, TIME_SLICE);
    var sleeps := NewTicks(tasks, 0);
    m := new TaskManager(runNodes, waitNodes, slices, sleeps, counts, lists, place, others);
  }

  /** The scheduler as the kernel starts it, task_manager_init and then task_first_init:
      `counts` are the initial counts of the semaphores, and `others` the tasks that have
      been initialised and not yet started. */
  method Boot(tasks: nat, counts: array<int>, first: nat, ghost others: set<nat>) returns (m: TaskManager)
    requires 0 < first < tasks && first !in others && forall t :: t in others ==> 0 < t < tasks
    requires forall k :: 0 <= k < counts.Length ==> counts[k] >= 0
    ensures fresh(m) && m.Valid() && Inv(m.View()) && m.View().curr == first && m.View().ready == [first]
    ensures |m.View().slice| == tasks && m.View().created == others && |m.View().sems| == counts.Length
  {
    m := NewManager(tasks, counts, others);
    m.StartFirst(first);
    BootInv(m.View(), first);
  }
}
