/** Flow control on the output side of one terminal: tty_write
    (src/kernel/dev/tty.c) and the drain loop of console_write
    (src/kernel/dev/console.c) as a transition system. Any number of writers
    interleave; sem_wait, sem_notify, tty_enqueue and tty_dequeue are single steps
    because they run with interrupts off. What is proved to hold in every run holds
    whether or not the console mutex excludes anybody; progress is proved for a mutex
    that lets some waiter in when nobody is inside. */
module TtyFlow {
  import opened Basics

  const SIZE := 512

  /** Where a writer stands: outside tty_write, about to wait for a slot, blocked in
      sem_wait, holding a slot it has not filled, at the lock of the console, about to
      dequeue, or about to notify for the character it dequeued. */
  datatype Pc = Idle | Want | Blocked | Granted | Lock | Drain | Notify

  /** `text` is what is left of the caller's buffer; `cr` says that the '\r' for a
      leading '\n' has been queued. `asked` and `size` are initial_size and size, and
      `ret` is what the last call returned. */
  datatype Writer = Writer(pc: Pc, cr: bool, text: string, asked: nat, size: nat, ret: nat)

  function Fresh(): Writer {
    Writer(Idle, false, "", 0, 0, 0)
  }

  /** A queued character, and who queued it (which only the proofs look at). */
  datatype Item = Item(who: nat, ch: char)

  datatype State = State(count: int, waiters: seq<nat>, queue: seq<Item>, writers: seq<Writer>, drained: seq<Item>, given: seq<string>)

  datatype Event = Call(w: nat, text: string) | Run(w: nat)

  // ---------- The steps ----------

  /** tty_open: an empty queue and 512 free slots; nobody writes yet. */
  predicate Opened(s: State) {
    && s.count == SIZE && s.waiters == [] && s.queue == [] && s.drained == [] && |s.given| == |s.writers|
    && (forall w :: 0 <= w < |s.writers| ==> s.writers[w] == Fresh() && s.given[w] == "")
  }

  predicate Enabled(s: State, e: Event) {
    e.w < |s.writers| == |s.given| &&
    match e
    case Call(w, text) => s.writers[w].pc == Idle && 0 < |text| < TWO32
    case Run(w) => s.writers[w].pc != Idle && s.writers[w].pc != Blocked
  }

  /** The character that goes out next: a '\r' before each '\n'. */
  function Out(x: Writer): char
    requires x.text != ""
  {
    if x.text[0] == '\n' && !x.cr then '\r' else x.text[0]
  }

  function Put(s: State, w: nat, x: Writer): State
    requires w < |s.writers|
  {
    s.(writers := s.writers[w := x])
  }

  /** tty_write is entered with `text`; the loop `while (size--)` is, too. */
  function Called(text: string): Writer
    requires text != ""
  {
    Writer(Want, false, text, |text|, |text| - 1, 0)
  }

  /** `size--` wraps around when the loop ends. */
  function Decrement(size: nat): nat {
    if size == 0 then TWO32 - 1 else size - 1
  }

  /** tty_write returns initial_size - size + 1, in 32 bits. */
  function Return(x: Writer, size: nat): Writer {
    Writer(Idle, false, "", x.asked, size, (x.asked - size + 1) % TWO32)
  }

  /** The test of the loop after one character. */
  function Next(x: Writer): Writer {
    if x.size == 0 then Return(x, Decrement(0)) else x.(pc := Want, size := Decrement(x.size))
  }

  /** A character has been queued: the '\r' of a line end, or one of the caller's. */
  function Queued(x: Writer): Writer
    requires x.text != ""
  {
    if Out(x) == '\r' && x.text[0] == '\n' then x.(pc := Want, cr := true)
    else x.(pc := Lock, cr := false, text := x.text[1..])
  }

  /** sem_wait on the output semaphore. */
  function Wait(s: State, w: nat): State
    requires w < |s.writers|
  {
    var x := s.writers[w];
    if s.count > 0 then Put(s, w, x.(pc := Granted)).(count := s.count - 1)
    else Put(s, w, x.(pc := Blocked)).(waiters := s.waiters + [w])
  }

  /** tty_enqueue; on a full queue tty_write gives up. */
  function Enqueue(s: State, w: nat): State
    requires w < |s.writers| && s.writers[w].text != ""
  {
    var x := s.writers[w];
    if |s.queue| >= SIZE then Put(s, w, Return(x, x.size))
    else Put(s, w, Queued(x)).(queue := s.queue + [Item(w, Out(x))])
  }

  /** mutex_lock on the console mutex lets a writer in. */
  function Enter(s: State, w: nat): State
    requires w < |s.writers|
  {
    Put(s, w, s.writers[w].(pc := Drain))
  }

  /** tty_dequeue in the drain loop; on an empty queue console_write returns. */
  function Dequeue(s: State, w: nat): State
    requires w < |s.writers|
  {
    var x := s.writers[w];
    if s.queue == [] then Put(s, w, Next(x))
    else Put(s, w, x.(pc := Notify)).(queue := s.queue[1..], drained := s.drained + [s.queue[0]])
  }

  /** sem_notify on the output semaphore. */
  function Wake(s: State, w: nat): State
    requires w < |s.writers| && AllBelow(s.waiters, |s.writers|)
  {
    var s1 := Put(s, w, s.writers[w].(pc := Drain));
    if s.waiters == [] then s1.(count := s.count + 1)
    else Put(s1, s.waiters[0], s1.writers[s.waiters[0]].(pc := Granted)).(waiters := s.waiters[1..])
  }

  // ---------- The invariant ----------

  function Num(ws: seq<Writer>, pc: Pc): nat {
    if ws == [] then 0 else (if ws[0].pc == pc then 1 else 0) + Num(ws[1..], pc)
  }

  /** What `w` queued, in order. */
  function Of(items: seq<Item>, w: nat): string {
    if items == [] then "" else (if items[0].who == w then [items[0].ch] else "") + Of(items[1..], w)
  }

  /** CRLF conversion, as the terminal is to show it. */
  function Expand(text: string): string {
    if text == "" then "" else (if text[0] == '\n' then "\r\n" else [text[0]]) + Expand(text[1..])
  }

  /** What a writer has still to queue. */
  function Rest(x: Writer): string {
    if x.cr && x.text != "" then [x.text[0]] + Expand(x.text[1..]) else Expand(x.text)
  }

  /** Free slots, queued characters, slots granted but not filled and characters
      dequeued but not yet notified make up the whole buffer. */
  ghost predicate Books(s: State) {
    && s.count + |s.queue| + Num(s.writers, Granted) + Num(s.writers, Notify) == SIZE
    && s.count >= 0 && (s.count > 0 ==> s.waiters == [])
  }

  ghost predicate WaitersBlocked(s: State) {
    && NoDup(s.waiters) && AllBelow(s.waiters, |s.writers|)
    && (forall w :: 0 <= w < |s.writers| ==> (w in s.waiters <==> s.writers[w].pc == Blocked))
  }

  predicate WriterOk(x: Writer) {
    && (x.pc == Idle ==> x.text == "") && (x.pc in {Want, Blocked, Granted} ==> x.text != "")
    && (x.cr ==> x.pc in {Want, Blocked, Granted} && x.text[0] == '\n')
    && SizeOk(x)
  }

  /** `size` counts what is left after the character in hand; a call that has returned
      gave two more than it was asked to write. */
  predicate SizeOk(x: Writer) {
    && |x.text| <= x.asked < TWO32
    && (x.pc in {Want, Blocked, Granted} ==> x.size + 1 == |x.text|)
    && (x.pc in {Lock, Drain, Notify} ==> x.size == |x.text|)
    && (x.pc == Idle && x.asked > 0 ==> x.ret == (x.asked + 2) % TWO32)
  }

  /** Before it comes to the lock a writer has at most its '\r' in the queue. */
  predicate Held(x: Writer, queued: string) {
    x.pc == Lock || x.pc == Drain || x.pc == Notify || |queued| <= if x.cr then 1 else 0
  }

  predicate Adds(drained: string, queued: string, rest: string, all: string) {
    drained + queued + rest == all
  }

  /** The books of one writer: what was drained and queued for it, and what it has
      still to send, is the text it was given, converted, in order. */
  ghost predicate Told(s: State, w: nat)
    requires w < |s.writers| == |s.given|
  {
    && WriterOk(s.writers[w]) && Held(s.writers[w], Of(s.queue, w))
    && Adds(Of(s.drained, w), Of(s.queue, w), Rest(s.writers[w]), Expand(s.given[w]))
  }

  ghost predicate Known(items: seq<Item>, n: nat) {
    forall i :: 0 <= i < |items| ==> items[i].who < n
  }

  ghost predicate Inv(s: State) {
    && |s.writers| == |s.given| && Books(s) && WaitersBlocked(s) && Known(s.queue, |s.writers|)
    && (forall w: nat :: w < |s.writers| ==> Told(s, w))
  }

  ghost function Step(s: State, e: Event): State
    requires Inv(s) && Enabled(s, e)
  {
    assert Told(s, e.w);
    match e
    case Call(w, text) => Put(s, w, Called(text)).(given := s.given[w := s.given[w] + text])
    case Run(w) =>
      match s.writers[w].pc
      case Want => Wait(s, w)
      case Granted => Enqueue(s, w)
      case Lock => Enter(s, w)
      case Drain => Dequeue(s, w)
      case Notify => Wake(s, w)
  }

  // ---------- Every step keeps the invariant ----------

  lemma {:induction false} NumPut(ws: seq<Writer>, w: nat, x: Writer, pc: Pc)
    requires w < |ws|
    ensures Num(ws[w := x], pc) == Num(ws, pc) - (if ws[w].pc == pc then 1 else 0) + if x.pc == pc then 1 else 0
    ensures ws[w].pc == pc ==> Num(ws, pc) >= 1
    decreases ws
  {
    if w > 0 {
      assert ws[w := x][1..] == ws[1..][w - 1 := x];
      NumPut(ws[1..], w - 1, x, pc);
    } else {
      assert ws[w := x][1..] == ws[1..];
    }
  }

  lemma OfCons(item: Item, rest: seq<Item>, w: nat)
    ensures Of([item] + rest, w) == (if item.who == w then [item.ch] else "") + Of(rest, w)
  {
    assert ([item] + rest)[1..] == rest;
  }

  lemma {:induction false} OfAppend(a: seq<Item>, b: seq<Item>, w: nat)
    ensures Of(a + b, w) == Of(a, w) + Of(b, w)
    decreases a
  {
    if a == [] {
      assert a + b == b;
    } else {
      OfAppend(a[1..], b, w);
      OfCons(a[0], a[1..] + b, w);
      assert a + b == [a[0]] + (a[1..] + b);
      Assoc(if a[0].who == w then [a[0].ch] else "", Of(a[1..], w), Of(b, w));
    }
  }

  lemma {:induction false} ExpandAppend(a: string, b: string)
    ensures Expand(a + b) == Expand(a) + Expand(b)
    decreases a
  {
    if a == "" {
      assert a + b == b;
    } else {
      assert (a + b)[1..] == a[1..] + b;
      ExpandAppend(a[1..], b);
    }
  }

  lemma OutRest(x: Writer)
    requires WriterOk(x) && x.text != ""
    ensures Rest(x) == [Out(x)] + Rest(Queued(x))
  {
  }

  lemma MoveIn(d: string, q: string, c: string, r: string, all: string)
    requires Adds(d, q, c + r, all)
    ensures Adds(d, q + c, r, all)
  {
    assert d + q + (c + r) == d + (q + c) + r;
  }

  lemma MoveOut(d: string, c: string, q: string, r: string, all: string)
    requires Adds(d, c + q, r, all)
    ensures Adds(d + c, q, r, all)
  {
    assert d + (c + q) + r == d + c + q + r;
  }

  lemma More(d: string, q: string, r: string, all: string, t: string)
    requires Adds(d, q, r, all)
    ensures Adds(d, q, r + t, all + t)
  {
    assert d + q + (r + t) == d + q + r + t;
  }

  lemma WaitKeeps(s: State, w: nat)
    requires Inv(s) && w < |s.writers| && s.writers[w].pc == Want
    ensures Inv(Wait(s, w))
  {
    var s', x' := Wait(s, w), Wait(s, w).writers[w];
    NumPut(s.writers, w, x', Granted);
    NumPut(s.writers, w, x', Notify);
    WaitBlocks(s, w);
    forall v: nat | v < |s'.writers| ensures Told(s', v) {
      WaitTold(s, w, v);
    }
  }

  lemma WaitBlocks(s: State, w: nat)
    requires WaitersBlocked(s) && w < |s.writers| && s.writers[w].pc == Want
    ensures WaitersBlocked(Wait(s, w))
  {
  }

  lemma WaitTold(s: State, w: nat, v: nat)
    requires |s.writers| == |s.given| && w < |s.writers| && s.writers[w].pc == Want
    requires v < |s.writers| && Told(s, v)
    ensures Told(Wait(s, w), v)
  {
  }

  lemma CallTold(s: State, w: nat, text: string)
    requires Inv(s) && Enabled(s, Call(w, text))
    ensures Told(Step(s, Call(w, text)), w)
  {
    assert Told(s, w);
    ExpandAppend(s.given[w], text);
    More(Of(s.drained, w), Of(s.queue, w), "", Expand(s.given[w]), Expand(text));
    assert "" + Expand(text) == Expand(text);
  }

  lemma CallKeeps(s: State, w: nat, text: string)
    requires Inv(s) && Enabled(s, Call(w, text))
    ensures Inv(Step(s, Call(w, text)))
  {
    var s' := Step(s, Call(w, text));
    NumPut(s.writers, w, s'.writers[w], Granted);
    NumPut(s.writers, w, s'.writers[w], Notify);
    CallTold(s, w, text);
    forall v: nat | v < |s'.writers| ensures Told(s', v) {
      assert Told(s, v);
    }
  }

  /** tty_enqueue never finds the ring full: a granted slot is a free one. */
  lemma NeverFull(s: State, w: nat)
    requires Inv(s) && w < |s.writers| && s.writers[w].pc == Granted
    ensures |s.queue| < SIZE
  {
    NumPut(s.writers, w, s.writers[w], Granted);
  }

  lemma EnqueueTold(s: State, w: nat, v: nat)
    requires |s.writers| == |s.given| && w < |s.writers| && s.writers[w].pc == Granted && Told(s, w)
    requires v < |s.writers| && Told(s, v) && |s.queue| < SIZE
    ensures Told(Enqueue(s, w), v)
  {
    var x := s.writers[w];
    var item := Item(w, Out(x));
    OfAppend(s.queue, [item], v);
    if v == w {
      OutRest(x);
      assert Of([item], w) == [Out(x)];
      MoveIn(Of(s.drained, w), Of(s.queue, w), [Out(x)], Rest(Enqueue(s, w).writers[w]), Expand(s.given[w]));
    } else {
      assert Of(s.queue, v) + "" == Of(s.queue, v);
    }
  }

  lemma EnqueueKeeps(s: State, w: nat)
    requires Inv(s) && w < |s.writers| && s.writers[w].pc == Granted
    ensures Told(s, w) && Inv(Enqueue(s, w))
  {
    NeverFull(s, w);
    assert Told(s, w);
    var s' := Enqueue(s, w);
    NumPut(s.writers, w, s'.writers[w], Granted);
    NumPut(s.writers, w, s'.writers[w], Notify);
    forall v: nat | v < |s'.writers| ensures Told(s', v) {
      assert Told(s, v);
      EnqueueTold(s, w, v);
    }
  }

  lemma EnterKeeps(s: State, w: nat)
    requires Inv(s) && w < |s.writers| && s.writers[w].pc == Lock
    ensures Inv(Enter(s, w))
  {
    var s' := Enter(s, w);
    NumPut(s.writers, w, s'.writers[w], Granted);
    NumPut(s.writers, w, s'.writers[w], Notify);
    forall v: nat | v < |s'.writers| ensures Told(s', v) {
      assert Told(s, v);
    }
  }

  lemma OfMoved(queue: seq<Item>, drained: seq<Item>, v: nat)
    requires queue != []
    ensures Of(queue, v) == Of([queue[0]], v) + Of(queue[1..], v)
    ensures Of(drained + [queue[0]], v) == Of(drained, v) + Of([queue[0]], v)
    ensures |Of(queue[1..], v)| <= |Of(queue, v)|
  {
    assert queue == [queue[0]] + queue[1..];
    OfAppend([queue[0]], queue[1..], v);
    OfAppend(drained, [queue[0]], v);
  }

  lemma NextOk(x: Writer)
    requires WriterOk(x) && x.pc == Drain
    ensures WriterOk(Next(x)) && Rest(Next(x)) == Rest(x) && (Next(x).pc == Want || Next(x).pc == Idle) && !Next(x).cr
  {
  }

  /** On an empty queue nobody has anything queued. */
  lemma ReturnTold(s: State, w: nat, v: nat)
    requires |s.writers| == |s.given| && w < |s.writers| && s.writers[w].pc == Drain
    requires v < |s.writers| && Told(s, v) && s.queue == []
    ensures Told(Dequeue(s, w), v)
  {
    if v == w {
      NextOk(s.writers[w]);
    }
  }

  lemma DequeueTold(s: State, w: nat, v: nat)
    requires |s.writers| == |s.given| && w < |s.writers| && s.writers[w].pc == Drain
    requires v < |s.writers| && Told(s, v)
    ensures Told(Dequeue(s, w), v)
  {
    if s.queue == [] {
      ReturnTold(s, w, v);
    } else {
      OfMoved(s.queue, s.drained, v);
      MoveOut(Of(s.drained, v), Of([s.queue[0]], v), Of(s.queue[1..], v), Rest(s.writers[v]), Expand(s.given[v]));
    }
  }

  lemma DequeueKeeps(s: State, w: nat)
    requires Inv(s) && w < |s.writers| && s.writers[w].pc == Drain
    ensures Inv(Dequeue(s, w))
  {
    var s' := Dequeue(s, w);
    NumPut(s.writers, w, s'.writers[w], Granted);
    NumPut(s.writers, w, s'.writers[w], Notify);
    forall v: nat | v < |s'.writers| ensures Told(s', v) {
      assert Told(s, v);
      DequeueTold(s, w, v);
    }
  }

  lemma WakeBooks(s: State, w: nat)
    requires Books(s) && WaitersBlocked(s) && w < |s.writers| && s.writers[w].pc == Notify
    ensures Books(Wake(s, w))
  {
    var x1 := s.writers[w].(pc := Drain);
    var ws := s.writers[w := x1];
    NumPut(s.writers, w, x1, Granted);
    NumPut(s.writers, w, x1, Notify);
    if s.waiters != [] {
      var v := s.waiters[0];
      assert v in s.waiters;
      NumPut(ws, v, ws[v].(pc := Granted), Granted);
      NumPut(ws, v, ws[v].(pc := Granted), Notify);
    }
  }

  lemma WakeWaiters(s: State, w: nat)
    requires WaitersBlocked(s) && w < |s.writers| && s.writers[w].pc == Notify
    ensures WaitersBlocked(Wake(s, w))
  {
    if s.waiters != [] {
      assert s.waiters == [s.waiters[0]] + s.waiters[1..];
    }
  }

  lemma WakeKeeps(s: State, w: nat)
    requires Inv(s) && w < |s.writers| && s.writers[w].pc == Notify
    ensures Inv(Wake(s, w))
  {
    var s' := Wake(s, w);
    WakeBooks(s, w);
    WakeWaiters(s, w);
    forall v: nat | v < |s'.writers| ensures Told(s', v) {
      assert Told(s, v);
      assert s.waiters != [] ==> s.waiters[0] in s.waiters;
    }
  }

  lemma StepKeepsInv(s: State, e: Event)
    requires Inv(s) && Enabled(s, e)
    ensures Inv(Step(s, e))
  {
    match e
    case Call(w, text) => CallKeeps(s, w, text);
    case Run(w) =>
      match s.writers[w].pc
      case Want => WaitKeeps(s, w);
      case Granted => EnqueueKeeps(s, w);
      case Lock => EnterKeeps(s, w);
      case Drain => DequeueKeeps(s, w);
      case Notify => WakeKeeps(s, w);
  }

  lemma {:induction false} NobodyInside(ws: seq<Writer>, pc: Pc)
    requires forall w :: 0 <= w < |ws| ==> ws[w].pc != pc
    ensures Num(ws, pc) == 0
    decreases ws
  {
    if ws != [] {
      NobodyInside(ws[1..], pc);
    }
  }

  lemma OpenedInv(s: State)
    requires Opened(s)
    ensures Inv(s)
  {
    NobodyInside(s.writers, Granted);
    NobodyInside(s.writers, Notify);
    assert Expand("") == "";
  }

  // ---------- Whole runs ----------

  ghost predicate CanRun(s: State, evs: seq<Event>)
    requires Inv(s)
    decreases |evs|
  {
    evs == [] || (Enabled(s, evs[0]) && (StepKeepsInv(s, evs[0]); CanRun(Step(s, evs[0]), evs[1..])))
  }

  ghost function Exec(s: State, evs: seq<Event>): (s': State)
    requires Inv(s) && CanRun(s, evs)
    ensures Inv(s')
    decreases |evs|
  {
    if evs == [] then s else
      StepKeepsInv(s, evs[0]);
      Exec(Step(s, evs[0]), evs[1..])
  }

  /** The runs of a terminal that has just been opened. */
  ghost predicate Runs(s: State, evs: seq<Event>) {
    Opened(s) && (OpenedInv(s); CanRun(s, evs))
  }

  ghost function End(s: State, evs: seq<Event>): (s': State)
    requires Runs(s, evs)
    ensures Inv(s')
  {
    OpenedInv(s);
    Exec(s, evs)
  }

  /** The text handed to `w` by the calls of a run. */
  function Texts(evs: seq<Event>, w: nat): string {
    if evs == [] then "" else (if evs[0].Call? && evs[0].w == w then evs[0].text else "") + Texts(evs[1..], w)
  }

  lemma {:induction false} GivenIsTexts(s: State, evs: seq<Event>, w: nat)
    requires Inv(s) && CanRun(s, evs) && w < |s.writers|
    ensures |Exec(s, evs).writers| == |Exec(s, evs).given| == |s.writers|
    ensures Exec(s, evs).given[w] == s.given[w] + Texts(evs, w)
    decreases |evs|
  {
    if evs != [] {
      StepKeepsInv(s, evs[0]);
      var s1, t := Step(s, evs[0]), if evs[0].Call? && evs[0].w == w then evs[0].text else "";
      assert s1.given[w] == s.given[w] + t;
      GivenIsTexts(s1, evs[1..], w);
      Assoc(s.given[w], t, Texts(evs[1..], w));
    }
  }

  /** In every run, slots are conserved and no tty_enqueue of tty_write fails. */
  lemma SlotsConserved(s: State, evs: seq<Event>)
    requires Runs(s, evs)
    ensures var end := End(s, evs);
            && end.count + |end.queue| + Num(end.writers, Granted) + Num(end.writers, Notify) == 512
            && (forall w: nat :: w < |end.writers| && end.writers[w].pc == Granted ==> |end.queue| < 512)
  {
    var end := End(s, evs);
    forall w: nat | w < |end.writers| && end.writers[w].pc == Granted ensures |end.queue| < SIZE {
      NeverFull(end, w);
    }
  }

  /** Whoever queued the oldest character is still inside tty_write. */
  lemma QueueHasOwner(s: State)
    requires Inv(s) && s.queue != []
    ensures s.queue[0].who < |s.writers| && s.writers[s.queue[0].who].pc != Idle
  {
    assert Told(s, s.queue[0].who);
  }

  /** At any moment of a run, what came out of the queue for one writer, what it has in
      the queue and what it has still to send is its text with CRLF conversion; once
      everybody has returned, all of it has come out. */
  lemma OutputFaithful(s: State, evs: seq<Event>, w: nat)
    requires Runs(s, evs) && w < |s.writers|
    ensures var end := End(s, evs);
            && |end.writers| == |s.writers|
            && Of(end.drained, w) + Of(end.queue, w) + Rest(end.writers[w]) == Expand(Texts(evs, w))
            && ((forall v :: 0 <= v < |end.writers| ==> end.writers[v].pc == Idle) ==>
                  end.queue == [] && end.count == SIZE && Of(end.drained, w) == Expand(Texts(evs, w)))
  {
    var end := TextsTold(s, evs, w);
    if forall v :: 0 <= v < |end.writers| ==> end.writers[v].pc == Idle {
      Emptied(end, w);
      assert Of(end.drained, w) + "" + "" == Of(end.drained, w);
    }
  }

  lemma TextsTold(s: State, evs: seq<Event>, w: nat) returns (end: State)
    requires Runs(s, evs) && w < |s.writers|
    ensures end == End(s, evs) && Inv(end) && |end.writers| == |s.writers|
    ensures Of(end.drained, w) + Of(end.queue, w) + Rest(end.writers[w]) == Expand(Texts(evs, w))
  {
    end := End(s, evs);
    OpenedInv(s);
    GivenIsTexts(s, evs, w);
    assert "" + Texts(evs, w) == Texts(evs, w);
    assert Told(end, w);
  }

  /** When everybody has returned, nothing is queued or still to be sent. */
  lemma Emptied(s: State, w: nat)
    requires Inv(s) && w < |s.writers| && forall v :: 0 <= v < |s.writers| ==> s.writers[v].pc == Idle
    ensures s.queue == [] && s.count == SIZE && Of(s.queue, w) == "" && Rest(s.writers[w]) == ""
  {
    NobodyInside(s.writers, Granted);
    NobodyInside(s.writers, Notify);
    if s.queue != [] {
      QueueHasOwner(s);
    }
    assert Told(s, w);
  }

  // ---------- The result of tty_write ----------

  /** The length of the text of the last call of `w` in a run, or `none`. */
  function LastAsked(evs: seq<Event>, w: nat, none: nat): nat {
    if evs == [] then none
    else LastAsked(evs[1..], w, if evs[0].Call? && evs[0].w == w then |evs[0].text| else none)
  }

  lemma AskedStep(s: State, e: Event, w: nat)
    requires Inv(s) && Enabled(s, e) && w < |s.writers|
    ensures |Step(s, e).writers| == |s.writers|
    ensures Step(s, e).writers[w].asked == if e.Call? && e.w == w then |e.text| else s.writers[w].asked
  {
  }

  lemma {:induction false} AskedIsLast(s: State, evs: seq<Event>, w: nat)
    requires Inv(s) && CanRun(s, evs) && w < |s.writers|
    ensures |Exec(s, evs).writers| == |s.writers|
    ensures Exec(s, evs).writers[w].asked == LastAsked(evs, w, s.writers[w].asked)
    decreases |evs|
  {
    if evs != [] {
      StepKeepsInv(s, evs[0]);
      AskedStep(s, evs[0], w);
      AskedIsLast(Step(s, evs[0]), evs[1..], w);
    }
  }

  /** In every run, a call of tty_write that has returned gave two more than the number
      of bytes it was asked to write and has queued, modulo 2^32: the loop leaves size at
      the largest 32-bit value. */
  lemma ReturnsTwoMore(s: State, evs: seq<Event>, w: nat)
    requires Runs(s, evs) && w < |s.writers|
    ensures var end := End(s, evs);
            w < |end.writers| &&
            (end.writers[w].pc == Idle && LastAsked(evs, w, 0) > 0 ==>
               end.writers[w].ret == (LastAsked(evs, w, 0) + 2) % 0x1_0000_0000 && end.writers[w].ret != LastAsked(evs, w, 0) &&
               end.writers[w].text == "")
  {
    OpenedInv(s);
    AskedIsLast(s, evs, w);
    assert Told(End(s, evs), w);
  }

  // ---------- No deadlock ----------

  function Others(items: seq<Item>, w: nat): seq<Item> {
    if items == [] then [] else (if items[0].who == w then [] else [items[0]]) + Others(items[1..], w)
  }

  lemma {:induction false} OthersCount(items: seq<Item>, w: nat)
    ensures |items| == |Of(items, w)| + |Others(items, w)|
    ensures forall i :: 0 <= i < |Others(items, w)| ==> Others(items, w)[i].who != w && Others(items, w)[i] in items
    decreases items
  {
    if items != [] {
      OthersCount(items[1..], w);
      var rest, all := Others(items[1..], w), Others(items, w);
      if items[0].who != w {
        assert all[1..] == rest;
      }
      forall i | 0 <= i < |all| ensures all[i].who != w && all[i] in items {
        assert all[i] == items[0] || all[i] in rest;
      }
    }
  }

  lemma {:induction false} OthersOf(items: seq<Item>, w: nat, v: nat)
    requires v != w
    ensures Of(Others(items, w), v) == Of(items, v)
    decreases items
  {
    if items != [] {
      OthersOf(items[1..], w, v);
      var rest := Others(items[1..], w);
      OfCons(items[0], rest, v);
      assert [] + rest == rest && "" + Of(items[1..], v) == Of(items[1..], v);
    }
  }

  /** With at most one character of each of `n` writers, a queue holds at most `n`. */
  lemma {:induction false} OneEach(items: seq<Item>, n: nat)
    requires Known(items, n) && forall w: nat :: w < n ==> |Of(items, w)| <= 1
    ensures |items| <= n
    decreases n
  {
    if n > 0 {
      var rest := Others(items, n - 1);
      OthersCount(items, n - 1);
      forall i | 0 <= i < |rest| ensures rest[i].who < n - 1 {
        assert rest[i] in items;
      }
      forall w: nat | w < n - 1 ensures |Of(rest, w)| <= 1 {
        OthersOf(items, n - 1, w);
      }
      OneEach(rest, n - 1);
    } else if items != [] {
      FirstKnown(items, n);
    }
  }

  lemma FirstKnown(items: seq<Item>, n: nat)
    requires items != [] && Known(items, n)
    ensures items[0].who < n
  {
  }

  predicate Inside(x: Writer) {
    x.pc == Drain || x.pc == Notify
  }

  /** A step that a mutex which excludes, and lets some waiter in when nobody is inside,
      allows. */
  predicate Allowed(s: State, e: Event) {
    Enabled(s, e) && (e.Run? && s.writers[e.w].pc == Lock ==> forall v :: 0 <= v < |s.writers| ==> !Inside(s.writers[v]))
  }

  /** Such a mutex keeps all but one writer out of the drain loop. */
  lemma AllowedExcludes(s: State, e: Event)
    requires Inv(s) && Allowed(s, e)
    requires forall v, w :: 0 <= v < w < |s.writers| ==> !Inside(s.writers[v]) || !Inside(s.writers[w])
    ensures var s' := Step(s, e);
            forall v, w :: 0 <= v < w < |s'.writers| ==> !Inside(s'.writers[v]) || !Inside(s'.writers[w])
  {
    StepKeepsInv(s, e);
    var s' := Step(s, e);
    forall v | 0 <= v < |s'.writers| && Inside(s'.writers[v])
      ensures v < |s.writers| && (Inside(s.writers[v]) || (v == e.w && e.Run? && s.writers[v].pc == Lock))
    {
      EntersByLock(s, e, v);
    }
  }

  lemma EntersByLock(s: State, e: Event, v: nat)
    requires Inv(s) && Enabled(s, e) && v < |Step(s, e).writers| && Inside(Step(s, e).writers[v])
    ensures v < |s.writers| && (Inside(s.writers[v]) || (v == e.w && e.Run? && s.writers[v].pc == Lock))
  {
    assert Told(s, e.w);
    assert s.waiters != [] ==> s.waiters[0] in s.waiters;
  }

  /** With fewer than 512 writers there is no deadlock: while one of them is inside
      tty_write, one of them can take a step. */
  lemma NoDeadlock(s: State, w: nat) returns (v: nat)
    requires Inv(s) && |s.writers| < 512 && w < |s.writers| && s.writers[w].pc != Idle
    ensures Allowed(s, Run(v))
  {
    v := w;
    if exists v :: 0 <= v < |s.writers| && s.writers[v].pc in {Want, Granted, Drain, Notify} {
      v :| 0 <= v < |s.writers| && s.writers[v].pc in {Want, Granted, Drain, Notify};
    } else if exists v :: 0 <= v < |s.writers| && s.writers[v].pc == Lock {
      v :| 0 <= v < |s.writers| && s.writers[v].pc == Lock;
    } else {
      assert w in s.waiters;
      NobodyInside(s.writers, Granted);
      NobodyInside(s.writers, Notify);
      forall u: nat | u < |s.writers| ensures |Of(s.queue, u)| <= 1 {
        assert Told(s, u);
      }
      OneEach(s.queue, |s.writers|);
      assert false;
    }
  }

  /** Somebody is inside tty_write, and nobody there is allowed a step. */
  ghost predicate Stuck(s: State) {
    && (exists w :: 0 <= w < |s.writers| && s.writers[w].pc != Idle)
    && forall w: nat :: w < |s.writers| ==> !Allowed(s, Run(w))
  }

  /** Every step of a run is one the mutex allows. */
  ghost predicate AllAllowed(s: State, evs: seq<Event>)
    requires Inv(s)
    decreases |evs|
  {
    evs == [] || (Allowed(s, evs[0]) && (StepKeepsInv(s, evs[0]); AllAllowed(Step(s, evs[0]), evs[1..])))
  }

  /** Allowed steps lead from `s` to `end`. */
  ghost predicate Leads(s: State, evs: seq<Event>, end: State)
    requires Inv(s)
    decreases |evs|
  {
    if evs == [] then s == end
    else Allowed(s, evs[0]) && (StepKeepsInv(s, evs[0]); Leads(Step(s, evs[0]), evs[1..], end))
  }

  lemma {:induction false} LeadsIsRun(s: State, evs: seq<Event>, end: State)
    requires Inv(s) && Leads(s, evs, end)
    ensures CanRun(s, evs) && AllAllowed(s, evs) && Exec(s, evs) == end
    decreases |evs|
  {
    if evs != [] {
      StepKeepsInv(s, evs[0]);
      LeadsIsRun(Step(s, evs[0]), evs[1..], end);
    }
  }

  /** One allowed step from `s` to `s1`. */
  ghost predicate Goes(s: State, e: Event, s1: State) {
    Inv(s) && Allowed(s, e) && s1 == Step(s, e) && Inv(s1)
  }

  lemma LeadsFirst(s: State, e: Event, s1: State, evs: seq<Event>, end: State)
    requires Goes(s, e, s1) && Leads(s1, evs, end)
    ensures Leads(s, [e] + evs, end)
  {
    assert ([e] + evs)[1..] == evs;
  }

  /** A writer in the middle of a line end. */
  function Half(pc: Pc): Writer {
    Writer(pc, true, "\n", 1, 0, 0)
  }

  /** The first `k` writers have queued the '\r' of a line end, the others are idle. */
  predicate HalfLines(s: State, k: nat) {
    && k <= SIZE <= |s.writers| == |s.given| && s.count == SIZE - k && |s.queue| == k && s.waiters == []
    && (forall w :: 0 <= w < |s.writers| ==> s.writers[w] == if w < k then Half(Want) else Fresh())
  }

  lemma OneMoreHalf(s: State, k: nat) returns (s1: State, s2: State, s3: State)
    requires Inv(s) && HalfLines(s, k) && k < SIZE
    ensures Goes(s, Call(k, "\n"), s1) && Goes(s1, Run(k), s2) && Goes(s2, Run(k), s3) && HalfLines(s3, k + 1)
  {
    s1 := Step(s, Call(k, "\n"));
    StepKeepsInv(s, Call(k, "\n"));
    s2 := Step(s1, Run(k));
    StepKeepsInv(s1, Run(k));
    s3 := Step(s2, Run(k));
    StepKeepsInv(s2, Run(k));
  }

  function Waiter(w: nat, k: nat): Writer {
    if w < k then Half(Blocked) else if w < SIZE then Half(Want) else Fresh()
  }

  /** The first `k` of them have gone on to wait for a slot for the '\n'. */
  predicate Blocking(s: State, k: nat) {
    && k <= SIZE <= |s.writers| == |s.given| && s.count == 0
    && (forall w :: 0 <= w < |s.writers| ==> s.writers[w] == Waiter(w, k))
  }

  lemma {:induction false} AllBlock(s: State, k: nat) returns (evs: seq<Event>, end: State)
    requires Inv(s) && Blocking(s, k)
    ensures Inv(end) && Blocking(end, SIZE) && Leads(s, evs, end)
    decreases SIZE - k
  {
    if k == SIZE {
      return [], s;
    }
    var s1 := Step(s, Run(k));
    StepKeepsInv(s, Run(k));
    var rest;
    rest, end := AllBlock(s1, k + 1);
    LeadsFirst(s, Run(k), s1, rest, end);
    evs := [Run(k)] + rest;
  }

  lemma {:induction false} AllHalf(s: State, k: nat) returns (evs: seq<Event>, end: State)
    requires Inv(s) && HalfLines(s, k)
    ensures Inv(end) && Blocking(end, SIZE) && Leads(s, evs, end)
    decreases SIZE - k
  {
    if k == SIZE {
      evs, end := AllBlock(s, 0);
      return;
    }
    var s1, s2, s3 := OneMoreHalf(s, k);
    evs, end := AllHalf(s3, k + 1);
    LeadsFirst(s2, Run(k), s3, evs, end);
    LeadsFirst(s1, Run(k), s2, [Run(k)] + evs, end);
    LeadsFirst(s, Call(k, "\n"), s1, [Run(k)] + ([Run(k)] + evs), end);
    evs := [Call(k, "\n")] + ([Run(k)] + ([Run(k)] + evs));
  }

  /** With 512 writers or more there is a run into a deadlock: each queues the '\r' of a
      line end, which fills the ring, and waits for a slot for the '\n' without draining. */
  lemma DeadlockReachable(s: State) returns (evs: seq<Event>)
    requires Opened(s) && |s.writers| >= SIZE
    ensures Deadlocks(s, evs)
  {
    OpenedInv(s);
    var end;
    evs, end := AllHalf(s, 0);
    LeadsIsRun(s, evs, end);
    assert end.writers[0].pc == Blocked;
  }

  lemma {:induction false} WritersKept(s: State, evs: seq<Event>)
    requires Inv(s) && CanRun(s, evs)
    ensures |Exec(s, evs).writers| == |s.writers|
    decreases |evs|
  {
    if evs != [] {
      StepKeepsInv(s, evs[0]);
      WritersKept(Step(s, evs[0]), evs[1..]);
    }
  }

  /** A run from an open terminal, allowed by the mutex, into a deadlock. */
  ghost predicate Deadlocks(s: State, evs: seq<Event>) {
    Runs(s, evs) && (OpenedInv(s); AllAllowed(s, evs)) && Stuck(End(s, evs))
  }

  /** A deadlock can be reached exactly when there are 512 writers or more. */
  lemma DeadlockIff512(s: State)
    requires Opened(s)
    ensures (exists evs :: Deadlocks(s, evs)) <==> |s.writers| >= 512
  {
    OpenedInv(s);
    if |s.writers| >= SIZE {
      var evs := DeadlockReachable(s);
    } else {
      forall evs | Runs(s, evs) ensures !Deadlocks(s, evs) {
        WritersKept(s, evs);
        NotStuck(End(s, evs));
      }
    }
  }

  lemma NotStuck(s: State)
    requires Inv(s) && |s.writers| < SIZE
    ensures !Stuck(s)
  {
    if w: nat :| w < |s.writers| && s.writers[w].pc != Idle {
      var v := NoDeadlock(s, w);
    }
  }

  // ---------- Writers finish ----------

  /** The steps a writer may still take with the character in hand. */
  function Weight(pc: Pc): nat {
    match pc
    case Idle => 0
    case Granted => 1
    case Blocked => 2
    case Want => 3
    case Drain => 4
    case Lock => 5
    case Notify => 5
  }

  /** The steps a writer may still take: seven at most for each character to come. */
  function Work(x: Writer): nat {
    7 * |Rest(x)| + Weight(x.pc)
  }

  function TotalWork(ws: seq<Writer>): nat {
    if ws == [] then 0 else Work(ws[0]) + TotalWork(ws[1..])
  }

  /** A bound on the steps left without further calls: a queued character takes two. */
  function Measure(s: State): nat {
    TotalWork(s.writers) + 2 * |s.queue|
  }

  lemma {:induction false} WorkPut(ws: seq<Writer>, w: nat, x: Writer)
    requires w < |ws|
    ensures TotalWork(ws[w := x]) + Work(ws[w]) == TotalWork(ws) + Work(x)
    decreases ws
  {
    if w > 0 {
      assert ws[w := x][1..] == ws[1..][w - 1 := x];
      WorkPut(ws[1..], w - 1, x);
    } else {
      assert ws[w := x][1..] == ws[1..];
    }
  }

  lemma QueuedWork(x: Writer)
    requires WriterOk(x) && x.pc == Granted
    ensures Work(Queued(x)) + 2 < Work(x)
  {
    OutRest(x);
  }

  lemma NextWork(x: Writer)
    requires WriterOk(x) && x.pc == Drain
    ensures Work(Next(x)) < Work(x)
  {
    NextOk(x);
  }

  lemma EnqueueWork(s: State, w: nat)
    requires Inv(s) && w < |s.writers| && s.writers[w].pc == Granted
    ensures Told(s, w) && Measure(Enqueue(s, w)) < Measure(s)
  {
    assert Told(s, w);
    NeverFull(s, w);
    QueuedWork(s.writers[w]);
    WorkPut(s.writers, w, Queued(s.writers[w]));
  }

  lemma DequeueWork(s: State, w: nat)
    requires Inv(s) && w < |s.writers| && s.writers[w].pc == Drain
    ensures Measure(Dequeue(s, w)) < Measure(s)
  {
    assert Told(s, w);
    NextWork(s.writers[w]);
    WorkPut(s.writers, w, Dequeue(s, w).writers[w]);
  }

  lemma WakeWork(s: State, w: nat)
    requires Inv(s) && w < |s.writers| && s.writers[w].pc == Notify
    ensures Measure(Wake(s, w)) < Measure(s)
  {
    var x := s.writers[w].(pc := Drain);
    var ws := s.writers[w := x];
    WorkPut(s.writers, w, x);
    if s.waiters != [] {
      var v := s.waiters[0];
      assert v in s.waiters;
      WorkPut(ws, v, ws[v].(pc := Granted));
    }
  }

  /** Every step of a writer inside tty_write brings the end nearer. */
  lemma StepWorks(s: State, w: nat)
    requires Inv(s) && Enabled(s, Run(w))
    ensures Measure(Step(s, Run(w))) < Measure(s)
  {
    match s.writers[w].pc
    case Want => WorkPut(s.writers, w, Wait(s, w).writers[w]);
    case Granted => EnqueueWork(s, w);
    case Lock => WorkPut(s.writers, w, Enter(s, w).writers[w]);
    case Drain => DequeueWork(s, w);
    case Notify => WakeWork(s, w);
  }

  /** Without further calls every run ends, whichever writers take the steps. */
  lemma {:induction false} RunsEnd(s: State, evs: seq<Event>)
    requires Inv(s) && CanRun(s, evs) && forall e :: e in evs ==> e.Run?
    ensures |evs| + Measure(Exec(s, evs)) <= Measure(s)
    decreases |evs|
  {
    if evs != [] {
      assert evs[0] in evs && forall e :: e in evs[1..] ==> e in evs;
      StepKeepsInv(s, evs[0]);
      StepWorks(s, evs[0].w);
      RunsEnd(Step(s, evs[0]), evs[1..]);
    }
  }

  /** With fewer than 512 writers a run that cannot go on without a call has every writer
      back from tty_write, and all of its text has come out. */
  lemma AllTextOut(s: State, evs: seq<Event>, w: nat)
    requires Runs(s, evs) && |s.writers| < 512 && w < |s.writers|
    requires forall v: nat :: !Allowed(End(s, evs), Run(v))
    ensures var end := End(s, evs);
            && |end.writers| == |s.writers| && (forall v :: 0 <= v < |end.writers| ==> end.writers[v].pc == Idle)
            && end.queue == [] && Of(end.drained, w) == Expand(Texts(evs, w))
  {
    var end := End(s, evs);
    OpenedInv(s);
    WritersKept(s, evs);
    forall v: nat | v < |end.writers| ensures end.writers[v].pc == Idle {
      if end.writers[v].pc != Idle {
        var u := NoDeadlock(end, v);
      }
    }
    OutputFaithful(s, evs, w);
  }

  /** And from every state some run without further calls leads there. */
  lemma {:induction false} Finishes(s: State) returns (evs: seq<Event>, end: State)
    requires Inv(s) && |s.writers| < 512
    ensures Leads(s, evs, end) && (forall e :: e in evs ==> e.Run?) && |evs| <= Measure(s)
    ensures |end.writers| == |s.writers| && forall v :: 0 <= v < |end.writers| ==> end.writers[v].pc == Idle
    decreases Measure(s)
  {
    if w: nat :| w < |s.writers| && s.writers[w].pc != Idle {
      var v := NoDeadlock(s, w);
      var s1 := Step(s, Run(v));
      StepKeepsInv(s, Run(v));
      StepWorks(s, Run(v).w);
      WritersKept(s, [Run(v)]);
      var rest;
      rest, end := Finishes(s1);
      LeadsFirst(s, Run(v), s1, rest, end);
      evs := [Run(v)] + rest;
    } else {
      evs, end := [], s;
    }
  }

  // ---------- First come, first served ----------

  /** Who a step makes wait for a slot. */
  function Arrives(s: State, e: Event): seq<nat>
    requires e.w < |s.writers|
  {
    if e.Run? && s.writers[e.w].pc == Want && s.count <= 0 then [e.w] else []
  }

  /** Who a step gives the slot it frees. */
  function Serves(s: State, e: Event): seq<nat>
    requires e.w < |s.writers|
  {
    if e.Run? && s.writers[e.w].pc == Notify && s.waiters != [] then [s.waiters[0]] else []
  }

  /** The character a step queues. */
  function Queues(s: State, e: Event): seq<Item>
    requires e.w < |s.writers|
  {
    var x := s.writers[e.w];
    if e.Run? && x.pc == Granted && x.text != "" then [Item(e.w, if x.text[0] == '\n' && !x.cr then '\r' else x.text[0])] else []
  }

  /** The wait list and the ring are served in the order of arrival: at one end what
      arrives is added, at the other the oldest is taken. A writer served holds a slot. */
  lemma StepServes(s: State, e: Event)
    requires Inv(s) && Enabled(s, e)
    ensures s.waiters + Arrives(s, e) == Serves(s, e) + Step(s, e).waiters
    ensures forall v :: v in Serves(s, e) ==> v < |Step(s, e).writers| && Step(s, e).writers[v].pc == Granted
    ensures s.drained + s.queue + Queues(s, e) == Step(s, e).drained + Step(s, e).queue && s.drained <= Step(s, e).drained
  {
    assert Told(s, e.w);
    if e.Run? {
      match s.writers[e.w].pc
      case Granted =>
        NeverFull(s, e.w);
        Assoc(s.drained, s.queue, Queues(s, e));
      case Drain => assert s.queue != [] ==> s.queue == [s.queue[0]] + s.queue[1..];
      case Notify =>
        assert s.waiters != [] ==> s.waiters == [s.waiters[0]] + s.waiters[1..];
      case _ =>
    }
  }

  /** All writers that had to wait in a run, and all that were served, in order. */
  ghost function Arrivals(s: State, evs: seq<Event>): seq<nat>
    requires Inv(s) && CanRun(s, evs)
    decreases |evs|
  {
    if evs == [] then [] else
      StepKeepsInv(s, evs[0]);
      Arrives(s, evs[0]) + Arrivals(Step(s, evs[0]), evs[1..])
  }

  ghost function Served(s: State, evs: seq<Event>): seq<nat>
    requires Inv(s) && CanRun(s, evs)
    decreases |evs|
  {
    if evs == [] then [] else
      StepKeepsInv(s, evs[0]);
      Serves(s, evs[0]) + Served(Step(s, evs[0]), evs[1..])
  }

  /** Over every run the writers that wait are served in the order in which they came,
      and what was shown stays shown. */
  lemma {:induction false} ServedInOrder(s: State, evs: seq<Event>)
    requires Inv(s) && CanRun(s, evs)
    ensures s.waiters + Arrivals(s, evs) == Served(s, evs) + Exec(s, evs).waiters
    ensures s.drained + s.queue <= Exec(s, evs).drained + Exec(s, evs).queue && s.drained <= Exec(s, evs).drained
    decreases |evs|
  {
    if evs == [] {
      assert s.waiters + [] == [] + s.waiters;
    } else {
      StepKeepsInv(s, evs[0]);
      StepServes(s, evs[0]);
      var s1, end := Step(s, evs[0]), Exec(s, evs);
      ServedInOrder(s1, evs[1..]);
      Regroup(s.waiters, Arrives(s, evs[0]), Arrivals(s1, evs[1..]), Serves(s, evs[0]), s1.waiters, Served(s1, evs[1..]), end.waiters);
      Prefixes(s.drained + s.queue, Queues(s, evs[0]), end.drained + end.queue);
    }
  }

  lemma Regroup(w: seq<nat>, a: seq<nat>, later: seq<nat>, r: seq<nat>, w1: seq<nat>, rs: seq<nat>, end: seq<nat>)
    requires w + a == r + w1 && w1 + later == rs + end
    ensures w + (a + later) == r + rs + end
  {
    Assoc(w, a, later);
    Assoc(r, w1, later);
    Assoc(r, rs, end);
  }

  lemma Prefixes(a: seq<Item>, b: seq<Item>, c: seq<Item>)
    requires a + b <= c
    ensures a <= c
  {
  }

  // ---------- What CRLF conversion is ----------

  /** Text without a line end is left alone. */
  lemma {:induction false} ExpandPlain(text: string)
    requires '\n' !in text
    ensures Expand(text) == text
    decreases text
  {
    if text != "" {
      ExpandPlain(text[1..]);
    }
  }

  /** A line end becomes two characters, and the parts around it are converted. */
  lemma ExpandLine(a: string, b: string)
    ensures Expand(a + "\n" + b) == Expand(a) + "\r\n" + Expand(b)
  {
    ExpandAppend(a + "\n", b);
    ExpandAppend(a, "\n");
    assert Expand("\n") == "\r\n" + Expand("");
    Assoc(Expand(a), "\r\n", Expand(b));
  }
}
