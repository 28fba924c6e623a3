/** The bounded blocking queue (include/ast-workspace.h) as a transition system over its critical sections.

A thread that finds its wait predicate false sleeps in the wait set of the condition variable, atomically with
releasing the mutex. A notification, or a spurious wakeup, only makes it runnable: it must take the mutex and test
the predicate again, and other threads may come first. markDone is three steps, since it notifies after unlocking.
*/
module Queues {
  import opened Options
  import opened Sequences

  datatype Queue<T> = Queue(
    taken: seq<T>,          // what pop has returned so far, oldest first
    items: seq<T>,
    capacity: nat,
    phase: nat,             // 0 open, 1 done set, 2 cvNotEmpty notified, 3 cvNotFull notified
    popWait: set<nat>,      // asleep on cvNotEmpty
    popWoken: set<nat>,     // woken there, about to test again
    pushWait: set<nat>,     // asleep on cvNotFull
    pushWoken: set<nat>)

  datatype PopOutcome<T> = Slept | Closed | Got(value: T)

  function Fresh<T>(capacity: nat): Queue<T> {
    Queue([], [], capacity, 0, {}, {}, {}, {})
  }

  predicate CanPush<T>(q: Queue<T>) {
    |q.items| < q.capacity || q.phase > 0
  }

  predicate CanPop<T>(q: Queue<T>) {
    q.items != [] || q.phase > 0
  }

  /** notify_one wakes any one sleeper, and nobody when there is none. */
  predicate ValidWake(waiting: set<nat>, w: Option<nat>) {
    match w case None => waiting == {} case Some(t) => t in waiting
  }

  function WakePop<T>(q: Queue<T>, w: Option<nat>): Queue<T> {
    if w.None? then q else q.(popWait := q.popWait - {w.value}, popWoken := q.popWoken + {w.value})
  }

  function WakePush<T>(q: Queue<T>, w: Option<nat>): Queue<T> {
    if w.None? then q else q.(pushWait := q.pushWait - {w.value}, pushWoken := q.pushWoken + {w.value})
  }

  /** Thread `t` holds the mutex in push: it sleeps, drops `v` because the queue is done, or appends `v` and wakes `w`. */
  function Push<T>(q: Queue<T>, t: nat, v: T, w: Option<nat>): Queue<T> {
    if !CanPush(q) then q.(pushWait := q.pushWait + {t}, pushWoken := q.pushWoken - {t})
    else if q.phase > 0 then q.(pushWoken := q.pushWoken - {t})
    else WakePop(q.(items := q.items + [v], pushWoken := q.pushWoken - {t}), w)
  }

  /** Thread `t` holds the mutex in pop: it sleeps, learns that the queue is closed, or takes the front and wakes `w`. */
  function Pop<T>(q: Queue<T>, t: nat, w: Option<nat>): Queue<T> {
    if !CanPop(q) then q.(popWait := q.popWait + {t}, popWoken := q.popWoken - {t})
    else if q.items == [] then q.(popWoken := q.popWoken - {t})
    else WakePush(q.(taken := q.taken + [q.items[0]], items := q.items[1..], popWoken := q.popWoken - {t}), w)
  }

  function Outcome<T>(q: Queue<T>): PopOutcome<T> {
    if !CanPop(q) then Slept else if q.items == [] then Closed else Got(q.items[0])
  }

  /** The next step of markDone: set the flag, notify all of cvNotEmpty, notify all of cvNotFull. */
  function Close<T>(q: Queue<T>): Queue<T> {
    if q.phase == 0 then q.(phase := 1)
    else if q.phase == 1 then q.(phase := 2, popWait := {}, popWoken := q.popWoken + q.popWait)
    else q.(phase := 3, pushWait := {}, pushWoken := q.pushWoken + q.pushWait)
  }

  // ---- Events ---------------------------------------------------------------

  datatype Event<T> =
    | PushTry(thread: nat, value: T, wake: Option<nat>)
    | PopTry(thread: nat, wake: Option<nat>)
    | CloseStep
    | SpuriousPush(thread: nat)
    | SpuriousPop(thread: nat)

  /** Whether `e` can happen: a sleeping thread does not run, and a notification picks a sleeper. */
  predicate Enabled<T>(q: Queue<T>, e: Event<T>) {
    match e
    case PushTry(t, _, w) => t !in q.pushWait && ValidWake(q.popWait, w)
    case PopTry(t, w) => t !in q.popWait && ValidWake(q.pushWait, w)
    case CloseStep => q.phase < 3
    case SpuriousPush(t) => t in q.pushWait
    case SpuriousPop(t) => t in q.popWait
  }

  function Next<T>(q: Queue<T>, e: Event<T>): Queue<T> {
    match e
    case PushTry(t, v, w) => Push(q, t, v, w)
    case PopTry(t, w) => Pop(q, t, w)
    case CloseStep => Close(q)
    case SpuriousPush(t) => WakePush(q, Some(t))
    case SpuriousPop(t) => WakePop(q, Some(t))
  }

  predicate CanRun<T>(q: Queue<T>, run: seq<Event<T>>)
    decreases |run|
  {
    run == [] || (Enabled(q, run[0]) && CanRun(Next(q, run[0]), run[1..]))
  }

  function AfterRun<T>(q: Queue<T>, run: seq<Event<T>>): Queue<T>
    decreases |run|
  {
    if run == [] then q else AfterRun(Next(q, run[0]), run[1..])
  }

  /** The values that push accepted during the run, in order. */
  function Accepted<T>(q: Queue<T>, run: seq<Event<T>>): seq<T>
    decreases |run|
  {
    if run == [] then []
    else
      (if run[0].PushTry? && CanPush(q) && q.phase == 0 then [run[0].value] else [])
      + Accepted(Next(q, run[0]), run[1..])
  }

  /** The values that pop returned during the run, in order. */
  function Delivered<T>(q: Queue<T>, run: seq<Event<T>>): seq<T>
    decreases |run|
  {
    if run == [] then []
    else
      (if run[0].PopTry? && Outcome(q).Got? then [q.items[0]] else []) + Delivered(Next(q, run[0]), run[1..])
  }

  // ---- Safety ---------------------------------------------------------------

  /** Before done no wakeup is lost: whoever sleeps is outnumbered by runnable threads that will serve the items or the slots. */
  ghost predicate NoLostWakeup<T>(q: Queue<T>) {
    && (q.popWait != {} ==> |q.items| <= |q.popWoken|)
    && (q.pushWait != {} ==> q.capacity - |q.items| <= |q.pushWoken|)
  }

  ghost predicate Inv<T>(q: Queue<T>) {
    && q.phase <= 3 && |q.items| <= q.capacity
    && q.popWait !! q.popWoken && q.pushWait !! q.pushWoken
    && (q.phase == 0 ==> NoLostWakeup(q))
    && (q.phase >= 2 ==> q.popWait == {})
    && (q.phase == 3 ==> q.pushWait == {})
  }

  lemma WithoutMember(s: set<nat>, t: nat)
    ensures |s - {t}| == if t in s then |s| - 1 else |s|
  {
    if t !in s {
      assert s - {t} == s;
    }
  }

  lemma PushKeepsInv<T>(q: Queue<T>, t: nat, v: T, w: Option<nat>)
    requires Inv(q) && t !in q.pushWait && ValidWake(q.popWait, w)
    ensures Inv(Push(q, t, v, w))
  {
    WithoutMember(q.pushWoken, t);
  }

  lemma PopKeepsInv<T>(q: Queue<T>, t: nat, w: Option<nat>)
    requires Inv(q) && t !in q.popWait && ValidWake(q.pushWait, w)
    ensures Inv(Pop(q, t, w))
  {
    WithoutMember(q.popWoken, t);
  }

  lemma NextKeepsInv<T>(q: Queue<T>, e: Event<T>)
    requires Inv(q) && Enabled(q, e)
    ensures Inv(Next(q, e))
  {
    match e
    case PushTry(t, v, w) => PushKeepsInv(q, t, v, w);
    case PopTry(t, w) => PopKeepsInv(q, t, w);
    case _ =>
  }

  lemma CapacityKept<T>(q: Queue<T>, e: Event<T>)
    ensures Next(q, e).capacity == q.capacity
  {
  }

  /** In every state of every run: the bound holds, and before done no wakeup has been lost. */
  lemma {:induction false} AlwaysInv<T>(q: Queue<T>, run: seq<Event<T>>)
    requires Inv(q) && CanRun(q, run)
    ensures Inv(AfterRun(q, run))
    decreases |run|
  {
    if run != [] {
      NextKeepsInv(q, run[0]);
      AlwaysInv(Next(q, run[0]), run[1..]);
    }
  }

  lemma FreshInv<T>(capacity: nat)
    ensures Inv(Fresh<T>(capacity))
  {
  }

  lemma NextMoves<T>(q: Queue<T>, e: Event<T>)
    ensures Next(q, e).taken == if e.PopTry? && Outcome(q).Got? then q.taken + [q.items[0]] else q.taken
    ensures Next(q, e).taken + Next(q, e).items
         == if e.PushTry? && CanPush(q) && q.phase == 0 then q.taken + q.items + [e.value] else q.taken + q.items
  {
    if e.PopTry? && Outcome(q).Got? {
      assert q.items == [q.items[0]] + q.items[1..];
    }
  }

  lemma {:induction false} DeliveredIsTaken<T>(q: Queue<T>, run: seq<Event<T>>)
    ensures q.taken + Delivered(q, run) == AfterRun(q, run).taken
    decreases |run|
  {
    if run == [] {
      assert q.taken + [] == q.taken;
    } else {
      NextMoves(q, run[0]);
      DeliveredIsTaken(Next(q, run[0]), run[1..]);
      var got := if run[0].PopTry? && Outcome(q).Got? then [q.items[0]] else [];
      assert q.taken + got == Next(q, run[0]).taken;
      Regroup(q.taken, got, Delivered(Next(q, run[0]), run[1..]));
    }
  }

  lemma {:induction false} AcceptedIsHeld<T>(q: Queue<T>, run: seq<Event<T>>)
    ensures (q.taken + q.items) + Accepted(q, run) == AfterRun(q, run).taken + AfterRun(q, run).items
    decreases |run|
  {
    var held := q.taken + q.items;
    if run == [] {
      assert held + [] == held;
    } else {
      NextMoves(q, run[0]);
      AcceptedIsHeld(Next(q, run[0]), run[1..]);
      var put := if run[0].PushTry? && CanPush(q) && q.phase == 0 then [run[0].value] else [];
      assert held + put == Next(q, run[0]).taken + Next(q, run[0]).items;
      Regroup(held, put, Accepted(Next(q, run[0]), run[1..]));
    }
  }

  /** First in, first out, exactly once, from a fresh queue: deliveries are a prefix of the acceptances, and the rest is what is queued. */
  lemma {:induction false} FreshFifo<T>(capacity: nat, run: seq<Event<T>>)
    requires CanRun(Fresh<T>(capacity), run)
    ensures var q, end := Fresh<T>(capacity), AfterRun(Fresh<T>(capacity), run);
      && Accepted(q, run) == Delivered(q, run) + end.items
      && |end.items| <= capacity
      && (end.phase == 0 ==> NoLostWakeup(end))
  {
    var q := Fresh<T>(capacity);
    FreshInv<T>(capacity);
    AlwaysInv(q, run);
    CapacityFixed(q, run);
    DeliveredIsTaken(q, run);
    AcceptedIsHeld(q, run);
    assert [] + Delivered(q, run) == Delivered(q, run);
    assert [] + [] + Accepted(q, run) == Accepted(q, run);
  }

  lemma {:induction false} CapacityFixed<T>(q: Queue<T>, run: seq<Event<T>>)
    ensures AfterRun(q, run).capacity == q.capacity
    decreases |run|
  {
    if run != [] {
      CapacityFixed(Next(q, run[0]), run[1..]);
    }
  }

  lemma PickWake(waiting: set<nat>) returns (w: Option<nat>)
    ensures ValidWake(waiting, w)
  {
    if waiting == {} {
      w := None;
    } else {
      var t :| t in waiting;
      w := Some(t);
    }
  }

  lemma SoleSleeper(waiting: set<nat>, woken: set<nat>, t: nat)
    requires waiting !! woken && t in waiting && waiting + woken <= {t}
    ensures woken == {}
  {
    assert woken == (waiting + woken) - waiting;
  }

  /** A consumer is never left asleep with every consumer asleep while an item waits; a producer never while a slot is free. */
  lemma SleepersAreServed<T>(q: Queue<T>)
    requires Inv(q) && q.phase == 0
    ensures q.popWait != {} && q.items != [] ==> exists t :: t in q.popWoken
    ensures q.pushWait != {} && |q.items| < q.capacity ==> exists t :: t in q.pushWoken
  {
    if q.popWoken == {} {
      assert |q.popWoken| == 0;
    }
    if q.pushWoken == {} {
      assert |q.pushWoken| == 0;
    }
  }

  // ---- The class ------------------------------------------------------------

  /** The queue object. Each method is one critical section; `thread` names the caller, and true or Slept means that it now sleeps. */
  class BlockingQueue<T(==)> {
    var data: seq<T>
    var capacity: nat
    var done: bool
    var notEmptyWaiters: set<nat>
    var notFullWaiters: set<nat>
    ghost var taken: seq<T>
    ghost var phase: nat
    ghost var popWoken: set<nat>
    ghost var pushWoken: set<nat>

    ghost function View(): Queue<T>
      reads this
    {
      Queue(taken, data, capacity, phase, notEmptyWaiters, popWoken, notFullWaiters, pushWoken)
    }

    ghost predicate Valid()
      reads this
    {
      Inv(View()) && (done <==> phase > 0)
    }

    constructor (capacity: nat)
      ensures Valid() && View() == Fresh(capacity)
    {
      data, this.capacity, done := [], capacity, false;
      notEmptyWaiters, notFullWaiters := {}, {};
      taken, phase, popWoken, pushWoken := [], 0, {}, {};
    }

    method NotifyOneNotEmpty() returns (ghost woken: Option<nat>)
      modifies this`notEmptyWaiters, this`popWoken
      ensures ValidWake(old(notEmptyWaiters), woken)
      ensures View() == WakePop(old(View()), woken)
    {
      woken := None;
      if notEmptyWaiters != {} {
        var t :| t in notEmptyWaiters;
        notEmptyWaiters := notEmptyWaiters - {t};
        popWoken := popWoken + {t};
        woken := Some(t);
      }
    }

    method NotifyOneNotFull() returns (ghost woken: Option<nat>)
      modifies this`notFullWaiters, this`pushWoken
      ensures ValidWake(old(notFullWaiters), woken)
      ensures View() == WakePush(old(View()), woken)
    {
      woken := None;
      if notFullWaiters != {} {
        var t :| t in notFullWaiters;
        notFullWaiters := notFullWaiters - {t};
        pushWoken := pushWoken + {t};
        woken := Some(t);
      }
    }

    method PushAttempt(thread: nat, v: T) returns (slept: bool, ghost woken: Option<nat>)
      requires Valid() && thread !in notFullWaiters
      modifies this
      ensures Valid() && slept == !CanPush(old(View()))
      ensures ValidWake(old(notEmptyWaiters), woken)
      ensures View() == Push(old(View()), thread, v, woken)
    {
      ghost var before := View();
      slept, woken := false, if notEmptyWaiters == {} then None else var t :| t in notEmptyWaiters; Some(t);
      pushWoken := pushWoken - {thread};
      if !(|data| < capacity || done) {
        notFullWaiters := notFullWaiters + {thread};
        slept := true;
      } else if !done {
        data := data + [v];
        woken := NotifyOneNotEmpty();
      }
      assert View() == Push(before, thread, v, woken);
      PushKeepsInv(before, thread, v, woken);
    }

    /** Moves the front item out and wakes one producer. */
    method TakeFront(thread: nat) returns (v: T, ghost woken: Option<nat>)
      requires data != [] && thread !in notEmptyWaiters
      modifies this`data, this`taken, this`popWoken, this`notFullWaiters, this`pushWoken
      ensures v == old(data)[0] && ValidWake(old(notFullWaiters), woken)
      ensures View() == Pop(old(View()), thread, woken)
    {
      popWoken := popWoken - {thread};
      v := data[0];
      taken := taken + [v];
      data := data[1..];
      woken := NotifyOneNotFull();
    }

    method PopAttempt(thread: nat) returns (r: PopOutcome<T>, ghost woken: Option<nat>)
      requires Valid() && thread !in notEmptyWaiters
      modifies this
      ensures Valid() && r == Outcome(old(View()))
      ensures ValidWake(old(notFullWaiters), woken)
      ensures View() == Pop(old(View()), thread, woken)
    {
      ghost var before := View();
      if !(data != [] || done) {
        woken := PickWake(notFullWaiters);
        popWoken := popWoken - {thread};
        notEmptyWaiters := notEmptyWaiters + {thread};
        r := Slept;
      } else if data == [] {
        woken := PickWake(notFullWaiters);
        popWoken := popWoken - {thread};
        r := Closed;
      } else {
        var v;
        v, woken := TakeFront(thread);
        r := Got(v);
      }
      assert View() == Pop(before, thread, woken);
      PopKeepsInv(before, thread, woken);
    }

    method SetDone()
      requires Valid() && phase == 0
      modifies this
      ensures Valid() && View() == Close(old(View()))
    {
      done := true;
      phase := 1;
    }

    method NotifyAllNotEmpty()
      requires Valid() && phase == 1
      modifies this
      ensures Valid() && View() == Close(old(View()))
    {
      popWoken := popWoken + notEmptyWaiters;
      notEmptyWaiters := {};
      phase := 2;
    }

    method NotifyAllNotFull()
      requires Valid() && phase == 2
      modifies this
      ensures Valid() && View() == Close(old(View()))
    {
      pushWoken := pushWoken + notFullWaiters;
      notFullWaiters := {};
      phase := 3;
    }
  }
}
