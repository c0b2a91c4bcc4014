/** The bounded queue between the two pipeline stages: a monitor with two condition variables.
    Every critical section is one step; a thread in a wait is asleep until it is notified (or
    wakes spuriously), then woken until it re-enters and tests its predicate again. */
module BoundedQueue {

  type Tid = nat

  /** Threads inside wait() on one condition variable. */
  datatype Waiters = Waiters(asleep: set<Tid>, woken: set<Tid>) {
    function All(): set<Tid> { asleep + woken }
  }

  datatype Queue<T> = Queue(capacity: nat, items: seq<T>, closed: bool, notFull: Waiters, notEmpty: Waiters) {
    function Blocked(): set<Tid> { notFull.All() + notEmpty.All() }
  }

  function Empty<T>(capacity: nat): Queue<T> {
    Queue(capacity, [], false, Waiters({}, {}), Waiters({}, {}))
  }

  function Leave(w: Waiters, t: Tid): Waiters { Waiters(w.asleep - {t}, w.woken - {t}) }

  function Sleep(w: Waiters, t: Tid): Waiters { Waiters(w.asleep + {t}, w.woken - {t}) }

  /** notify_one: the scheduler's pick among the sleepers, if there is one, becomes runnable. */
  function NotifyOne(w: Waiters, pick: Tid): Waiters {
    if pick in w.asleep then Waiters(w.asleep - {pick}, w.woken + {pick}) else w
  }

  function NotifyAll(w: Waiters): Waiters { Waiters({}, w.asleep + w.woken) }

  predicate LegalPick(w: Waiters, pick: Tid) { w.asleep != {} ==> pick in w.asleep }

  datatype PushResult = Pushed | PushSlept | PushOnClosed
  datatype PopResult<+T> = Popped(value: T) | PopSlept | PopEnded

  function PushOutcome<T>(q: Queue<T>): PushResult {
    if q.closed then PushOnClosed else if |q.items| < q.capacity then Pushed else PushSlept
  }

  function AfterPush<T>(q: Queue<T>, t: Tid, v: T, pick: Tid): Queue<T> {
    match PushOutcome(q)
    case PushOnClosed => q.(notFull := Leave(q.notFull, t))
    case PushSlept => q.(notFull := Sleep(q.notFull, t))
    case Pushed => q.(items := q.items + [v], notFull := Leave(q.notFull, t), notEmpty := NotifyOne(q.notEmpty, pick))
  }

  function PopOutcome<T>(q: Queue<T>): PopResult<T> {
    if q.items != [] then Popped(q.items[0]) else if q.closed then PopEnded else PopSlept
  }

  function AfterPop<T>(q: Queue<T>, t: Tid, pick: Tid): Queue<T> {
    match PopOutcome(q)
    case PopEnded => q.(notEmpty := Leave(q.notEmpty, t))
    case PopSlept => q.(notEmpty := Sleep(q.notEmpty, t))
    case Popped(_) => q.(items := q.items[1..], notEmpty := Leave(q.notEmpty, t), notFull := NotifyOne(q.notFull, pick))
  }

  function AfterClose<T>(q: Queue<T>): Queue<T> {
    q.(closed := true, notFull := NotifyAll(q.notFull), notEmpty := NotifyAll(q.notEmpty))
  }

  /** A thread may enter Push when it is in no wait, or when its own wait on not_full was woken. */
  predicate MayPush<T>(q: Queue<T>, t: Tid) { t !in q.Blocked() || t in q.notFull.woken }

  predicate MayPop<T>(q: Queue<T>, t: Tid) { t !in q.Blocked() || t in q.notEmpty.woken }

  // ---------------------------------------------------------------- the monitor object

  class BoundedQueue<T(==)> {
    const capacity: nat
    var items: seq<T>
    var closed: bool
    var notFull: Waiters
    var notEmpty: Waiters

    function State(): Queue<T>
      reads this
    {
      Queue(capacity, items, closed, notFull, notEmpty)
    }

    constructor (capacity: nat)
      ensures State() == Empty(capacity)
    {
      this.capacity := capacity;
      items, closed := [], false;
      notFull, notEmpty := Waiters({}, {}), Waiters({}, {});
    }

    /** The critical section of Push, entered or re-entered by thread t. */
    method Push(t: Tid, value: T, pick: Tid) returns (r: PushResult)
      requires MayPush(State(), t) && LegalPick(notEmpty, pick)
      modifies this
      ensures r == PushOutcome(old(State())) && State() == AfterPush(old(State()), t, value, pick)
    {
      if !(closed || |items| < capacity) {
        notFull := Sleep(notFull, t);
        return PushSlept;
      }
      notFull := Leave(notFull, t);
      if closed {
        return PushOnClosed;
      }
      items := items + [value];
      notEmpty := NotifyOne(notEmpty, pick);
      return Pushed;
    }

    /** The critical section of Pop, entered or re-entered by thread t. */
    method Pop(t: Tid, pick: Tid) returns (r: PopResult<T>)
      requires MayPop(State(), t) && LegalPick(notFull, pick)
      modifies this
      ensures r == PopOutcome(old(State())) && State() == AfterPop(old(State()), t, pick)
    {
      if !(closed || items != []) {
        notEmpty := Sleep(notEmpty, t);
        return PopSlept;
      }
      notEmpty := Leave(notEmpty, t);
      if items == [] {
        return PopEnded;
      }
      r := Popped(items[0]);
      items := items[1..];
      notFull := NotifyOne(notFull, pick);
    }

    method Close()
      modifies this
      ensures State() == AfterClose(old(State()))
    {
      closed := true;
      notEmpty := NotifyAll(notEmpty);
      notFull := NotifyAll(notFull);
    }
  }

  // ---------------------------------------------------------------- no lost wakeup

  /** While somebody sleeps here the queue is open and at least `need` threads are woken. */
  ghost predicate Served(w: Waiters, closed: bool, need: int) {
    w.asleep !! w.woken && (w.asleep != {} ==> !closed && |w.woken| >= need)
  }

  /** The monitor's invariant: sleepers on not_empty are covered by one woken thread per item,
      sleepers on not_full by one woken thread per free slot, and nobody sleeps once closed. */
  ghost predicate NoLostWakeup<T>(q: Queue<T>) {
    && |q.items| <= q.capacity
    && Served(q.notFull, q.closed, q.capacity - |q.items|)
    && Served(q.notEmpty, q.closed, |q.items|)
    && q.notFull.All() !! q.notEmpty.All()
  }

  lemma Without(s: set<Tid>, t: Tid)
    ensures |s - {t}| == |s| - if t in s then 1 else 0
  {
    assert s == if t in s then (s - {t}) + {t} else s - {t};
  }

  lemma LeaveServed(w: Waiters, t: Tid, closed: bool, need: int)
    requires Served(w, closed, need) && t !in w.asleep
    ensures Served(Leave(w, t), closed, need - 1) && Leave(w, t).All() <= w.All()
  {
    assert Leave(w, t).asleep == w.asleep;
    Without(w.woken, t);
  }

  lemma SleepServed(w: Waiters, t: Tid, need: int)
    requires w.asleep !! w.woken && need <= 0
    ensures Served(Sleep(w, t), false, need) && Sleep(w, t).All() == w.All() + {t}
  {
  }

  lemma NotifyServed(w: Waiters, pick: Tid, closed: bool, need: int)
    requires Served(w, closed, need) && LegalPick(w, pick)
    ensures Served(NotifyOne(w, pick), closed, need + 1) && NotifyOne(w, pick).All() == w.All()
  {
    if pick in w.asleep {
      assert pick !in w.woken;
    }
  }

  lemma PushKeeps<T>(q: Queue<T>, t: Tid, v: T, pick: Tid)
    requires NoLostWakeup(q) && MayPush(q, t) && LegalPick(q.notEmpty, pick)
    ensures NoLostWakeup(AfterPush(q, t, v, pick))
  {
    match PushOutcome(q)
    case PushOnClosed => LeaveServed(q.notFull, t, true, q.capacity - |q.items|);
    case PushSlept => SleepServed(q.notFull, t, q.capacity - |q.items|);
    case Pushed =>
      LeaveServed(q.notFull, t, q.closed, q.capacity - |q.items|);
      NotifyServed(q.notEmpty, pick, q.closed, |q.items|);
  }

  lemma PopKeeps<T>(q: Queue<T>, t: Tid, pick: Tid)
    requires NoLostWakeup(q) && MayPop(q, t) && LegalPick(q.notFull, pick)
    ensures NoLostWakeup(AfterPop(q, t, pick))
  {
    match PopOutcome(q)
    case PopEnded => LeaveServed(q.notEmpty, t, true, |q.items|);
    case PopSlept => SleepServed(q.notEmpty, t, |q.items|);
    case Popped(_) =>
      LeaveServed(q.notEmpty, t, q.closed, |q.items|);
      NotifyServed(q.notFull, pick, q.closed, q.capacity - |q.items|);
  }

  // ---------------------------------------------------------------- runs

  datatype Event<T> =
    | PushBy(t: Tid, v: T, pick: Tid)
    | PopBy(t: Tid, pick: Tid)
    | CloseBy(t: Tid)
    | SpuriousNotFull(t: Tid)
    | SpuriousNotEmpty(t: Tid)

  predicate Enabled<T>(q: Queue<T>, e: Event<T>) {
    match e
    case PushBy(t, _, pick) => MayPush(q, t) && LegalPick(q.notEmpty, pick)
    case PopBy(t, pick) => MayPop(q, t) && LegalPick(q.notFull, pick)
    case CloseBy(t) => t !in q.Blocked()
    case SpuriousNotFull(t) => t in q.notFull.asleep
    case SpuriousNotEmpty(t) => t in q.notEmpty.asleep
  }

  function Apply<T>(q: Queue<T>, e: Event<T>): Queue<T> {
    match e
    case PushBy(t, v, pick) => AfterPush(q, t, v, pick)
    case PopBy(t, pick) => AfterPop(q, t, pick)
    case CloseBy(_) => AfterClose(q)
    case SpuriousNotFull(t) => q.(notFull := NotifyOne(q.notFull, t))
    case SpuriousNotEmpty(t) => q.(notEmpty := NotifyOne(q.notEmpty, t))
  }

  predicate IsRun<T>(q: Queue<T>, run: seq<Event<T>>) {
    run == [] || (IsRun(q, run[..|run| - 1]) && Enabled(After(q, run[..|run| - 1]), run[|run| - 1]))
  }

  function After<T>(q: Queue<T>, run: seq<Event<T>>): Queue<T> {
    if run == [] then q else Apply(After(q, run[..|run| - 1]), run[|run| - 1])
  }

  lemma StepKeeps<T>(q: Queue<T>, e: Event<T>)
    requires NoLostWakeup(q) && Enabled(q, e)
    ensures NoLostWakeup(Apply(q, e))
  {
    match e
    case PushBy(t, v, pick) => PushKeeps(q, t, v, pick);
    case PopBy(t, pick) => PopKeeps(q, t, pick);
    case CloseBy(_) =>
    case SpuriousNotFull(t) => NotifyServed(q.notFull, t, q.closed, q.capacity - |q.items|);
    case SpuriousNotEmpty(t) => NotifyServed(q.notEmpty, t, q.closed, |q.items|);
  }

  /** In every state any number of producers and consumers can reach, no wakeup is lost. */
  lemma {:induction false} ReachableNoLostWakeup<T>(capacity: nat, run: seq<Event<T>>)
    requires IsRun(Empty<T>(capacity), run)
    ensures NoLostWakeup(After(Empty<T>(capacity), run))
  {
    if run != [] {
      ReachableNoLostWakeup(capacity, run[..|run| - 1]);
      StepKeeps(After(Empty<T>(capacity), run[..|run| - 1]), run[|run| - 1]);
    }
  }

  lemma {:induction false} CapacityFixed<T>(q: Queue<T>, run: seq<Event<T>>)
    ensures After(q, run).capacity == q.capacity
  {
    if run != [] {
      CapacityFixed(q, run[..|run| - 1]);
    }
  }

  /** Somebody sleeps on each side and nobody is on the way to waking. */
  ghost predicate AllAsleep<T>(q: Queue<T>) {
    && q.notFull.asleep != {} && q.notFull.woken == {}
    && q.notEmpty.asleep != {} && q.notEmpty.woken == {}
  }

  /** Producers and consumers can end up all asleep together exactly when the capacity is 0. */
  lemma MutualSleepIffNoCapacity<T>(capacity: nat, v: T)
    ensures (exists run: seq<Event<T>> :: IsRun(Empty<T>(capacity), run) && AllAsleep(After(Empty<T>(capacity), run)))
            <==> capacity == 0
  {
    var q0 := Empty<T>(capacity);
    if capacity == 0 {
      var e0, e1: Event<T> := PushBy(0, v, 0), PopBy(1, 0);
      var run := [e0, e1];
      assert run[..1] == [e0] && [e0][..0] == [];
      assert After(q0, []) == q0 && IsRun(q0, []);
      assert After(q0, [e0]) == Apply(q0, e0) && IsRun(q0, [e0]);
      assert After(q0, run) == Apply(Apply(q0, e0), e1) && IsRun(q0, run);
      assert 0 in Apply(q0, e0).notFull.asleep;
      assert 1 in After(q0, run).notEmpty.asleep && 0 in After(q0, run).notFull.asleep;
      assert AllAsleep(After(q0, run));
      assert exists run: seq<Event<T>> :: IsRun(q0, run) && AllAsleep(After(q0, run));
    } else {
      forall run: seq<Event<T>> | IsRun(q0, run) ensures !AllAsleep(After(q0, run)) {
        ReachableNoLostWakeup(capacity, run);
        CapacityFixed(q0, run);
      }
    }
  }

  lemma FewerAsleep(w: Waiters, pick: Tid)
    requires LegalPick(w, pick) && w.asleep != {}
    ensures |NotifyOne(w, pick).asleep| == |w.asleep| - 1
  {
    Without(w.asleep, pick);
  }

  /** No stampede: a push wakes exactly one sleeping consumer, a pop exactly one sleeping producer, if there is one. */
  lemma OneWakeupEach<T>(q: Queue<T>, t: Tid, v: T, pick: Tid)
    ensures MayPush(q, t) && LegalPick(q.notEmpty, pick) && PushOutcome(q).Pushed? && q.notEmpty.asleep != {} ==>
      |AfterPush(q, t, v, pick).notEmpty.asleep| == |q.notEmpty.asleep| - 1
    ensures MayPop(q, t) && LegalPick(q.notFull, pick) && PopOutcome(q).Popped? && q.notFull.asleep != {} ==>
      |AfterPop(q, t, pick).notFull.asleep| == |q.notFull.asleep| - 1
  {
    if LegalPick(q.notEmpty, pick) && q.notEmpty.asleep != {} {
      FewerAsleep(q.notEmpty, pick);
    }
    if LegalPick(q.notFull, pick) && q.notFull.asleep != {} {
      FewerAsleep(q.notFull, pick);
    }
  }

  /** A sleeper is never forgotten: if there is something for it to take, or the queue is
      closed, some waiter on its side is runnable (or, once closed, nobody sleeps at all). */
  lemma SleepersAreServed<T>(capacity: nat, run: seq<Event<T>>)
    requires IsRun(Empty<T>(capacity), run)
    ensures var q := After(Empty<T>(capacity), run);
      && (q.notEmpty.asleep != {} && q.items != [] ==> q.notEmpty.woken != {})
      && (q.notFull.asleep != {} && |q.items| < capacity ==> q.notFull.woken != {})
      && (q.closed ==> q.notEmpty.asleep == {} && q.notFull.asleep == {})
  {
    ReachableNoLostWakeup(capacity, run);
    CapacityFixed(Empty<T>(capacity), run);
  }

  /** What one event accepts and hands out. */
  function Takes<T>(q: Queue<T>, e: Event<T>): seq<T> {
    if e.PushBy? && PushOutcome(q).Pushed? then [e.v] else []
  }

  function Gives<T>(q: Queue<T>, e: Event<T>): seq<T> {
    if e.PopBy? && PopOutcome(q).Popped? then [PopOutcome(q).value] else []
  }

  /** Values accepted, in order, and values handed out, in order. */
  function Accepted<T>(q: Queue<T>, run: seq<Event<T>>): seq<T> {
    if run == [] then []
    else Accepted(q, run[..|run| - 1]) + Takes(After(q, run[..|run| - 1]), run[|run| - 1])
  }

  function HandedOut<T>(q: Queue<T>, run: seq<Event<T>>): seq<T> {
    if run == [] then []
    else HandedOut(q, run[..|run| - 1]) + Gives(After(q, run[..|run| - 1]), run[|run| - 1])
  }

  lemma StepConserves<T>(q: Queue<T>, e: Event<T>)
    ensures q.items + Takes(q, e) == Gives(q, e) + Apply(q, e).items
    ensures q.closed ==> Apply(q, e).closed && Takes(q, e) == []
  {
  }

  lemma Rejoin<T>(accepted: seq<T>, handed: seq<T>, items: seq<T>, takes: seq<T>, gives: seq<T>, after: seq<T>)
    requires accepted == handed + items && items + takes == gives + after
    ensures accepted + takes == (handed + gives) + after
  {
    calc {
      accepted + takes;
      (handed + items) + takes;
      handed + (items + takes);
      handed + (gives + after);
      (handed + gives) + after;
    }
  }

  /** First in, first out, nothing lost and nothing invented, over every run: what a queue
      holds followed by what it accepts is what it hands out followed by what it still holds. */
  lemma {:induction false} FifoConservation<T>(q: Queue<T>, run: seq<Event<T>>)
    ensures q.items + Accepted(q, run) == HandedOut(q, run) + After(q, run).items
  {
    if run != [] {
      var front, e := run[..|run| - 1], run[|run| - 1];
      var p := After(q, front);
      FifoConservation(q, front);
      StepConserves(p, e);
      Rejoin(q.items + Accepted(q, front), HandedOut(q, front), p.items, Takes(p, e), Gives(p, e), Apply(p, e).items);
      assert q.items + Accepted(q, run) == q.items + Accepted(q, front) + Takes(p, e);
    }
  }

  /** After Close nothing more is accepted, whatever the threads do. */
  lemma {:induction false} ClosedOnlyDrains<T>(q: Queue<T>, run: seq<Event<T>>)
    requires q.closed
    ensures After(q, run).closed && Accepted(q, run) == []
    ensures q.items == HandedOut(q, run) + After(q, run).items
  {
    FifoConservation(q, run);
    if run != [] {
      ClosedOnlyDrains(q, run[..|run| - 1]);
      StepConserves(After(q, run[..|run| - 1]), run[|run| - 1]);
    }
  }
}
