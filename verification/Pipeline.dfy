/** The two-stage overlapped experiment: a stage A thread and a stage B thread joined by the
    bounded queue, with first-error capture, against the serial loop as its specification. */
module Pipeline {
  import opened BatchPlan
  import Q = BoundedQueue

  datatype StageAOutput = StageAOutput(slice: BatchSlice, data: nat)
  datatype BatchOutcome = BatchOutcome(slice: BatchSlice, result: nat)

  /** The plan and the two stages as functions of a slice; a stage may also fail at any call. */
  datatype Work = Work(plan: seq<BatchSlice>, stageA: BatchSlice -> nat, stageB: (BatchSlice, nat) -> nat) {
    function RunA(i: nat): StageAOutput
      requires i < |plan|
    {
      StageAOutput(plan[i], stageA(plan[i]))
    }

    function RunB(x: StageAOutput): BatchOutcome { BatchOutcome(x.slice, stageB(x.slice, x.data)) }
  }

  /** Outcomes of the serial loop over the first n slices. */
  function Serial(w: Work, n: nat): (s: seq<BatchOutcome>)
    requires n <= |w.plan|
    ensures |s| == n
  {
    if n == 0 then [] else Serial(w, n - 1) + [w.RunB(w.RunA(n - 1))]
  }

  /** Outcome i is stage B run on slice i and on what stage A makes of it. */
  lemma {:induction false} SerialAt(w: Work, n: nat, i: nat)
    requires i < n <= |w.plan|
    ensures Serial(w, n)[i] == BatchOutcome(w.plan[i], w.stageB(w.plan[i], w.stageA(w.plan[i])))
  {
    if i < n - 1 {
      SerialAt(w, n - 1, i);
    }
  }

  method RunSerialExperiment(w: Work) returns (outcomes: seq<BatchOutcome>)
    ensures outcomes == Serial(w, |w.plan|)
    ensures |outcomes| == |w.plan|
    ensures forall i :: 0 <= i < |outcomes| ==> outcomes[i] == BatchOutcome(w.plan[i], w.stageB(w.plan[i], w.stageA(w.plan[i])))
  {
    outcomes := [];
    for i := 0 to |w.plan|
      invariant outcomes == Serial(w, i)
    {
      var a := w.RunA(i);
      outcomes := outcomes + [w.RunB(a)];
    }
    forall i | 0 <= i < |outcomes| ensures outcomes[i] == BatchOutcome(w.plan[i], w.stageB(w.plan[i], w.stageA(w.plan[i]))) {
      SerialAt(w, |w.plan|, i);
    }
  }

  // ---------------------------------------------------------------- the step system

  const A: Q.Tid := 0
  const B: Q.Tid := 1

  /** What a stage thread can throw: a failure of its own, or Push on a closed queue. */
  datatype Failure = StageFailure(thread: Q.Tid, id: nat) | PushClosed

  datatype APc = ASetup | ACompute | APush(item: StageAOutput) | ATeardown | AClose
               | ACatch(thrown: Failure) | ACatchClose | ADone
  datatype BPc = BSetup | BPop | BCompute(task: StageAOutput) | BStore(outcome: BatchOutcome) | BTeardown
               | BCatch(thrown: Failure) | BCatchClose | BDone

  /** next counts slices whose push completed; failures logs stage failures in the order thrown. */
  datatype State = State(q: Q.Queue<StageAOutput>, a: APc, b: BPc, next: nat, outcomes: seq<BatchOutcome>,
                         workerError: seq<Failure>, failures: seq<Failure>)

  function Init(depth: nat): State {
    State(Q.Empty(depth), ASetup, BSetup, 0, [], [], [])
  }

  /** AFail and BFail make the next stage call or CUDA call throw; the other steps succeed. */
  datatype Event = AStep | AFail(id: nat) | BStep | BFail(id: nat) | WakeA | WakeB

  function Record(error: seq<Failure>, e: Failure): seq<Failure> {
    if error == [] then [e] else error
  }

  /** Stage A's next step, failures aside. */
  function StepA(w: Work, s: State): State
    requires s.next <= |w.plan| && s.a != ADone
  {
    match s.a
    case ASetup => s.(a := ACompute)
    case ACompute => if s.next < |w.plan| then s.(a := APush(w.RunA(s.next))) else s.(a := ATeardown)
    case APush(item) =>
      var q := Q.AfterPush(s.q, A, item, B);
      (match Q.PushOutcome(s.q)
       case Pushed => s.(q := q, a := ACompute, next := s.next + 1)
       case PushSlept => s.(q := q)
       case PushOnClosed => s.(q := q, a := ACatch(PushClosed)))
    case ATeardown => s.(a := AClose)
    case AClose => s.(q := Q.AfterClose(s.q), a := ADone)
    case ACatch(e) => s.(workerError := Record(s.workerError, e), a := ACatchClose)
    case ACatchClose => s.(q := Q.AfterClose(s.q), a := ADone)
    case ADone => s
  }

  function StepB(w: Work, s: State): State
    requires s.b != BDone
  {
    match s.b
    case BSetup => s.(b := BPop)
    case BPop =>
      var q := Q.AfterPop(s.q, B, A);
      (match Q.PopOutcome(s.q)
       case Popped(task) => s.(q := q, b := BCompute(task))
       case PopSlept => s.(q := q)
       case PopEnded => s.(q := q, b := BTeardown))
    case BCompute(task) => s.(b := BStore(w.RunB(task)))
    case BStore(outcome) => s.(outcomes := s.outcomes + [outcome], b := BPop)
    case BTeardown => s.(b := BDone)
    case BCatch(e) => s.(workerError := Record(s.workerError, e), b := BCatchClose)
    case BCatchClose => s.(q := Q.AfterClose(s.q), b := BDone)
    case BDone => s
  }

  predicate Enabled(w: Work, s: State, e: Event) {
    match e
    case AStep => s.next <= |w.plan| && s.a != ADone && A !in s.q.notFull.asleep
    case AFail(_) => s.a.ASetup? || s.a.ATeardown? || (s.a.ACompute? && s.next < |w.plan|)
    case BStep => s.b != BDone && B !in s.q.notEmpty.asleep
    case BFail(_) => s.b.BSetup? || s.b.BTeardown? || s.b.BCompute?
    case WakeA => A in s.q.notFull.asleep
    case WakeB => B in s.q.notEmpty.asleep
  }

  function Apply(w: Work, s: State, e: Event): State
    requires Enabled(w, s, e)
  {
    match e
    case AStep => StepA(w, s)
    case AFail(id) => s.(a := ACatch(StageFailure(A, id)), failures := s.failures + [StageFailure(A, id)])
    case BStep => StepB(w, s)
    case BFail(id) => s.(b := BCatch(StageFailure(B, id)), failures := s.failures + [StageFailure(B, id)])
    case WakeA => s.(q := s.q.(notFull := Q.NotifyOne(s.q.notFull, A)))
    case WakeB => s.(q := s.q.(notEmpty := Q.NotifyOne(s.q.notEmpty, B)))
  }

  /** The states visited by a run, first to last. */
  ghost predicate IsRun(w: Work, depth: nat, run: seq<Event>, states: seq<State>) {
    && |states| == |run| + 1 && states[0] == Init(depth)
    && forall i :: 0 <= i < |run| ==> Enabled(w, states[i], run[i]) && states[i + 1] == Apply(w, states[i], run[i])
  }

  predicate Finished(s: State) { s.a == ADone && s.b == BDone }

  // ---------------------------------------------------------------- the invariant

  function Popped(s: State): int { s.next - |s.q.items| }

  /** Stage A: in a wait only while pushing; its item is the next slice's output. */
  ghost predicate InvA(w: Work, s: State) {
    && s.next <= |w.plan|
    && s.q.notFull.All() <= (if s.a.APush? then {A} else {})
    && (s.a.APush? ==> s.next < |w.plan| && s.a.item == w.RunA(s.next))
    && (s.a.ATeardown? || s.a.AClose? ==> s.next == |w.plan|)
    && (s.a.ACatch? ==> if s.a.thrown == PushClosed then s.q.closed && s.workerError != [] else s.a.thrown in s.failures)
    && (s.a == ADone ==> s.q.closed)
    && (s.a == ACatchClose ==> s.workerError != [])
    && (s.a == ADone && s.workerError == [] ==> s.next == |w.plan|)
  }

  /** Stage B: what was popped is what has been stored, plus at most one slice in hand. */
  ghost predicate InvB(w: Work, s: State) {
    && s.next <= |w.plan|
    && s.q.notEmpty.All() <= (if s.b.BPop? then {B} else {})
    && 0 <= Popped(s) && |s.outcomes| <= Popped(s) <= |s.outcomes| + 1
    && (s.b.BCompute? ==> Popped(s) == |s.outcomes| + 1 && s.b.task == w.RunA(|s.outcomes|))
    && (s.b.BStore? ==> Popped(s) == |s.outcomes| + 1 && s.b.outcome == w.RunB(w.RunA(|s.outcomes|)))
    && (s.b.BSetup? || s.b.BPop? || s.b.BTeardown? ==> Popped(s) == |s.outcomes|)
    && (s.b.BTeardown? ==> s.q.closed && s.q.items == [])
    && (s.b.BCatch? ==> s.b.thrown in s.failures && s.b.thrown != PushClosed)
    && (s.b == BCatchClose ==> s.workerError != [])
    && (s.b == BDone ==> s.q.closed)
    && (s.b == BDone && s.workerError == [] ==> s.q.items == [] && Popped(s) == |s.outcomes|)
  }

  /** The queue holds the stage A outputs of the slices after the popped ones, in plan order,
      and the stored outcomes are the serial loop's, in order. */
  ghost predicate InvData(w: Work, s: State)
    requires s.next <= |w.plan| && 0 <= Popped(s) && |s.outcomes| <= |w.plan|
  {
    && (forall i :: 0 <= i < |s.q.items| ==> s.q.items[i] == w.RunA(Popped(s) + i))
    && s.outcomes == Serial(w, |s.outcomes|)
  }

  /** Errors: the recorded one is a stage failure; a closed queue has a finished stage A that
      pushed everything, or a recorded error; a failure is on its way to being recorded. */
  ghost predicate InvError(w: Work, s: State) {
    && |s.workerError| <= 1
    && (s.workerError != [] ==> s.workerError[0] in s.failures && s.workerError[0] != PushClosed)
    && (s.q.closed && s.workerError == [] ==> s.a == ADone)
    && (s.failures != [] && s.workerError == [] ==> s.a.ACatch? || s.b.BCatch?)
    && PushClosed !in s.failures
  }

  ghost predicate Inv(w: Work, s: State) {
    && Q.NoLostWakeup(s.q) && InvA(w, s) && InvB(w, s) && InvData(w, s) && InvError(w, s)
  }

  lemma {:induction false} SerialPrefix(w: Work, m: nat, n: nat)
    requires m <= n <= |w.plan|
    ensures Serial(w, n)[..m] == Serial(w, m)
  {
    if m < n {
      SerialPrefix(w, m, n - 1);
    }
  }

  lemma InitInv(w: Work, depth: nat)
    ensures Inv(w, Init(depth))
  {
  }

  lemma OnlyWaiterLeaves(w: Q.Waiters, t: Q.Tid)
    requires w.All() <= {t}
    ensures Q.Leave(w, t).All() == {} && Q.Sleep(w, t).All() <= {t}
  {
  }

  lemma NotifyKeepsAll(w: Q.Waiters, pick: Q.Tid)
    ensures Q.NotifyOne(w, pick).All() == w.All()
  {
  }

  lemma DataAfterPush(w: Work, s: State, s': State)
    requires s.next < |w.plan| && 0 <= Popped(s) && |s.outcomes| <= |w.plan| && InvData(w, s)
    requires s'.next == s.next + 1 && s'.outcomes == s.outcomes && s'.q.items == s.q.items + [w.RunA(s.next)]
    ensures Popped(s') == Popped(s) && InvData(w, s')
  {
  }

  lemma DataAfterPop(w: Work, s: State, s': State)
    requires s.next <= |w.plan| && 0 <= Popped(s) && |s.outcomes| <= |w.plan| && InvData(w, s)
    requires s'.next == s.next && s'.outcomes == s.outcomes && s.q.items != [] && s'.q.items == s.q.items[1..]
    ensures Popped(s') == Popped(s) + 1 && InvData(w, s') && s.q.items[0] == w.RunA(Popped(s))
  {
    assert s.q.items[0] == w.RunA(Popped(s) + 0);
    forall i | 0 <= i < |s'.q.items| ensures s'.q.items[i] == w.RunA(Popped(s') + i) {
      assert s.q.items[i + 1] == w.RunA(Popped(s) + (i + 1));
    }
  }

  /** Steps that move no data keep what is known about it. */
  lemma SameData(w: Work, s: State, s': State)
    requires s.next <= |w.plan| && 0 <= Popped(s) && |s.outcomes| <= |w.plan| && InvData(w, s)
    requires s'.q.items == s.q.items && s'.next == s.next && s'.outcomes == s.outcomes
    ensures Popped(s') == Popped(s) && InvData(w, s')
  {
  }

  lemma PushedInv(w: Work, s: State)
    requires Inv(w, s) && Enabled(w, s, AStep) && s.a.APush? && Q.PushOutcome(s.q).Pushed?
    ensures Inv(w, StepA(w, s))
  {
    var s' := StepA(w, s);
    assert Q.NoLostWakeup(s'.q) by { Q.PushKeeps(s.q, A, s.a.item, B); }
    DataAfterPush(w, s, s');
    assert InvA(w, s') by { OnlyWaiterLeaves(s.q.notFull, A); }
    assert InvB(w, s') by { NotifyKeepsAll(s.q.notEmpty, B); }
  }

  lemma PushSleptInv(w: Work, s: State)
    requires Inv(w, s) && Enabled(w, s, AStep) && s.a.APush? && Q.PushOutcome(s.q).PushSlept?
    ensures Inv(w, StepA(w, s))
  {
    var s' := StepA(w, s);
    assert Q.NoLostWakeup(s'.q) by { Q.PushKeeps(s.q, A, s.a.item, B); }
    assert InvA(w, s') by { OnlyWaiterLeaves(s.q.notFull, A); }
    SameData(w, s, s');
  }

  lemma PushClosedInv(w: Work, s: State)
    requires Inv(w, s) && Enabled(w, s, AStep) && s.a.APush? && Q.PushOutcome(s.q).PushOnClosed?
    ensures Inv(w, StepA(w, s))
  {
    var s' := StepA(w, s);
    assert Q.NoLostWakeup(s'.q) by { Q.PushKeeps(s.q, A, s.a.item, B); }
    assert InvA(w, s') by { OnlyWaiterLeaves(s.q.notFull, A); }
    SameData(w, s, s');
  }

  lemma CloseAInv(w: Work, s: State)
    requires Inv(w, s) && (s.a == AClose || s.a == ACatchClose)
    ensures Inv(w, StepA(w, s))
  {
    var s' := StepA(w, s);
    assert Q.NoLostWakeup(s'.q);
    assert s'.q.items == s.q.items && Popped(s') == Popped(s);
    assert InvA(w, s') && InvB(w, s') && InvError(w, s');
  }

  lemma AStepInv(w: Work, s: State)
    requires Inv(w, s) && Enabled(w, s, AStep)
    ensures Inv(w, StepA(w, s))
  {
    if s.a.APush? {
      match Q.PushOutcome(s.q)
      case Pushed => PushedInv(w, s);
      case PushSlept => PushSleptInv(w, s);
      case PushOnClosed => PushClosedInv(w, s);
    } else if s.a == AClose || s.a == ACatchClose {
      CloseAInv(w, s);
    } else {
      var s' := StepA(w, s);
      assert s'.q == s.q && Popped(s') == Popped(s);
      assert InvA(w, s') && InvB(w, s') && InvError(w, s');
    }
  }

  lemma PoppedInv(w: Work, s: State)
    requires Inv(w, s) && Enabled(w, s, BStep) && s.b.BPop? && Q.PopOutcome(s.q).Popped?
    ensures Inv(w, StepB(w, s))
  {
    var s' := StepB(w, s);
    assert Q.NoLostWakeup(s'.q) by { Q.PopKeeps(s.q, B, A); }
    DataAfterPop(w, s, s');
    assert InvA(w, s') by { NotifyKeepsAll(s.q.notFull, A); }
    assert InvB(w, s') by { OnlyWaiterLeaves(s.q.notEmpty, B); }
  }

  lemma PopBlockedInv(w: Work, s: State)
    requires Inv(w, s) && Enabled(w, s, BStep) && s.b.BPop? && !Q.PopOutcome(s.q).Popped?
    ensures Inv(w, StepB(w, s))
  {
    var s' := StepB(w, s);
    assert Q.NoLostWakeup(s'.q) by { Q.PopKeeps(s.q, B, A); }
    assert s'.q.items == s.q.items && Popped(s') == Popped(s);
    assert InvB(w, s') by { OnlyWaiterLeaves(s.q.notEmpty, B); }
    assert InvA(w, s') && InvError(w, s');
  }

  lemma CloseBInv(w: Work, s: State)
    requires Inv(w, s) && s.b == BCatchClose
    ensures Inv(w, StepB(w, s))
  {
    var s' := StepB(w, s);
    assert Q.NoLostWakeup(s'.q);
    assert s'.q.items == s.q.items && Popped(s') == Popped(s);
    assert InvA(w, s') && InvB(w, s') && InvError(w, s');
  }

  lemma BStepInv(w: Work, s: State)
    requires Inv(w, s) && Enabled(w, s, BStep)
    ensures Inv(w, StepB(w, s))
  {
    if s.b.BPop? {
      if Q.PopOutcome(s.q).Popped? {
        PoppedInv(w, s);
      } else {
        PopBlockedInv(w, s);
      }
    } else if s.b == BCatchClose {
      CloseBInv(w, s);
    } else {
      var s' := StepB(w, s);
      assert s'.q == s.q && Popped(s') == Popped(s);
      assert InvA(w, s') && InvB(w, s') && InvError(w, s');
    }
  }

  lemma StepInv(w: Work, s: State, e: Event)
    requires Inv(w, s) && Enabled(w, s, e)
    ensures Inv(w, Apply(w, s, e))
  {
    match e
    case AStep => AStepInv(w, s);
    case BStep => BStepInv(w, s);
    case AFail(_) => FailInv(w, s, e);
    case BFail(_) => FailInv(w, s, e);
    case WakeA => WakeInv(w, s, e);
    case WakeB => WakeInv(w, s, e);
  }

  lemma FailInv(w: Work, s: State, e: Event)
    requires Inv(w, s) && Enabled(w, s, e) && (e.AFail? || e.BFail?)
    ensures Inv(w, Apply(w, s, e))
  {
    SameData(w, s, Apply(w, s, e));
  }

  lemma WakeInv(w: Work, s: State, e: Event)
    requires Inv(w, s) && Enabled(w, s, e) && (e.WakeA? || e.WakeB?)
    ensures Inv(w, Apply(w, s, e))
  {
    SameData(w, s, Apply(w, s, e));
    if e.WakeA? {
      Q.NotifyServed(s.q.notFull, A, s.q.closed, s.q.capacity - |s.q.items|);
    } else {
      Q.NotifyServed(s.q.notEmpty, B, s.q.closed, |s.q.items|);
    }
  }
}
