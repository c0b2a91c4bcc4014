/** Which of two stage failures the overlapped experiment reports. */
module PipelineErrors {
  import opened Pipeline
  import opened PipelineTheorems
  import Q = BoundedQueue

  // ---------------------------------------------------------------- failures and catch blocks

  predicate Caught(s: State, t: Q.Tid) {
    if t == A then s.a.ACatch? || s.a == ACatchClose || s.a == ADone else s.b.BCatch? || s.b == BCatchClose || s.b == BDone
  }

  predicate Reporting(s: State, t: Q.Tid) {
    if t == A then s.a.ACatch? else s.b.BCatch?
  }

  /** A thread throws at most one stage failure, then runs its catch block, which holds its own failure. */
  ghost predicate FailuresFit(s: State) {
    && (forall i :: 0 <= i < |s.failures| ==> s.failures[i].StageFailure? && (s.failures[i].thread == A || s.failures[i].thread == B))
    && (forall i :: 0 <= i < |s.failures| ==> Caught(s, s.failures[i].thread))
    && (s.workerError == [] ==> forall i :: 0 <= i < |s.failures| ==> Reporting(s, s.failures[i].thread))
    && (forall i, j :: 0 <= i < j < |s.failures| ==> s.failures[i].thread != s.failures[j].thread)
    && (s.a.ACatch? && s.a.thrown != PushClosed ==> s.a.thrown.thread == A)
    && (s.b.BCatch? ==> s.b.thrown.StageFailure? && s.b.thrown.thread == B)
  }

  lemma StepFits(w: Work, s: State, e: Event)
    requires FailuresFit(s) && Enabled(w, s, e)
    ensures FailuresFit(Apply(w, s, e))
  {
    match e
    case AStep => AStepFits(w, s);
    case BStep => BStepFits(w, s);
    case AFail(_) => FailFits(w, s, e);
    case BFail(_) => FailFits(w, s, e);
    case WakeA =>
    case WakeB =>
  }

  lemma FailFits(w: Work, s: State, e: Event)
    requires FailuresFit(s) && Enabled(w, s, e) && (e.AFail? || e.BFail?)
    ensures FailuresFit(Apply(w, s, e))
  {
    var t := if e.AFail? then A else B;
    assert forall i :: 0 <= i < |s.failures| ==> s.failures[i].thread != t;
  }

  lemma AStepFits(w: Work, s: State)
    requires FailuresFit(s) && Enabled(w, s, AStep)
    ensures FailuresFit(StepA(w, s))
  {
  }

  lemma BStepFits(w: Work, s: State)
    requires FailuresFit(s) && Enabled(w, s, BStep)
    ensures FailuresFit(StepB(w, s))
  {
  }

  lemma {:induction false} ReachableFits(w: Work, depth: nat, run: seq<Event>, states: seq<State>, i: nat)
    requires IsRun(w, depth, run, states) && i < |states|
    ensures FailuresFit(states[i])
  {
    if i > 0 {
      ReachableFits(w, depth, run, states, i - 1);
      assert states[i] == Apply(w, states[i - 1], run[i - 1]);
      StepFits(w, states[i - 1], run[i - 1]);
    }
  }

  lemma StepAppends(w: Work, s: State, e: Event)
    requires Enabled(w, s, e)
    ensures s.failures <= Apply(w, s, e).failures
  {
  }

  lemma {:induction false} FailuresGrow(w: Work, depth: nat, run: seq<Event>, states: seq<State>, i: nat, j: nat)
    requires IsRun(w, depth, run, states) && i <= j < |states|
    ensures states[i].failures <= states[j].failures
    decreases j
  {
    if i < j {
      FailuresGrow(w, depth, run, states, i, j - 1);
      StepAppends(w, states[j - 1], run[j - 1]);
    }
  }

  // ---------------------------------------------------------------- the first report

  /** A thread reports from its catch block, and nothing has been recorded. */
  predicate FirstReport(s: State, e: Event) {
    s.workerError == [] && ((e == AStep && s.a.ACatch?) || (e == BStep && s.b.BCatch?))
  }

  function Reporter(e: Event): Q.Tid { if e == AStep then A else B }

  /** Every run that has recorded an error has exactly one first report. */
  lemma {:induction false} OneFirstReport(w: Work, depth: nat, run: seq<Event>, states: seq<State>, n: nat) returns (i: nat)
    requires IsRun(w, depth, run, states) && n < |states| && states[n].workerError != []
    ensures i < n && FirstReport(states[i], run[i])
    ensures forall j :: 0 <= j < |run| && FirstReport(states[j], run[j]) ==> j == i
    decreases n
  {
    assert n > 0;
    assert states[n] == Apply(w, states[n - 1], run[n - 1]);
    if states[n - 1].workerError != [] {
      i := OneFirstReport(w, depth, run, states, n - 1);
    } else {
      i := n - 1;
      forall j | 0 <= j < |run| && FirstReport(states[j], run[j]) ensures j == i {
        if j < i {
          assert states[j + 1] == Apply(w, states[j], run[j]);
          FirstRecordedStays(w, depth, run, states, j + 1, i);
        } else if j > i {
          FirstRecordedStays(w, depth, run, states, n, j);
        }
      }
    }
  }

  /** What is reported first is the reporting thread's own failure. */
  lemma ReportIsOwn(w: Work, depth: nat, run: seq<Event>, states: seq<State>, i: nat)
    requires IsRun(w, depth, run, states) && i < |run| && FirstReport(states[i], run[i])
    ensures states[|run|].workerError == states[i + 1].workerError && |states[i + 1].workerError| == 1
    ensures states[i + 1].workerError[0].StageFailure? && states[i + 1].workerError[0].thread == Reporter(run[i])
    ensures states[i + 1].workerError[0] in states[i].failures
  {
    ReachableInv(w, depth, run, states, i);
    ReachableFits(w, depth, run, states, i);
    assert states[i + 1] == Apply(w, states[i], run[i]);
    FirstRecordedStays(w, depth, run, states, i + 1, |run|);
  }

  /** For every finished run with a failure: the first failure thrown is the one rethrown if and only if
      the first thread to report is the one that threw first. That is so whenever it reports before
      another failure is thrown. */
  lemma FirstThrownReportedIff(w: Work, depth: nat, run: seq<Event>, states: seq<State>, i: nat)
    requires IsRun(w, depth, run, states) && i < |run| && FirstReport(states[i], run[i])
    ensures states[|run|].failures != [] && states[|run|].failures[0].StageFailure?
    ensures states[|run|].workerError == [states[|run|].failures[0]] <==> Reporter(run[i]) == states[|run|].failures[0].thread
    ensures |states[i].failures| == 1 ==> states[|run|].workerError == [states[|run|].failures[0]]
  {
    var last := states[|run|];
    ReportIsOwn(w, depth, run, states, i);
    FailuresGrow(w, depth, run, states, i, |run|);
    ReachableFits(w, depth, run, states, |run|);
    var k :| 0 <= k < |states[i].failures| && states[i].failures[k] == last.workerError[0];
    assert last.failures[k] == last.workerError[0];
  }

  /** A finished run has a first report exactly if some stage failed. */
  lemma ReportIffFailure(w: Work, depth: nat, run: seq<Event>, states: seq<State>)
    requires IsRun(w, depth, run, states) && Finished(states[|run|])
    ensures states[|run|].failures != [] <==> exists i :: 0 <= i < |run| && FirstReport(states[i], run[i])
  {
    RethrownErrorIsStageFailure(w, depth, run, states);
    if states[|run|].failures != [] {
      var i := OneFirstReport(w, depth, run, states, |run|);
    }
    if i :| 0 <= i < |run| && FirstReport(states[i], run[i]) {
      FirstThrownReportedIff(w, depth, run, states, i);
    }
  }

  // ---------------------------------------------------------------- both reports can happen

  ghost predicate Extends(w: Work, depth: nat, run: seq<Event>, longer: seq<Event>, error: seq<Failure>) {
    run <= longer && exists states: seq<State> :: IsRun(w, depth, longer, states) && Finished(states[|longer|]) && states[|longer|].workerError == error
  }

  lemma OneMore(w: Work, depth: nat, run: seq<Event>, states: seq<State>, e: Event)
    requires IsRun(w, depth, run, states) && Enabled(w, states[|run|], e)
    ensures IsRun(w, depth, run + [e], states + [Apply(w, states[|run|], e)])
  {
  }

  /** With both failures pending and nothing recorded, the schedule still decides: either can be reported. */
  lemma BothReportsReachable(w: Work, depth: nat, run: seq<Event>, states: seq<State>, k: nat)
    requires IsRun(w, depth, run, states) && k < |states[|run|].failures| == 2 && states[|run|].workerError == []
    ensures exists longer :: Extends(w, depth, run, longer, [states[|run|].failures[k]])
  {
    var s := states[|run|];
    assert Inv(w, s) by { ReachableInv(w, depth, run, states, |run|); }
    assert FailuresFit(s) by { ReachableFits(w, depth, run, states, |run|); }
    Pending(w, s);
    OwnFailure(s, k);
    if s.failures[k].thread == A {
      CatchBoth(w, depth, run, states, AStep, BStep);
    } else {
      CatchBoth(w, depth, run, states, BStep, AStep);
    }
  }

  /** Two failures without a record: both threads stand at the start of their catch blocks. */
  lemma Pending(w: Work, s: State)
    requires Inv(w, s) && FailuresFit(s) && |s.failures| == 2 && s.workerError == []
    ensures s.a.ACatch? && s.b.BCatch? && s.a.thrown in s.failures && s.b.thrown in s.failures
    ensures s.a.thrown.StageFailure? && s.a.thrown.thread == A && s.b.thrown.thread == B
  {
    assert s.failures[0].thread != s.failures[1].thread;
    assert Reporting(s, s.failures[0].thread) && Reporting(s, s.failures[1].thread);
  }

  lemma OwnFailure(s: State, k: nat)
    requires FailuresFit(s) && k < |s.failures| == 2
    requires s.a.ACatch? && s.b.BCatch? && s.a.thrown in s.failures && s.b.thrown in s.failures
    requires s.a.thrown.StageFailure? && s.a.thrown.thread == A && s.b.thrown.thread == B
    ensures s.failures[k] == if s.failures[k].thread == A then s.a.thrown else s.b.thrown
  {
  }

  /** The two catch blocks, one step each in turn. */
  lemma CatchBoth(w: Work, depth: nat, run: seq<Event>, states: seq<State>, e: Event, f: Event)
    requires IsRun(w, depth, run, states) && states[|run|].a.ACatch? && states[|run|].b.BCatch? && states[|run|].workerError == []
    requires (e == AStep && f == BStep) || (e == BStep && f == AStep)
    ensures Extends(w, depth, run, run + [e] + [f] + [e] + [f], [if e == AStep then states[|run|].a.thrown else states[|run|].b.thrown])
  {
    var s := states[|run|];
    ReachableInv(w, depth, run, states, |run|);
    CatchSteps(w, s, e, f);
    var s1 := Apply(w, s, e);
    var s2 := Apply(w, s1, f);
    var s3 := Apply(w, s2, e);
    var s4 := Apply(w, s3, f);
    FourMore(w, depth, run, states, e, f);
    var all := states + [s1] + [s2] + [s3] + [s4];
    assert all[|run + [e] + [f] + [e] + [f]|] == s4;
    assert run <= run + [e] + [f] + [e] + [f];
  }

  lemma CatchSteps(w: Work, s: State, e: Event, f: Event)
    requires s.next <= |w.plan| && s.a.ACatch? && s.b.BCatch? && s.workerError == []
    requires s.q.notFull.All() == {} && s.q.notEmpty.All() == {}
    requires (e == AStep && f == BStep) || (e == BStep && f == AStep)
    ensures Enabled(w, s, e) && Enabled(w, Apply(w, s, e), f) && Enabled(w, Apply(w, Apply(w, s, e), f), e)
    ensures Enabled(w, Apply(w, Apply(w, Apply(w, s, e), f), e), f)
    ensures var t := Apply(w, Apply(w, Apply(w, Apply(w, s, e), f), e), f);
      Finished(t) && t.workerError == [if e == AStep then s.a.thrown else s.b.thrown]
  {
  }

  lemma FourMore(w: Work, depth: nat, run: seq<Event>, states: seq<State>, e: Event, f: Event)
    requires IsRun(w, depth, run, states)
    requires Enabled(w, states[|run|], e)
    requires Enabled(w, Apply(w, states[|run|], e), f)
    requires Enabled(w, Apply(w, Apply(w, states[|run|], e), f), e)
    requires Enabled(w, Apply(w, Apply(w, Apply(w, states[|run|], e), f), e), f)
    ensures var s1 := Apply(w, states[|run|], e); var s2 := Apply(w, s1, f); var s3 := Apply(w, s2, e); var s4 := Apply(w, s3, f);
      IsRun(w, depth, run + [e] + [f] + [e] + [f], states + [s1] + [s2] + [s3] + [s4])
  {
    var s1 := Apply(w, states[|run|], e);
    var s2 := Apply(w, s1, f);
    var s3 := Apply(w, s2, e);
    OneMore(w, depth, run, states, e);
    OneMore(w, depth, run + [e], states + [s1], f);
    OneMore(w, depth, run + [e] + [f], states + [s1] + [s2], e);
    OneMore(w, depth, run + [e] + [f] + [e], states + [s1] + [s2] + [s3], f);
  }

  // ---------------------------------------------------------------- every call can be the one that fails

  /** Both threads between slices: n slices have gone all the way through. */
  function Ready(w: Work, depth: nat, n: nat): State
    requires n <= |w.plan|
  {
    State(Q.Empty(depth), ACompute, BPop, n, Serial(w, n), [], [])
  }

  ghost predicate Reaches(w: Work, depth: nat, s: State) {
    exists run: seq<Event>, states: seq<State> :: IsRun(w, depth, run, states) && states[|run|] == s
  }

  lemma ReachesNext(w: Work, depth: nat, s: State, e: Event)
    requires Reaches(w, depth, s) && Enabled(w, s, e)
    ensures Reaches(w, depth, Apply(w, s, e))
  {
    var run, states :| IsRun(w, depth, run, states) && states[|run|] == s;
    OneMore(w, depth, run, states, e);
    assert (states + [Apply(w, s, e)])[|run + [e]|] == Apply(w, s, e);
  }

  lemma ReachesInit(w: Work, depth: nat)
    ensures Reaches(w, depth, Init(depth))
  {
    var run: seq<Event>, states := [], [Init(depth)];
    assert IsRun(w, depth, run, states) && states[|run|] == Init(depth);
  }

  /** Stage B has taken slice n and is about to run on it. */
  function Taken(w: Work, depth: nat, n: nat): State
    requires n < |w.plan|
  {
    Ready(w, depth, n).(b := BCompute(w.RunA(n)), next := n + 1)
  }

  lemma QuietQueue(depth: nat, t: Q.Tid, item: StageAOutput, pick: Q.Tid)
    requires depth > 0
    ensures Q.PushOutcome(Q.Empty<StageAOutput>(depth)).Pushed?
    ensures Q.AfterPush(Q.Empty(depth), t, item, pick) == Q.Empty(depth).(items := [item])
    ensures Q.AfterPop(Q.Empty(depth).(items := [item]), t, pick) == Q.Empty(depth)
    ensures Q.PopOutcome(Q.Empty(depth).(items := [item])) == Q.Popped(item)
  {
  }

  lemma TakeSlice(w: Work, depth: nat, n: nat)
    requires depth > 0 && n < |w.plan| && Reaches(w, depth, Ready(w, depth, n))
    ensures Reaches(w, depth, Taken(w, depth, n))
  {
    var s, item := Ready(w, depth, n), w.RunA(n);
    QuietQueue(depth, A, item, B);
    QuietQueue(depth, B, item, A);
    ReachesNext(w, depth, s, AStep);
    ReachesNext(w, depth, s.(a := APush(item)), AStep);
    ReachesNext(w, depth, s.(q := Q.Empty(depth).(items := [item]), next := n + 1), BStep);
  }

  lemma StoreSlice(w: Work, depth: nat, n: nat)
    requires n < |w.plan| && Reaches(w, depth, Taken(w, depth, n))
    ensures Reaches(w, depth, Ready(w, depth, n + 1))
  {
    var s, outcome := Taken(w, depth, n), w.RunB(w.RunA(n));
    ReachesNext(w, depth, s, BStep);
    ReachesNext(w, depth, s.(b := BStore(outcome)), BStep);
  }

  lemma {:induction false} ReadyReachable(w: Work, depth: nat, n: nat)
    requires depth > 0 && n <= |w.plan|
    ensures Reaches(w, depth, Ready(w, depth, n))
  {
    if n == 0 {
      ReachesInit(w, depth);
      ReachesNext(w, depth, Init(depth), AStep);
      ReachesNext(w, depth, Init(depth).(a := ACompute), BStep);
    } else {
      ReadyReachable(w, depth, n - 1);
      TakeSlice(w, depth, n - 1);
      StoreSlice(w, depth, n - 1);
    }
  }

  /** Stage A has torn down and closed the queue, and stage B is about to tear down. */
  lemma LastTeardown(w: Work, depth: nat) returns (s: State)
    requires depth > 0
    ensures Reaches(w, depth, s) && s.b == BTeardown && s.failures == [] && |s.outcomes| == |w.plan|
  {
    var r := Ready(w, depth, |w.plan|);
    ReadyReachable(w, depth, |w.plan|);
    ReachesNext(w, depth, r, AStep);
    ReachesNext(w, depth, r.(a := ATeardown), AStep);
    ReachesNext(w, depth, r.(a := AClose), AStep);
    s := StepA(w, r.(a := AClose));
    ReachesNext(w, depth, s, BStep);
    s := StepB(w, s);
  }

  /** Call 0 of a stage thread sets up, call k in between runs its stage on slice k - 1, and the last one tears down.
      For every plan and ring depth from 1 on, any one of them can be the first failure, with exactly the calls
      before it done. */
  lemma EveryCallCanFail(w: Work, depth: nat, k: nat, id: nat)
    requires depth > 0 && k <= |w.plan| + 1
    ensures exists s :: Reaches(w, depth, s) && s.a == ACatch(StageFailure(A, id)) && s.failures == [StageFailure(A, id)]
                        && s.next == if k == 0 then 0 else k - 1
    ensures exists s :: Reaches(w, depth, s) && s.b == BCatch(StageFailure(B, id)) && s.failures == [StageFailure(B, id)]
                        && |s.outcomes| == if k == 0 then 0 else k - 1
  {
    ReachesInit(w, depth);
    var a, b := Init(depth), Init(depth);
    if k > |w.plan| {
      ReadyReachable(w, depth, |w.plan|);
      ReachesNext(w, depth, Ready(w, depth, |w.plan|), AStep);
      a := StepA(w, Ready(w, depth, |w.plan|));
      b := LastTeardown(w, depth);
    } else if k > 0 {
      ReadyReachable(w, depth, k - 1);
      TakeSlice(w, depth, k - 1);
      a, b := Ready(w, depth, k - 1), Taken(w, depth, k - 1);
    }
    ReachesNext(w, depth, a, AFail(id));
    ReachesNext(w, depth, b, BFail(id));
    assert Apply(w, a, AFail(id)).failures == [StageFailure(A, id)];
    assert Apply(w, b, BFail(id)).failures == [StageFailure(B, id)];
  }
}
