/** What every interleaving of the overlapped experiment guarantees. */
module PipelineTheorems {
  import opened BatchPlan
  import opened Pipeline
  import opened Sequences
  import Q = BoundedQueue

  // ---------------------------------------------------------------- reachability

  lemma CapacityKept(w: Work, s: State, e: Event)
    requires Enabled(w, s, e)
    ensures Apply(w, s, e).q.capacity == s.q.capacity
  {
  }

  lemma {:induction false} ReachableInv(w: Work, depth: nat, run: seq<Event>, states: seq<State>, i: nat)
    requires IsRun(w, depth, run, states) && i < |states|
    ensures Inv(w, states[i]) && states[i].q.capacity == depth
  {
    if i == 0 {
      InitInv(w, depth);
    } else {
      ReachableInv(w, depth, run, states, i - 1);
      assert states[i] == Apply(w, states[i - 1], run[i - 1]);
      StepInv(w, states[i - 1], run[i - 1]);
      CapacityKept(w, states[i - 1], run[i - 1]);
    }
  }

  // ---------------------------------------------------------------- deadlock freedom

  /** No thread can move, and they are not both finished. */
  predicate Stuck(w: Work, s: State) {
    !Finished(s) && !Enabled(w, s, AStep) && !Enabled(w, s, BStep)
  }

  lemma NeverStuck(w: Work, s: State)
    requires Inv(w, s) && (s.q.capacity > 0 || w.plan == [])
    ensures !Stuck(w, s)
  {
    assert A in s.q.notFull.asleep ==> s.q.notFull.woken == {};
    assert B in s.q.notEmpty.asleep ==> s.q.notEmpty.woken == {};
  }

  /** Some interleaving deadlocks exactly when the ring depth is 0 and there is work to do. */
  lemma DeadlockIffNoDepth(w: Work, depth: nat)
    ensures (exists run: seq<Event>, states: seq<State> :: IsRun(w, depth, run, states) && Stuck(w, states[|states| - 1]))
            <==> depth == 0 && w.plan != []
  {
    if depth == 0 && w.plan != [] {
      var s0 := Init(depth);
      var s1 := StepA(w, s0);
      var s2 := StepA(w, s1);
      var s3 := StepA(w, s2);
      var s4 := StepB(w, s3);
      var s5 := StepB(w, s4);
      var run, states := [AStep, AStep, AStep, BStep, BStep], [s0, s1, s2, s3, s4, s5];
      assert s2.a == APush(w.RunA(0)) && s2.q == s0.q;
      assert A in s3.q.notFull.asleep;
      assert B in s5.q.notEmpty.asleep && A in s5.q.notFull.asleep;
      assert IsRun(w, depth, run, states) && Stuck(w, states[|states| - 1]);
    } else {
      forall run: seq<Event>, states: seq<State> | IsRun(w, depth, run, states) ensures !Stuck(w, states[|states| - 1]) {
        ReachableInv(w, depth, run, states, |states| - 1);
        NeverStuck(w, states[|states| - 1]);
      }
    }
  }

  // ---------------------------------------------------------------- termination

  /** How far a thread inside its wait loop still is from blocking. */
  function WaitRank(w: Q.Waiters, t: Q.Tid): nat {
    if t in w.asleep then 0 else if t in w.woken then 1 else 2
  }

  function RankA(s: State): nat {
    match s.a
    case ASetup => 10
    case ACompute => 9
    case APush(_) => 6 + WaitRank(s.q.notFull, A)
    case ATeardown => 4
    case AClose => 2
    case ACatch(_) => 3
    case ACatchClose => 2
    case ADone => 0
  }

  function RankB(s: State): nat {
    match s.b
    case BSetup => 8
    case BPop => 5 + WaitRank(s.q.notEmpty, B)
    case BCompute(_) => 9
    case BStore(_) => 8
    case BTeardown => 4
    case BCatch(_) => 3
    case BCatchClose => 2
    case BDone => 0
  }

  /** Five units per slice still to be pushed, five per slice still to be popped. */
  function Measure(w: Work, s: State): int {
    10 * (|w.plan| - s.next) + 5 * |s.q.items| + RankA(s) + RankB(s)
  }

  predicate IsWake(e: Event) { e.WakeA? || e.WakeB? }

  lemma AStepDecreases(w: Work, s: State)
    requires Inv(w, s) && Enabled(w, s, AStep)
    ensures Measure(w, StepA(w, s)) < Measure(w, s)
  {
  }

  lemma BStepDecreases(w: Work, s: State)
    requires Inv(w, s) && Enabled(w, s, BStep)
    ensures Measure(w, StepB(w, s)) < Measure(w, s)
  {
  }

  /** Every step makes progress, except that a spurious wakeup costs one unit. */
  lemma StepMeasure(w: Work, s: State, e: Event)
    requires Inv(w, s) && Enabled(w, s, e)
    ensures IsWake(e) ==> Measure(w, Apply(w, s, e)) == Measure(w, s) + 1
    ensures !IsWake(e) ==> Measure(w, Apply(w, s, e)) < Measure(w, s)
  {
    match e
    case AStep => AStepDecreases(w, s);
    case BStep => BStepDecreases(w, s);
    case AFail(_) =>
    case BFail(_) =>
    case WakeA =>
    case WakeB =>
  }

  function Wakes(run: seq<Event>): (n: nat)
    ensures n <= |run|
  {
    if run == [] then 0 else Wakes(run[..|run| - 1]) + if IsWake(run[|run| - 1]) then 1 else 0
  }

  /** One step of a run: it goes from the invariant, and lowers the measure or costs one unit. */
  lemma RunStep(w: Work, depth: nat, run: seq<Event>, states: seq<State>, i: nat)
    requires IsRun(w, depth, run, states) && i < |run|
    ensures Measure(w, states[i + 1]) <= Measure(w, states[i]) + if IsWake(run[i]) then 1 else -1
  {
    ReachableInv(w, depth, run, states, i);
    StepMeasure(w, states[i], run[i]);
  }

  lemma WakesNext(run: seq<Event>, i: nat)
    requires i < |run|
    ensures Wakes(run[..i + 1]) == Wakes(run[..i]) + if IsWake(run[i]) then 1 else 0
  {
    assert run[..i + 1][..i] == run[..i];
  }

  lemma {:induction false} RunMeasure(w: Work, depth: nat, run: seq<Event>, states: seq<State>, i: nat)
    requires IsRun(w, depth, run, states) && i <= |run|
    ensures i + Measure(w, states[i]) <= 10 * |w.plan| + 18 + 2 * Wakes(run[..i])
  {
    if i > 0 {
      RunMeasure(w, depth, run, states, i - 1);
      RunStep(w, depth, run, states, i - 1);
      WakesNext(run, i - 1);
    }
  }

  /** Termination: whatever the schedule and whatever fails, a run has at most ten steps per
      slice plus a constant, plus two per spurious wakeup; and when it cannot be extended by
      either thread, both threads have finished. */
  lemma RunsTerminate(w: Work, depth: nat, run: seq<Event>, states: seq<State>)
    requires IsRun(w, depth, run, states)
    ensures |run| <= 10 * |w.plan| + 18 + 2 * Wakes(run)
    ensures depth > 0 && !Enabled(w, states[|run|], AStep) && !Enabled(w, states[|run|], BStep) ==> Finished(states[|run|])
  {
    RunMeasure(w, depth, run, states, |run|);
    ReachableInv(w, depth, run, states, |run|);
    assert run[..|run|] == run;
    if depth > 0 {
      NeverStuck(w, states[|run|]);
    }
  }

  // ---------------------------------------------------------------- refinement

  /** At every moment the stored outcomes are the serial loop's first ones, in plan order: outcome j is
      stage B run on slice j and on what stage A makes of it. */
  lemma OutcomesAreSerialPrefix(w: Work, depth: nat, run: seq<Event>, states: seq<State>, i: nat)
    requires IsRun(w, depth, run, states) && i < |states|
    ensures |states[i].outcomes| <= |w.plan| && states[i].outcomes == Serial(w, |states[i].outcomes|)
    ensures forall j :: 0 <= j < |states[i].outcomes| ==>
      states[i].outcomes[j] == BatchOutcome(w.plan[j], w.stageB(w.plan[j], w.stageA(w.plan[j])))
  {
    ReachableInv(w, depth, run, states, i);
    forall j | 0 <= j < |states[i].outcomes|
      ensures states[i].outcomes[j] == BatchOutcome(w.plan[j], w.stageB(w.plan[j], w.stageA(w.plan[j])))
    {
      SerialAt(w, |states[i].outcomes|, j);
    }
  }

  /** A finished run without stage failures has an outcome for every slice, the serial loop's, and
      reports no error. */
  lemma OverlapRefinesSerial(w: Work, depth: nat, run: seq<Event>, states: seq<State>)
    requires IsRun(w, depth, run, states) && Finished(states[|run|]) && states[|run|].failures == []
    ensures states[|run|].outcomes == Serial(w, |w.plan|) && states[|run|].workerError == []
    ensures |states[|run|].outcomes| == |w.plan|
    ensures forall j :: 0 <= j < |w.plan| ==>
      states[|run|].outcomes[j] == BatchOutcome(w.plan[j], w.stageB(w.plan[j], w.stageA(w.plan[j])))
  {
    ReachableInv(w, depth, run, states, |run|);
    OutcomesAreSerialPrefix(w, depth, run, states, |run|);
  }

  ghost predicate SortedByOffset(s: seq<BatchOutcome>) {
    forall i, j :: 0 <= i < j < |s| ==> s[i].slice.queryOffset <= s[j].slice.queryOffset
  }

  ghost predicate StrictByOffset(s: seq<BatchOutcome>) {
    forall i, j :: 0 <= i < j < |s| ==> s[i].slice.queryOffset < s[j].slice.queryOffset
  }

  lemma SameLast(s: seq<BatchOutcome>, t: seq<BatchOutcome>)
    requires StrictByOffset(s) && SortedByOffset(t) && s != [] && t != [] && multiset(t) == multiset(s)
    ensures s[|s| - 1] == t[|t| - 1]
  {
    var x, y := s[|s| - 1], t[|t| - 1];
    assert x in multiset(t) && y in multiset(s);
    var i :| 0 <= i < |t| && t[i] == x;
    var j :| 0 <= j < |s| && s[j] == y;
  }

  lemma Fronts(s: seq<BatchOutcome>, t: seq<BatchOutcome>)
    requires StrictByOffset(s) && SortedByOffset(t) && s != [] && t != [] && multiset(t) == multiset(s)
    ensures StrictByOffset(s[..|s| - 1]) && SortedByOffset(t[..|t| - 1])
    ensures multiset(t[..|t| - 1]) == multiset(s[..|s| - 1])
  {
    SameLast(s, t);
    MultisetLast(s);
    MultisetLast(t);
  }

  lemma {:induction false} SortedPermutationOfStrict(s: seq<BatchOutcome>, t: seq<BatchOutcome>)
    requires StrictByOffset(s) && SortedByOffset(t) && multiset(t) == multiset(s)
    ensures t == s
    decreases |s|
  {
    assert |multiset(s)| == |multiset(t)|;
    if s != [] {
      Fronts(s, t);
      SameLast(s, t);
      SortedPermutationOfStrict(s[..|s| - 1], t[..|t| - 1]);
      RejoinLast(s, t);
    }
  }

  lemma RejoinLast(s: seq<BatchOutcome>, t: seq<BatchOutcome>)
    requires s != [] && t != [] && s[..|s| - 1] == t[..|t| - 1] && s[|s| - 1] == t[|t| - 1]
    ensures s == t
  {
    assert s == s[..|s| - 1] + [s[|s| - 1]];
    assert t == t[..|t| - 1] + [t[|t| - 1]];
  }

  /** The final sort by query offset cannot reorder anything: over a tiling plan any sorted
      permutation of the overlapped outcomes is the serial outcome list itself. */
  lemma SortedOutcomesAreSerial(w: Work, end: nat, sorted: seq<BatchOutcome>)
    requires Tiles(w.plan, end)
    requires SortedByOffset(sorted) && multiset(sorted) == multiset(Serial(w, |w.plan|))
    ensures sorted == Serial(w, |w.plan|)
  {
    var s := Serial(w, |w.plan|);
    forall i, j | 0 <= i < j < |s| ensures s[i].slice.queryOffset < s[j].slice.queryOffset {
      SerialAt(w, |w.plan|, i);
      SerialAt(w, |w.plan|, j);
      OffsetsIncrease(w.plan, end, i, j);
    }
    SortedPermutationOfStrict(s, sorted);
  }

  // ---------------------------------------------------------------- errors

  /** After both joins: an error is rethrown exactly when some stage failed, it is one of the
      stage failures, and never the secondary error of pushing on the closed queue. */
  lemma RethrownErrorIsStageFailure(w: Work, depth: nat, run: seq<Event>, states: seq<State>)
    requires IsRun(w, depth, run, states) && Finished(states[|run|])
    ensures var s := states[|run|];
      && (s.workerError != [] <==> s.failures != [])
      && (s.workerError != [] ==> |s.workerError| == 1 && s.workerError[0].StageFailure? && s.workerError[0] in s.failures)
  {
    ReachableInv(w, depth, run, states, |run|);
  }

  /** The first recorded error is never replaced. */
  lemma {:induction false} FirstRecordedStays(w: Work, depth: nat, run: seq<Event>, states: seq<State>, i: nat, j: nat)
    requires IsRun(w, depth, run, states) && i <= j < |states| && states[i].workerError != []
    ensures states[j].workerError == states[i].workerError
    decreases j
  {
    if i < j {
      FirstRecordedStays(w, depth, run, states, i, j - 1);
      assert states[j] == Apply(w, states[j - 1], run[j - 1]);
    }
  }

  /** With a single stage failure it is the one reported. */
  lemma SoleFailureReported(w: Work, depth: nat, run: seq<Event>, states: seq<State>)
    requires IsRun(w, depth, run, states) && Finished(states[|run|]) && |states[|run|].failures| == 1
    ensures states[|run|].workerError == states[|run|].failures
  {
    RethrownErrorIsStageFailure(w, depth, run, states);
  }

  /** With two, the first thrown need not be the one reported: stage A throws first, but stage B
      reaches the error lock before it. */
  lemma FirstThrownMayLose(w: Work, depth: nat)
    ensures exists run: seq<Event>, states: seq<State> ::
              && IsRun(w, depth, run, states) && Finished(states[|run|])
              && states[|run|].failures == [StageFailure(A, 1), StageFailure(B, 2)]
              && states[|run|].workerError == [StageFailure(B, 2)]
  {
    var s0 := Init(depth);
    var s1 := Apply(w, s0, AFail(1));
    var s2 := Apply(w, s1, BFail(2));
    var s3 := StepB(w, s2);
    var s4 := StepB(w, s3);
    var s5 := StepA(w, s4);
    var s6 := StepA(w, s5);
    var run, states := [AFail(1), BFail(2), BStep, BStep, AStep, AStep], [s0, s1, s2, s3, s4, s5, s6];
    assert s6.failures == [StageFailure(A, 1), StageFailure(B, 2)];
    assert IsRun(w, depth, run, states) && Finished(states[|run|]);
  }
}
