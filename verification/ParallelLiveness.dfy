/** The parallel executor never gets stuck and always finishes while its context is live. */
module ParallelLiveness {
  import opened Graphs
  import opened Options
  import opened Pipelines
  import opened Execution
  import opened Parallel

  /** Steps a job still has before it, with room for the larger choice at the error check. */
  function JobWeight(j: Job): nat {
    match j
    case Waiting => 9
    case HasPermit => 8
    case Cleared => 7
    case HasSnapshot(_) => 6
    case HasRun(_) => 5
    case Recorded(_) => 4
    case Published(_) => 3
    case Skipping => 2
    case Leaving(_) => 1
    case Done(_) => 0
  }

  ghost function StageWeight(s: State, n: Name): nat {
    if n in s.pending then 12 else if n in s.jobs then JobWeight(s.jobs[n]) else 0
  }

  ghost function TotalWeight(s: State, stages: seq<Stage>): nat {
    if stages == [] then 0 else StageWeight(s, stages[0].name) + TotalWeight(s, stages[1..])
  }

  function SchedulerWeight(s: Scheduler): nat {
    match s
    case AtLoopTop => 2
    case Launching(_) => 1
    case Joining => 1
    case Returned(_) => 0
  }

  /** A bound on the steps left, idle sleeps aside. */
  ghost function Measure(c: Config, s: State): nat {
    TotalWeight(s, c.stages) + SchedulerWeight(s.scheduler) + (if s.ctxDone then 0 else 1)
  }

  lemma {:induction false} WeightsFall(s: State, s': State, stages: seq<Stage>, n: Name, fall: nat)
    requires forall m :: m != n ==> StageWeight(s', m) == StageWeight(s, m)
    requires StageWeight(s', n) + fall <= StageWeight(s, n)
    ensures TotalWeight(s', stages) <= TotalWeight(s, stages)
    ensures n in Names(stages) ==> TotalWeight(s', stages) + fall <= TotalWeight(s, stages)
  {
    if stages != [] {
      WeightsFall(s, s', stages[1..], n, fall);
      if n in Names(stages) && stages[0].name != n {
        var i :| 0 <= i < |stages| && stages[i].name == n;
        assert stages[1..][i - 1].name == n;
      }
    }
  }

  lemma {:induction false} SameWeights(s: State, s': State, stages: seq<Stage>)
    requires s'.pending == s.pending && s'.jobs == s.jobs
    ensures TotalWeight(s', stages) == TotalWeight(s, stages)
  {
    if stages != [] {
      SameWeights(s, s', stages[1..]);
    }
  }

  lemma StageWeightStep(c: Config, s: State, a: Action, s': State, n: Name, m: Name)
    requires Clean(s, a) && Next(c, s, a, s') && Mover(a) == Some(n) && (n in s.jobs ==> n !in s.pending)
    ensures m != n ==> StageWeight(s', m) == StageWeight(s, m)
    ensures StageWeight(s', n) + (if a.Launch? then 3 else 1) <= StageWeight(s, n)
  {
  }

  /** Every step but an idle sleep brings the executor closer to its end. */
  lemma StepsAreProgress(c: Config, s: State, a: Action, s': State)
    requires Inv(c, s) && Next(c, s, a, s')
    ensures a.Sleep? ==> s' == s
    ensures !a.Sleep? ==> Measure(c, s') < Measure(c, s)
  {
    LaunchesAreClean(c, s, a);
    JobsStep(c, s, a, s');
    if Mover(a).None? {
      SameWeights(s, s', c.stages);
    } else {
      var n := Mover(a).value;
      forall m ensures m != n ==> StageWeight(s', m) == StageWeight(s, m) {
        StageWeightStep(c, s, a, s', n, m);
      }
      StageWeightStep(c, s, a, s', n, n);
      WeightsFall(s, s', c.stages, n, if a.Launch? then 3 else 1);
    }
  }

  ghost predicate CanProgress(c: Config, s: State) {
    exists a :: Enabled(c, s, a) && !a.Sleep? && !a.CancelContext?
  }

  /** With every launched stage finished, some pending stage is ready, or none is pending. */
  lemma IdleMeansReady(c: Config, s: State)
    requires ValidConfig(c) && Inv(c, s) && s.pending != {}
    requires forall n :: n in s.jobs ==> s.jobs[n].Done?
    ensures ReadySet(c, s) != {}
  {
    var graph := GraphOf(c.stages);
    if ReadySet(c, s) == {} {
      forall n | n in s.pending ensures DependsOnSome(graph, n, s.pending) {
        BlockedByPending(c, s, n);
      }
      StuckIsCyclic(graph, s.pending);
    }
  }

  lemma BlockedByPending(c: Config, s: State, n: Name)
    requires ValidConfig(c) && Partition(c, s) && n in s.pending && n !in ReadySet(c, s)
    requires forall n :: n in s.jobs ==> s.jobs[n].Done?
    ensures DependsOnSome(GraphOf(c.stages), n, s.pending)
  {
    assert !Ready(c, s, n);
    var d :| d in Deps(c, n) && d !in s.completed;
    assert n in Names(c.stages);
    var i :| 0 <= i < |c.stages| && c.stages[i].name == n;
    GraphEntry(c.stages, i);
    assert c.stages[i] in c.stages && d in c.stages[i].dependsOn;
    assert CompletedIff(s, d);
    assert d in s.pending;
  }

  lemma UnfinishedJobMoves(c: Config, s: State, n: Name)
    requires ValidConfig(c) && Inv(c, s) && n in s.jobs && !s.jobs[n].Done?
    ensures CanProgress(c, s)
  {
    match s.jobs[n]
    case Waiting =>
      if m :| m in Holders(s) {
        HolderMoves(c, s, m);
      } else {
        assert Holders(s) == {};
        assert Enabled(c, s, Acquire(n));
      }
    case _ => HolderMoves(c, s, n);
  }

  lemma HolderMoves(c: Config, s: State, n: Name)
    requires n in s.jobs && HoldsPermit(s.jobs[n])
    ensures CanProgress(c, s)
  {
    match s.jobs[n]
    case HasPermit => assert Enabled(c, s, CheckError(n));
    case Skipping => assert Enabled(c, s, PublishSkip(n));
    case Cleared => assert Enabled(c, s, TakeSnapshot(n));
    case HasSnapshot(m) => assert Enabled(c, s, RunStage(n, Execute(c, n, m)));
    case HasRun(_) => assert Enabled(c, s, Record(n));
    case Recorded(_) => assert Enabled(c, s, Publish(n));
    case Published(_) => assert Enabled(c, s, RecordError(n));
    case Leaving(_) => assert Enabled(c, s, Release(n));
  }

  /** Deadlock freedom: until the executor has returned, some step other than an idle sleep
      is possible, even when the semaphore is full. */
  lemma NeverStuck(c: Config, tr: seq<State>, i: nat)
    requires ValidConfig(c) && IsRun(c, tr) && i < |tr| && !tr[i].scheduler.Returned?
    ensures CanProgress(c, tr[i])
  {
    RunInvariant(c, tr, i);
    if n :| n in tr[i].jobs && !tr[i].jobs[n].Done? {
      UnfinishedJobMoves(c, tr[i], n);
    } else {
      SchedulerMoves(c, tr[i]);
    }
  }

  lemma SchedulerMoves(c: Config, s: State)
    requires ValidConfig(c) && Inv(c, s) && !s.scheduler.Returned?
    requires forall n :: n in s.jobs ==> s.jobs[n].Done?
    ensures CanProgress(c, s)
  {
    match s.scheduler
    case AtLoopTop =>
      if s.pending == {} {
        assert Enabled(c, s, LeaveLoop);
      } else {
        IdleMeansReady(c, s);
        assert Enabled(c, s, Scan);
      }
    case Launching(ready) =>
      var n :| n in ready;
      assert Enabled(c, s, Launch(n));
    case Joining => assert Enabled(c, s, Return);
  }

  /** Steps of a run that are not idle sleeps: those that change the state. */
  ghost function BusySteps(tr: seq<State>): nat {
    if |tr| < 2 then 0
    else BusySteps(tr[..|tr| - 1]) + (if tr[|tr| - 1] == tr[|tr| - 2] then 0 else 1)
  }

  /** Termination: no run has more busy steps than a bound fixed by the number of stages. */
  lemma {:induction false} BusyStepsAreBounded(c: Config, tr: seq<State>)
    requires IsRun(c, tr)
    ensures BusySteps(tr) + Measure(c, tr[|tr| - 1]) <= 12 * |c.stages| + 3
    decreases |tr|
  {
    if |tr| == 1 {
      InitialWeight(c, c.stages);
    } else {
      var n := |tr| - 1;
      var front := tr[..n];
      RunPrefix(c, tr, n);
      BusyStepsAreBounded(c, front);
      var a := StepTaken(c, tr, n);
      StepsAreProgress(c, tr[n - 1], a, tr[n]);
    }
  }

  lemma RunPrefix(c: Config, tr: seq<State>, n: nat)
    requires IsRun(c, tr) && 1 <= n <= |tr|
    ensures IsRun(c, tr[..n])
  {
    forall i | 0 <= i < n - 1 ensures StepAt(c, tr[..n], i) {
      assert StepAt(c, tr, i);
    }
  }

  lemma RunExtends(c: Config, tr: seq<State>, a: Action)
    requires IsRun(c, tr) && Enabled(c, tr[|tr| - 1], a)
    ensures IsRun(c, tr + [Apply(c, tr[|tr| - 1], a)])
  {
    var longer := tr + [Apply(c, tr[|tr| - 1], a)];
    assert Next(c, tr[|tr| - 1], a, longer[|tr|]);
    forall i | 0 <= i < |longer| - 1 ensures StepAt(c, longer, i) {
      if i < |tr| - 1 {
        assert StepAt(c, tr, i);
      }
    }
  }

  /** Every run under a live context can be continued to a normal return. */
  lemma {:induction false} CanAlwaysFinish(c: Config, tr: seq<State>) returns (whole: seq<State>)
    requires ValidConfig(c) && IsRun(c, tr) && !tr[|tr| - 1].ctxDone
    ensures IsRun(c, whole) && tr <= whole
    ensures whole[|whole| - 1].scheduler == Returned(false) && !whole[|whole| - 1].ctxDone
    decreases Measure(c, tr[|tr| - 1])
  {
    if tr[|tr| - 1].scheduler.Returned? {
      LiveReturnIsNormal(c, tr);
      whole := tr;
    } else {
      var next := ProgressOnce(c, tr);
      whole := CanAlwaysFinish(c, tr + [next]);
    }
  }

  lemma ProgressOnce(c: Config, tr: seq<State>) returns (next: State)
    requires ValidConfig(c) && IsRun(c, tr) && !tr[|tr| - 1].ctxDone && !tr[|tr| - 1].scheduler.Returned?
    ensures IsRun(c, tr + [next]) && !next.ctxDone && Measure(c, next) < Measure(c, tr[|tr| - 1])
  {
    var s := tr[|tr| - 1];
    NeverStuck(c, tr, |tr| - 1);
    var a :| Enabled(c, s, a) && !a.Sleep? && !a.CancelContext?;
    RunInvariant(c, tr, |tr| - 1);
    next := Apply(c, s, a);
    StepsAreProgress(c, s, a, next);
    StaysLive(c, s, a, next);
    RunExtends(c, tr, a);
  }

  lemma LiveReturnIsNormal(c: Config, tr: seq<State>)
    requires IsRun(c, tr) && !tr[|tr| - 1].ctxDone && tr[|tr| - 1].scheduler.Returned?
    ensures tr[|tr| - 1].scheduler == Returned(false)
  {
    RunInvariant(c, tr, |tr| - 1);
  }

  lemma StaysLive(c: Config, s: State, a: Action, s': State)
    requires Next(c, s, a, s') && !a.CancelContext?
    ensures s'.ctxDone == s.ctxDone
  {
  }

  lemma {:induction false} InitialWeight(c: Config, stages: seq<Stage>)
    ensures TotalWeight(Init(c), stages) <= 12 * |stages|
  {
    if stages != [] {
      InitialWeight(c, stages[1..]);
    }
  }
}
