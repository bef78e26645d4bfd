/** What fail-fast promises in a parallel run. A result is published before its error is recorded,
    and the stage holds its permit in between, so the number of workers decides whether a stage
    can still run although something it depends on has failed. */
module FailFast {
  import opened Graphs
  import opened Options
  import opened Pipelines
  import opened Topological
  import opened Execution
  import opened Parallel
  import opened ParallelSafety
  import opened ParallelLiveness
  import opened Confluence
  import Agreement

  /** The direct and transitive dependencies of `n` that were called and returned an error. */
  ghost function ErringAbove(c: Config, s: State, n: Name): set<Name> {
    set d | d in s.jobs && Reaches(GraphOf(c.stages), n, d) && Erred(s, d)
  }

  // ---- At most one error short of the number of workers ----

  /** Everything a launched stage reaches is completed. */
  lemma ReachedIsCompleted(c: Config, s: State, n: Name, d: Name)
    requires Partition(c, s) && DepsPublished(c, s) && n in s.jobs && Reaches(GraphOf(c.stages), n, d)
    ensures d in s.completed && d in s.jobs && InCompleted(s.jobs[d])
  {
    CompletedIsClosed(c, s);
    ClosedHoldsReached(GraphOf(c.stages), s.completed.Keys, n, d);
    assert CompletedIff(s, d);
  }

  /** A stage that finds no error recorded at its check holds a permit beside all of those. */
  lemma AtCheck(c: Config, s: State, n: Name)
    requires Inv(c, s) && s.firstErr.None? && JobIs(s, n, HasPermit)
    ensures |ErringAbove(c, s, n)| < c.maxWorkers
  {
    assert CompletedIff(s, n);
    forall d | d in ErringAbove(c, s, n)
      ensures d in Holders(s) - {n}
    {
      ReachedIsCompleted(c, s, n, d);
    }
    SubsetSize(ErringAbove(c, s, n), Holders(s) - {n});
  }

  ghost predicate PassedCheck(s: State, n: Name) {
    n in s.jobs && (s.jobs[n].Cleared? || s.jobs[n].HasSnapshot? || Executed(s.jobs[n]))
  }

  lemma PassesCheck(c: Config, s: State, a: Action, s': State, n: Name)
    requires Next(c, s, a, s') && PassedCheck(s', n) && !PassedCheck(s, n)
    ensures JobIs(s, n, HasPermit) && (c.failFast ==> s.firstErr.None?)
  {
  }

  /** The state in which a stage made the error check it has passed. */
  lemma {:induction false} CheckTaken(c: Config, tr: seq<State>, i: nat, n: Name) returns (j: nat)
    requires IsRun(c, tr) && i < |tr| && PassedCheck(tr[i], n)
    ensures j < i && JobIs(tr[j], n, HasPermit) && (c.failFast ==> tr[j].firstErr.None?)
  {
    var a := StepTaken(c, tr, i);
    if PassedCheck(tr[i - 1], n) {
      j := CheckTaken(c, tr, i - 1, n);
    } else {
      j := i - 1;
      PassesCheck(c, tr[j], a, tr[i], n);
    }
  }

  lemma CalledHasPassed(c: Config, tr: seq<State>, i: nat, n: Name)
    requires IsRun(c, tr) && i < |tr| && Called(tr[i], n)
    ensures PassedCheck(tr[i], n)
  {
    RunInvariant(c, tr, i);
    assert DidRun(tr[i], n);
  }

  /** With no error recorded, a completed stage was called. */
  lemma CompletedWasCalled(c: Config, s: State, d: Name)
    requires Inv(c, s) && s.firstErr.None? && d in s.completed
    ensures Called(s, d)
  {
    assert CompletedIff(s, d);
    assert DidRun(s, d);
  }

  lemma ErredBefore(c: Config, tr: seq<State>, j: nat, i: nat, d: Name)
    requires IsRun(c, tr) && j <= i < |tr| && tr[j].firstErr.None?
    requires d in tr[j].completed && Erred(tr[i], d)
    ensures Erred(tr[j], d)
  {
    RunInvariant(c, tr, j);
    RunInvariant(c, tr, i);
    HistoryOnlyGrows(c, tr, j, i);
    CompletedWasCalled(c, tr[j], d);
    var k :| 0 <= k < |tr[j].calls| && tr[j].calls[k].name == d;
    assert tr[i].calls[k] == tr[j].calls[k];
  }

  /** Under fail-fast fewer dependencies of a called stage have erred than there are workers, in
      every state of every run. */
  lemma FewerErrorsThanWorkers(c: Config, tr: seq<State>, i: nat, n: Name)
    requires IsRun(c, tr) && i < |tr| && c.failFast && Called(tr[i], n)
    ensures |ErringAbove(c, tr[i], n)| < c.maxWorkers
  {
    CalledHasPassed(c, tr, i, n);
    var j := CheckTaken(c, tr, i, n);
    RunInvariant(c, tr, j);
    forall d | d in ErringAbove(c, tr[i], n)
      ensures d in ErringAbove(c, tr[j], n)
    {
      ReachedIsCompleted(c, tr[j], n, d);
      ErredBefore(c, tr, j, i, d);
    }
    SubsetSize(ErringAbove(c, tr[i], n), ErringAbove(c, tr[j], n));
    AtCheck(c, tr[j], n);
  }

  /** With a single worker no dependent of a failed stage ever runs. */
  lemma OneWorkerIsSafe(c: Config, tr: seq<State>, i: nat, n: Name, d: Name)
    requires IsRun(c, tr) && i < |tr| && c.failFast && c.maxWorkers == 1
    requires Called(tr[i], n) && Reaches(GraphOf(c.stages), n, d)
    ensures !Erred(tr[i], d)
  {
    if Erred(tr[i], d) {
      ErringIsAbove(c, tr, i, n, d);
      FewerErrorsThanWorkers(c, tr, i, n);
    }
  }

  lemma ErringIsAbove(c: Config, tr: seq<State>, i: nat, n: Name, d: Name)
    requires IsRun(c, tr) && i < |tr| && Called(tr[i], n)
    requires Reaches(GraphOf(c.stages), n, d) && Erred(tr[i], d)
    ensures d in ErringAbove(c, tr[i], n)
  {
    CalledHasPassed(c, tr, i, n);
    RunInvariant(c, tr, i);
    ReachedIsCompleted(c, tr[i], n, d);
  }

  // ---- And with that many workers it can happen ----

  /** The dependencies of `n` that err when every stage sees the results in `f`. */
  ghost function ErringIn(c: Config, f: Completed, n: Name): set<Name> {
    set d | d in Names(c.stages) && Reaches(GraphOf(c.stages), n, d) && Execute(c, d, f).err
  }

  lemma CalledLeavesRoom(c: Config, tr: seq<State>, i: nat, n: Name, f: Completed)
    requires Local(c) && Solution(c, f) && c.failFast
    requires IsRun(c, tr) && i < |tr| && !tr[i].ctxDone && Called(tr[i], n)
    ensures |ErringIn(c, f, n)| < c.maxWorkers
  {
    CalledHasPassed(c, tr, i, n);
    var j := CheckTaken(c, tr, i, n);
    RunInvariant(c, tr, j);
    HistoryOnlyGrows(c, tr, j, i);
    RunFollows(c, tr, j, f);
    forall d | d in ErringIn(c, f, n)
      ensures d in ErringAbove(c, tr[j], n)
    {
      ReachedIsCompleted(c, tr[j], n, d);
      CompletedWasCalled(c, tr[j], d);
    }
    SubsetSize(ErringIn(c, f, n), ErringAbove(c, tr[j], n));
    AtCheck(c, tr[j], n);
  }

  ghost function Last(tr: seq<State>): State
    requires tr != []
  {
    tr[|tr| - 1]
  }

  lemma Advance(c: Config, tr: seq<State>, a: Action) returns (longer: seq<State>)
    requires IsRun(c, tr) && Enabled(c, Last(tr), a)
    ensures IsRun(c, longer) && Last(longer) == Apply(c, Last(tr), a)
  {
    RunExtends(c, tr, a);
    longer := tr + [Apply(c, Last(tr), a)];
  }

  /** Takes a waiting stage to its snapshot while no error has been recorded. */
  lemma RunUntilSnapshot(c: Config, tr: seq<State>, n: Name) returns (longer: seq<State>)
    requires IsRun(c, tr) && JobIs(Last(tr), n, Waiting)
    requires Last(tr).permits < c.maxWorkers && Last(tr).firstErr == None
    ensures IsRun(c, longer)
    ensures var s := Last(tr); Last(longer) == Move(s, n, HasSnapshot(s.completed)).(permits := s.permits + 1)
  {
    var s := Last(tr);
    longer := Advance(c, tr, Acquire(n));
    longer := Advance(c, longer, CheckError(n));
    assert Last(longer).jobs == s.jobs[n := Cleared];
    longer := Advance(c, longer, TakeSnapshot(n));
    assert Last(longer).jobs == s.jobs[n := HasSnapshot(s.completed)];
  }

  /** Then runs it and publishes its result, its error not yet recorded. */
  lemma RunUntilPublished(c: Config, tr: seq<State>, n: Name) returns (longer: seq<State>)
    requires IsRun(c, tr) && n in Last(tr).jobs && Last(tr).jobs[n].HasSnapshot?
    ensures IsRun(c, longer)
    ensures var s := Last(tr);
            var o := Execute(c, n, s.jobs[n].snapshot);
            Last(longer) == Move(s, n, Published(o)).(completed := s.completed[n := o.result],
                                                      results := s.results + [Entry(n, o.result)],
                                                      calls := s.calls + [Call(n, s.jobs[n].snapshot, o)])
  {
    var s := Last(tr);
    var o := Execute(c, n, s.jobs[n].snapshot);
    longer := Advance(c, tr, RunStage(n, o));
    longer := Advance(c, longer, Record(n));
    assert Last(longer).jobs == s.jobs[n := Recorded(o)];
    longer := Advance(c, longer, Publish(n));
    assert Last(longer).jobs == s.jobs[n := Published(o)];
  }

  /** Nothing but launches lies between the two states. */
  ghost predicate LaunchedFrom(s: State, s': State) {
    && s' == s.(scheduler := AtLoopTop, pending := s'.pending, jobs := s'.jobs)
    && (forall m :: m in s.jobs ==> m in s'.jobs && s'.jobs[m] == s.jobs[m])
    && (forall m :: m in s'.jobs ==> m in s.jobs || s'.jobs[m].Waiting?)
  }

  lemma LaunchOne(c: Config, tr: seq<State>, m: Name) returns (longer: seq<State>)
    requires IsRun(c, tr) && Last(tr).scheduler.Launching? && m in Last(tr).scheduler.ready
    ensures IsRun(c, longer) && LaunchedFrom(Last(tr), Last(longer).(scheduler := AtLoopTop))
    ensures JobIs(Last(longer), m, Waiting)
    ensures var rest := Last(tr).scheduler.ready - {m};
            Last(longer).scheduler == if rest == {} then AtLoopTop else Launching(rest)
  {
    RunInvariant(c, tr, |tr| - 1);
    assert m in Last(tr).pending && m !in Last(tr).jobs;
    longer := Advance(c, tr, Launch(m));
  }

  lemma {:induction false} LaunchAll(c: Config, tr: seq<State>) returns (longer: seq<State>)
    requires IsRun(c, tr) && Last(tr).scheduler.Launching? && Last(tr).scheduler.ready != {}
    ensures IsRun(c, longer) && LaunchedFrom(Last(tr), Last(longer))
    ensures forall m :: m in Last(tr).scheduler.ready ==> JobIs(Last(longer), m, Waiting)
    decreases |Last(tr).scheduler.ready|
  {
    var ready := Last(tr).scheduler.ready;
    var m :| m in ready;
    var one := LaunchOne(c, tr, m);
    longer := one;
    if ready != {m} {
      assert ready - {m} != {};
      longer := LaunchAll(c, one);
    }
  }

  lemma LaunchReady(c: Config, tr: seq<State>, d: Name) returns (longer: seq<State>)
    requires IsRun(c, tr) && Last(tr).scheduler == AtLoopTop && Ready(c, Last(tr), d)
    ensures IsRun(c, longer) && LaunchedFrom(Last(tr), Last(longer)) && JobIs(Last(longer), d, Waiting)
  {
    assert d in ReadySet(c, Last(tr));
    longer := Advance(c, tr, Scan);
    longer := LaunchAll(c, longer);
  }

  /** Only dependencies of `n` have run, and those that erred have published but not yet recorded
      their errors. */
  ghost predicate Parked(c: Config, f: Completed, s: State, n: Name) {
    && s.scheduler == AtLoopTop && !s.ctxDone && s.firstErr == None
    && forall d :: d in s.jobs ==> JobParked(c, f, n, d, s.jobs[d])
  }

  ghost predicate JobParked(c: Config, f: Completed, n: Name, d: Name, j: Job) {
    j.Waiting? || (Reaches(GraphOf(c.stages), n, d) && (j.Done? || (j.Published? && Execute(c, d, f).err)))
  }

  lemma HasRoom(c: Config, f: Completed, tr: seq<State>, n: Name)
    requires IsRun(c, tr) && Parked(c, f, Last(tr), n) && |ErringIn(c, f, n)| < c.maxWorkers
    ensures Last(tr).permits < c.maxWorkers
  {
    var s := Last(tr);
    RunInvariant(c, tr, |tr| - 1);
    forall d | d in Holders(s)
      ensures d in ErringIn(c, f, n)
    {
      assert JobParked(c, f, n, d, s.jobs[d]);
    }
    SubsetSize(Holders(s), ErringIn(c, f, n));
  }

  /** Lets a stage that published without an error go. */
  lemma RunUntilDone(c: Config, tr: seq<State>, d: Name) returns (longer: seq<State>)
    requires IsRun(c, tr) && d in Last(tr).jobs && Last(tr).jobs[d].Published? && !Last(tr).jobs[d].outcome.err
    ensures IsRun(c, longer)
    ensures Last(longer) == Move(Last(tr), d, Done(true)).(permits := Last(longer).permits)
  {
    var s := Last(tr);
    longer := Advance(c, tr, RecordError(d));
    assert Last(longer).jobs == s.jobs[d := Leaving(true)];
    longer := Advance(c, longer, Release(d));
    assert Last(longer).jobs == s.jobs[d := Done(true)];
  }

  /** Runs a waiting stage until its result is published; then `completed` has it. */
  lemma RunOne(c: Config, f: Completed, tr: seq<State>, d: Name) returns (longer: seq<State>)
    requires Local(c) && Solution(c, f) && IsRun(c, tr) && !Last(tr).ctxDone && Last(tr).firstErr == None
    requires JobIs(Last(tr), d, Waiting) && Last(tr).permits < c.maxWorkers
    ensures IsRun(c, longer) && JobIs(Last(longer), d, Published(Execute(c, d, f)))
    ensures SameBut(Last(tr), Last(longer), d) && Called(Last(longer), d)
  {
    var s := Last(tr);
    longer := RunUntilSnapshot(c, tr, d);
    var o := Execute(c, d, s.completed);
    assert Last(longer).jobs[d].snapshot == s.completed;
    SnapshotRunsAsSolution(c, f, longer, d);
    longer := RunUntilPublished(c, longer, d);
    assert Last(longer).jobs == s.jobs[d := Published(o)];
    assert Last(longer).calls[|s.calls|].name == d;
  }

  /** Only stage `d` has moved, and its result is in `completed`. */
  ghost predicate SameBut(s: State, s': State, d: Name) {
    && s'.scheduler == s.scheduler && s'.ctxDone == s.ctxDone && s'.firstErr == s.firstErr
    && d in s'.jobs && s'.jobs == s.jobs[d := s'.jobs[d]] && s'.completed.Keys == s.completed.Keys + {d}
  }

  /** Runs a waiting dependency of `n`; with an error it stops before recording it. */
  lemma RunParked(c: Config, f: Completed, tr: seq<State>, n: Name, d: Name) returns (longer: seq<State>)
    requires Local(c) && Solution(c, f) && |ErringIn(c, f, n)| < c.maxWorkers
    requires IsRun(c, tr) && Parked(c, f, Last(tr), n)
    requires JobIs(Last(tr), d, Waiting) && Reaches(GraphOf(c.stages), n, d)
    ensures IsRun(c, longer) && Parked(c, f, Last(longer), n)
    ensures Last(longer).completed.Keys == Last(tr).completed.Keys + {d}
  {
    HasRoom(c, f, tr, n);
    longer := RunOne(c, f, tr, d);
    if !Execute(c, d, f).err {
      longer := RunUntilDone(c, longer, d);
    }
  }

  lemma SnapshotRunsAsSolution(c: Config, f: Completed, tr: seq<State>, d: Name)
    requires Local(c) && Solution(c, f) && IsRun(c, tr) && !Last(tr).ctxDone && Last(tr).firstErr == None
    requires d in Last(tr).jobs && Last(tr).jobs[d].HasSnapshot?
    ensures Execute(c, d, Last(tr).jobs[d].snapshot) == Execute(c, d, f)
  {
    RunInvariant(c, tr, |tr| - 1);
    RunFollows(c, tr, |tr| - 1, f);
    RunsAsSolution(c, Last(tr), f, d);
  }

  lemma DependencyExists(stages: seq<Stage>, n: Name, d: Name)
    requires WellFormed(stages) && d in Successors(GraphOf(stages), n)
    ensures d in Names(stages)
  {
    GraphKeys(stages);
    var i :| 0 <= i < |stages| && stages[i].name == n;
    GraphEntry(stages, i);
    assert stages[i] in stages;
  }

  lemma ReachesOneMore(g: Graph, n: Name, d: Name, e: Name)
    requires (n == d || Reaches(g, n, d)) && e in Successors(g, d)
    ensures Reaches(g, n, e)
  {
    if n == d {
      assert PathBetween(g, [n, e], n, e);
    } else {
      var p :| PathBetween(g, p, n, d);
      PathExtends(g, p, e);
      assert PathBetween(g, p + [e], n, e);
    }
  }

  ghost function Above(c: Config, n: Name): set<Name> {
    set d | d in Names(c.stages) && Reaches(GraphOf(c.stages), n, d)
  }

  /** Some dependency that has not run yet can run next. */
  lemma NextAbove(c: Config, s: State, n: Name) returns (d: Name)
    requires ValidConfig(c) && Above(c, n) - s.completed.Keys != {}
    ensures d in Above(c, n) && d !in s.completed && forall e :: e in Deps(c, d) ==> e in s.completed
  {
    var g, rest := GraphOf(c.stages), Above(c, n) - s.completed.Keys;
    if forall m {:trigger DependsOnSome(g, m, rest)} :: m in rest ==> DependsOnSome(g, m, rest) {
      StuckIsCyclic(g, rest);
    }
    d :| d in rest && !DependsOnSome(g, d, rest);
    forall e | e in Deps(c, d)
      ensures e in s.completed
    {
      DependencyExists(c.stages, d, e);
      ReachesOneMore(g, n, d, e);
      assert e in Above(c, n);
    }
  }

  /** A stage that has not run and whose dependencies are completed gets to wait for a permit. */
  lemma GetWaiting(c: Config, f: Completed, tr: seq<State>, n: Name, d: Name) returns (longer: seq<State>)
    requires IsRun(c, tr) && Parked(c, f, Last(tr), n) && d in Names(c.stages)
    requires d !in Last(tr).completed && forall e :: e in Deps(c, d) ==> e in Last(tr).completed
    ensures IsRun(c, longer) && Parked(c, f, Last(longer), n) && JobIs(Last(longer), d, Waiting)
    ensures Last(longer).completed == Last(tr).completed
  {
    var s := Last(tr);
    RunInvariant(c, tr, |tr| - 1);
    assert CompletedIff(s, d);
    if d in s.pending {
      longer := LaunchReady(c, tr, d);
    } else {
      assert JobParked(c, f, n, d, s.jobs[d]);
      longer := tr;
    }
  }

  lemma NothingLeft(all: set<Name>, done: set<Name>)
    requires all - done == {}
    ensures all <= done
  {
    assert all == all * done + (all - done);
  }

  /** Runs all dependencies of `n`, one after another. */
  lemma {:induction false} RunAbove(c: Config, f: Completed, tr: seq<State>, n: Name) returns (longer: seq<State>)
    requires ValidConfig(c) && Local(c) && Solution(c, f) && |ErringIn(c, f, n)| < c.maxWorkers
    requires IsRun(c, tr) && Parked(c, f, Last(tr), n)
    ensures IsRun(c, longer) && Parked(c, f, Last(longer), n) && Above(c, n) <= Last(longer).completed.Keys
    decreases Above(c, n) - Last(tr).completed.Keys
  {
    if Above(c, n) - Last(tr).completed.Keys == {} {
      longer := tr;
      NothingLeft(Above(c, n), Last(tr).completed.Keys);
    } else {
      var d := NextAbove(c, Last(tr), n);
      longer := GetWaiting(c, f, tr, n, d);
      longer := RunParked(c, f, longer, n, d);
      assert d in Above(c, n) - Last(tr).completed.Keys;
      longer := RunAbove(c, f, longer, n);
    }
  }

  ghost predicate RunCalls(c: Config, tr: seq<State>, n: Name) {
    IsRun(c, tr) && !Last(tr).ctxDone && Called(Last(tr), n)
  }

  /** `n` itself has not run: it is no dependency of its own. */
  lemma NotYetRun(c: Config, f: Completed, tr: seq<State>, n: Name)
    requires ValidConfig(c) && IsRun(c, tr) && Parked(c, f, Last(tr), n)
    ensures n !in Last(tr).completed
  {
    var s := Last(tr);
    RunInvariant(c, tr, |tr| - 1);
    assert CompletedIff(s, n);
    if n in s.jobs {
      assert JobParked(c, f, n, n, s.jobs[n]);
      forall p ensures !PathBetween(GraphOf(c.stages), p, n, n) {
        assert !IsCycle(GraphOf(c.stages), p);
      }
    }
  }

  lemma AboveCoversDeps(c: Config, s: State, n: Name)
    requires ValidConfig(c) && Above(c, n) <= s.completed.Keys
    ensures forall e :: e in Deps(c, n) ==> e in s.completed
  {
    forall e | e in Deps(c, n)
      ensures e in s.completed
    {
      DependencyExists(c.stages, n, e);
      ReachesOneMore(GraphOf(c.stages), n, n, e);
      assert e in Above(c, n);
    }
  }

  lemma RoomGivesRun(c: Config, f: Completed, n: Name) returns (tr: seq<State>)
    requires ValidConfig(c) && Local(c) && Solution(c, f) && n in Names(c.stages)
    requires |ErringIn(c, f, n)| < c.maxWorkers
    ensures RunCalls(c, tr, n) && Last(tr).firstErr == None
  {
    tr := RunAbove(c, f, [Init(c)], n);
    NotYetRun(c, f, tr, n);
    AboveCoversDeps(c, Last(tr), n);
    tr := GetWaiting(c, f, tr, n, n);
    HasRoom(c, f, tr, n);
    tr := RunOne(c, f, tr, n);
  }

  /** Under fail-fast a stage can run in some live run exactly when fewer of its dependencies err,
      going by the sequential results, than there are workers. */
  lemma FailFastExactly(c: Config, order: seq<Name>, n: Name)
    requires ValidConfig(c) && Local(c) && c.failFast && IsTopologicalOrder(c.stages, order) && n in order
    ensures (exists tr :: RunCalls(c, tr, n)) <==> |ErringIn(c, CompletedAfter(c, order), n)| < c.maxWorkers
  {
    SequentialSolves(c, order);
    assert n in Elements(order);
    RunsExactly(c, CompletedAfter(c, order), n);
  }

  lemma RunsExactly(c: Config, f: Completed, n: Name)
    requires ValidConfig(c) && Local(c) && c.failFast && Solution(c, f) && n in Names(c.stages)
    ensures (exists tr :: RunCalls(c, tr, n)) <==> |ErringIn(c, f, n)| < c.maxWorkers
  {
    forall tr | RunCalls(c, tr, n)
      ensures |ErringIn(c, f, n)| < c.maxWorkers
    {
      CalledLeavesRoom(c, tr, |tr| - 1, n, f);
    }
    if |ErringIn(c, f, n)| < c.maxWorkers {
      var tr := RoomGivesRun(c, f, n);
      assert RunCalls(c, tr, n);
    }
  }

  // ---- The smallest such pipeline ----

  /** "b" depends on "a", whose runner fails; the pipeline is fail-fast and has two workers. */
  function FailingDependency(): Config {
    Agreement.Running([Agreement.Plain("a", []), Agreement.Plain("b", ["a"])], true,
                      (s: Stage, m: Completed) =>
                        Outcome(StageResult(s.name, if s.name == "a" then Failed else Success, map[]), s.name == "a"))
  }

  lemma FailingGraph()
    ensures var c := FailingDependency();
            Deps(c, "a") == [] && Deps(c, "b") == ["a"] && Names(c.stages) == {"a", "b"}
    ensures ValidConfig(FailingDependency()) && IsTopologicalOrder(FailingDependency().stages, ["a", "b"])
  {
    var stages, order := FailingDependency().stages, ["a", "b"];
    GraphEntry(stages, 0);
    GraphEntry(stages, 1);
    assert stages[0].name == "a" && stages[1].name == "b";
    assert Names(stages) == {"a", "b"};
    assert Elements(order) == {"a", "b"} && order[..1] == ["a"];
    SortedIsAcyclic(stages, order);
  }

  lemma FailingOutcomes(m: Completed)
    ensures Execute(FailingDependency(), "a", m) == Outcome(StageResult("a", Failed, map[]), true)
    ensures Execute(FailingDependency(), "b", m) == Outcome(StageResult("b", Success, map[]), false)
  {
    var stages := FailingDependency().stages;
    assert stages[0].name == "a" && stages[1..][0].name == "b";
  }

  lemma FailingIsLocal()
    ensures Local(FailingDependency())
  {
    var c := FailingDependency();
    FailingGraph();
    forall n, m, m' {:trigger Execute(c, n, m), Execute(c, n, m')} | n in Names(c.stages)
      ensures Execute(c, n, m) == Execute(c, n, m')
    {
      FailingOutcomes(m);
      FailingOutcomes(m');
    }
  }

  /** Under fail-fast a dependent of a failed stage can still run; sequentially it never does. */
  lemma FailFastRace() returns (tr: seq<State>)
    ensures RunCalls(FailingDependency(), tr, "b")
    ensures "a" in Last(tr).completed && Last(tr).completed["a"].status == Failed
    ensures StopsAfter(FailingDependency(), ["a", "b"], 0)
  {
    var c, f := FailingDependency(), CompletedAfter(FailingDependency(), ["a", "b"]);
    FailingGraph();
    FailingIsLocal();
    SequentialSolves(c, ["a", "b"]);
    FailingOutcomes(f);
    SubsetSize(ErringIn(c, f, "b"), {"a"});
    tr := RoomGivesRun(c, f, "b");
    PublishedAsSolution(c, f, tr, "b", "a");
    FailingOutcomes(CompletedAfter(c, []));
    assert ["a", "b"][..0] == [];
  }

  lemma PublishedAsSolution(c: Config, f: Completed, tr: seq<State>, n: Name, d: Name)
    requires Local(c) && Solution(c, f) && RunCalls(c, tr, n) && Last(tr).firstErr == None && d in Deps(c, n)
    ensures d in Last(tr).completed && d in f && Last(tr).completed[d] == f[d] == Execute(c, d, f).result
  {
    CalledHasPassed(c, tr, |tr| - 1, n);
    assert d in Last(tr).completed by {
      RunInvariant(c, tr, |tr| - 1);
    }
    assert Submap(Last(tr).completed, f) by {
      RunFollows(c, tr, |tr| - 1, f);
    }
  }
}
