/** The parallel executor (executeParallel in internal/pipeline/executor.go) as a state machine.
    One action is one step of the scheduler loop or of one stage's goroutine; an action is
    never larger than what the source does under one lock acquisition. */
module Parallel {
  import opened Graphs
  import opened Options
  import opened Pipelines
  import opened Execution

  datatype Scheduler =
    | AtLoopTop
    | Launching(ready: set<Name>)   // found by the last scan and not yet launched
    | Joining                       // wg.Wait
    | Returned(canceled: bool)

  /** Where the goroutine of a launched stage stands. */
  datatype Job =
    | Waiting                                                  // at the semaphore
    | HasPermit
    | Skipping                                                 // saw an earlier error under fail-fast
    | Cleared
    | HasSnapshot(snapshot: Completed)
    | HasRun(outcome: Outcome)
    | Recorded(outcome: Outcome)                               // appended to result.Stages
    | Published(outcome: Outcome)                              // stored in the completed map
    | Leaving(ran: bool)
    | Done(ran: bool)

  /** One call of a stage runner, for the record of the run. */
  datatype Call = Call(name: Name, snapshot: Completed, outcome: Outcome)

  datatype Entry = Entry(name: Name, result: StageResult)

  datatype State = State(
    scheduler: Scheduler,
    ctxDone: bool,
    pending: set<Name>,
    jobs: map<Name, Job>,
    permits: nat,                   // filled slots of the semaphore channel
    completed: Completed,
    results: seq<Entry>,            // result.Stages, each entry with the stage that appended it
    firstErr: Option<Name>,
    calls: seq<Call>)               // history only: no step reads it

  datatype Action =
    | CancelContext
    | LeaveLoop
    | ObserveCancel
    | Scan
    | Sleep
    | Launch(name: Name)
    | Return
    | Acquire(name: Name)
    | CheckError(name: Name)
    | PublishSkip(name: Name)
    | TakeSnapshot(name: Name)
    | RunStage(name: Name, outcome: Outcome)
    | Record(name: Name)
    | Publish(name: Name)
    | RecordError(name: Name)
    | Release(name: Name)

  ghost function Deps(c: Config, n: Name): seq<Name> {
    Successors(GraphOf(c.stages), n)
  }

  ghost predicate Ready(c: Config, s: State, n: Name) {
    n in s.pending && forall d :: d in Deps(c, n) ==> d in s.completed
  }

  ghost function ReadySet(c: Config, s: State): set<Name> {
    set n | n in s.pending && Ready(c, s, n)
  }

  /** findReadyStages: the names come in whatever order the pending map is ranged over. */
  method FindReadyStages(pending: set<Name>, deps: Graph, completed: Completed, ghost c: Config, ghost s: State)
    returns (ready: seq<Name>)
    requires pending == s.pending && completed == s.completed && deps == GraphOf(c.stages)
    ensures Distinct(ready) && Elements(ready) == ReadySet(c, s)
  {
    ready := [];
    var unseen := pending;
    while unseen != {}
      invariant unseen <= pending && Distinct(ready)
      invariant forall n :: n in ready <==> n in pending && n !in unseen && Ready(c, s, n)
    {
      var name :| name in unseen;
      unseen := unseen - {name};
      var allDepsComplete, k := true, 0;
      var mine := if name in deps then deps[name] else [];
      while k < |mine| && allDepsComplete
        invariant 0 <= k <= |mine|
        invariant allDepsComplete ==> forall d :: d in mine[..k] ==> d in completed
        invariant !allDepsComplete ==> exists d :: d in mine && d !in completed
      {
        if mine[k] !in completed {
          allDepsComplete := false;
        }
        k := k + 1;
      }
      assert allDepsComplete ==> mine[..k] == mine;
      if allDepsComplete {
        ready := ready + [name];
      }
    }
  }

  ghost function Init(c: Config): State {
    State(AtLoopTop, false, Names(c.stages), map[], 0, map[], [], None, [])
  }

  ghost predicate JobIs(s: State, n: Name, j: Job) {
    n in s.jobs && s.jobs[n] == j
  }

  ghost predicate Enabled(c: Config, s: State, a: Action) {
    match a
    case CancelContext => !s.ctxDone
    case LeaveLoop => s.scheduler.AtLoopTop? && s.pending == {}
    case ObserveCancel => s.scheduler.AtLoopTop? && s.pending != {} && s.ctxDone
    case Scan => s.scheduler.AtLoopTop? && s.pending != {} && ReadySet(c, s) != {}
    case Sleep => s.scheduler.AtLoopTop? && s.pending != {} && ReadySet(c, s) == {}
    case Launch(n) => s.scheduler.Launching? && n in s.scheduler.ready
    case Return => s.scheduler.Joining? && forall n :: n in s.jobs ==> s.jobs[n].Done?
    case Acquire(n) => JobIs(s, n, Waiting) && s.permits < c.maxWorkers
    case CheckError(n) => JobIs(s, n, HasPermit)
    case PublishSkip(n) => JobIs(s, n, Skipping)
    case TakeSnapshot(n) => JobIs(s, n, Cleared)
    case RunStage(n, o) =>
      && n in s.jobs && s.jobs[n].HasSnapshot?
      // With a live context the runner's answer is its function's; once the context is done it may be anything.
      && (!s.ctxDone ==> o == Execute(c, n, s.jobs[n].snapshot))
    case Record(n) => n in s.jobs && s.jobs[n].HasRun?
    case Publish(n) => n in s.jobs && s.jobs[n].Recorded?
    case RecordError(n) => n in s.jobs && s.jobs[n].Published?
    case Release(n) => n in s.jobs && s.jobs[n].Leaving?
  }

  ghost function Move(s: State, n: Name, j: Job): State {
    s.(jobs := s.jobs[n := j])
  }

  ghost function Apply(c: Config, s: State, a: Action): State
    requires Enabled(c, s, a)
  {
    match a
    case CancelContext => s.(ctxDone := true)
    case LeaveLoop => s.(scheduler := Joining)
    case ObserveCancel => s.(scheduler := Returned(true))
    case Scan => s.(scheduler := Launching(ReadySet(c, s)))
    case Sleep => s
    case Launch(n) =>
      var rest := s.scheduler.ready - {n};
      Move(s, n, Waiting).(pending := s.pending - {n},
                           scheduler := if rest == {} then AtLoopTop else Launching(rest))
    case Return => s.(scheduler := Returned(false))
    case Acquire(n) => Move(s, n, HasPermit).(permits := s.permits + 1)
    case CheckError(n) => Move(s, n, if s.firstErr.Some? && c.failFast then Skipping else Cleared)
    case PublishSkip(n) =>
      Move(s, n, Leaving(false)).(completed := s.completed[n := StageResult(n, Skipped, map[])])
    case TakeSnapshot(n) => Move(s, n, HasSnapshot(s.completed))
    case RunStage(n, o) => Move(s, n, HasRun(o)).(calls := s.calls + [Call(n, s.jobs[n].snapshot, o)])
    case Record(n) =>
      var o := s.jobs[n].outcome;
      Move(s, n, Recorded(o)).(results := s.results + [Entry(n, o.result)])
    case Publish(n) =>
      var o := s.jobs[n].outcome;
      Move(s, n, Published(o)).(completed := s.completed[n := o.result])
    case RecordError(n) =>
      Move(s, n, Leaving(true)).(
        firstErr := if s.jobs[n].outcome.err && s.firstErr == None then Some(n) else s.firstErr)
    case Release(n) => Move(s, n, Done(s.jobs[n].ran)).(permits := if s.permits > 0 then s.permits - 1 else 0)
  }

  ghost predicate Next(c: Config, s: State, a: Action, s': State) {
    Enabled(c, s, a) && s' == Apply(c, s, a)
  }

  ghost predicate Step(c: Config, s: State, s': State) {
    exists a :: Next(c, s, a, s')
  }

  ghost predicate StepAt(c: Config, tr: seq<State>, i: nat)
    requires i < |tr| - 1
  {
    Step(c, tr[i], tr[i + 1])
  }

  /** `tr` is a run of the executor, possibly unfinished. */
  ghost predicate IsRun(c: Config, tr: seq<State>) {
    && tr != [] && tr[0] == Init(c)
    && forall i :: 0 <= i < |tr| - 1 ==> StepAt(c, tr, i)
  }

  // ---- Invariants ----

  predicate Executed(j: Job) {
    j.HasRun? || j.Recorded? || j.Published? || (j.Leaving? && j.ran) || (j.Done? && j.ran)
  }

  predicate InResults(j: Job) {
    j.Recorded? || j.Published? || (j.Leaving? && j.ran) || (j.Done? && j.ran)
  }

  predicate InCompleted(j: Job) {
    j.Published? || j.Leaving? || j.Done?
  }

  predicate HoldsPermit(j: Job) {
    !j.Waiting? && !j.Done?
  }

  /** The stages between acquiring and releasing the semaphore. */
  ghost function Holders(s: State): set<Name> {
    set n | n in s.jobs && HoldsPermit(s.jobs[n])
  }

  /** `completed` holds the stages whose goroutine has published. */
  ghost predicate CompletedIff(s: State, n: Name) {
    n in s.completed <==> n in s.jobs && InCompleted(s.jobs[n])
  }

  ghost predicate Partition(c: Config, s: State) {
    && s.pending !! s.jobs.Keys && s.pending + s.jobs.Keys == Names(c.stages)
    && forall n :: CompletedIff(s, n)
  }

  ghost predicate SchedulerOk(c: Config, s: State) {
    match s.scheduler
    case AtLoopTop => true
    case Launching(ready) => ready != {} && forall n :: n in ready ==> Ready(c, s, n)
    case Joining => s.pending == {}
    case Returned(canceled) =>
      if canceled then s.ctxDone
      else s.pending == {} && forall n :: n in s.jobs ==> s.jobs[n].Done?
  }

  ghost predicate DepsPublished(c: Config, s: State) {
    forall n, d :: n in s.jobs && d in Deps(c, n) ==> d in s.completed
  }

  ghost predicate PermitsOk(c: Config, s: State) {
    s.permits == |Holders(s)| && s.permits <= c.maxWorkers
  }

  /** A map some goroutine copied: part of `completed`, closed under dependencies. */
  ghost predicate GoodSnapshot(c: Config, s: State, n: Name, snapshot: Completed) {
    && (forall k :: k in snapshot ==> k in s.completed && snapshot[k] == s.completed[k])
    && Closed(GraphOf(c.stages), snapshot.Keys)
    && (forall d :: d in Deps(c, n) ==> d in snapshot)
  }

  ghost predicate SnapshotsOk(c: Config, s: State) {
    && (forall n :: n in s.jobs && s.jobs[n].HasSnapshot? ==> GoodSnapshot(c, s, n, s.jobs[n].snapshot))
    && (forall i :: 0 <= i < |s.calls| ==> GoodSnapshot(c, s, s.calls[i].name, s.calls[i].snapshot))
  }

  ghost predicate DidRun(s: State, n: Name) {
    n in s.jobs && Executed(s.jobs[n])
  }

  ghost predicate DidRecord(s: State, n: Name) {
    n in s.jobs && InResults(s.jobs[n])
  }

  ghost predicate CallsOk(c: Config, s: State) {
    && (forall i, j :: 0 <= i < j < |s.calls| ==> s.calls[i].name != s.calls[j].name)
    && (forall n :: DidRun(s, n) <==> Called(s, n))
  }

  ghost predicate Called(s: State, n: Name) {
    exists i :: 0 <= i < |s.calls| && s.calls[i].name == n
  }

  /** An appended entry is what the job publishes. */
  ghost predicate EntryTracked(s: State, e: Entry) {
    && (e.name in s.completed ==> s.completed[e.name] == e.result)
    && (e.name in s.jobs && s.jobs[e.name].Recorded? ==> s.jobs[e.name].outcome.result == e.result)
  }

  ghost predicate ResultsOk(c: Config, s: State) {
    && (forall i, j :: 0 <= i < j < |s.results| ==> s.results[i].name != s.results[j].name)
    && (forall n :: DidRecord(s, n) <==> InResultList(s, n))
    && (forall i :: 0 <= i < |s.results| ==> EntryTracked(s, s.results[i]))
  }

  ghost predicate InResultList(s: State, n: Name) {
    exists i :: 0 <= i < |s.results| && s.results[i].name == n
  }

  /** `n` was called and returned an error. */
  ghost predicate Erred(s: State, n: Name) {
    exists i :: 0 <= i < |s.calls| && s.calls[i].name == n && s.calls[i].outcome.err
  }

  ghost predicate HasOutcome(j: Job) {
    j.HasRun? || j.Recorded? || j.Published?
  }

  /** While a job still carries its outcome, that is the outcome of its call; an error that
      is no longer carried has reached `firstErr`. What is published is the call's result. */
  ghost predicate CallTracked(s: State, call: Call) {
    && call.name in s.jobs
    && (HasOutcome(s.jobs[call.name]) ==> s.jobs[call.name].outcome == call.outcome)
    && (call.outcome.err ==> HasOutcome(s.jobs[call.name]) || s.firstErr.Some?)
    && (call.name in s.completed ==> s.completed[call.name] == call.outcome.result)
  }

  predicate SawError(j: Job) {
    j.Skipping? || (j.Leaving? && !j.ran) || (j.Done? && !j.ran)
  }

  /** A stage that saw an error completes as skipped. */
  ghost predicate SkipTracked(s: State, n: Name) {
    n in s.jobs && SawError(s.jobs[n]) && n in s.completed ==> s.completed[n] == StageResult(n, Skipped, map[])
  }

  ghost predicate ErrorsOk(c: Config, s: State) {
    && (s.firstErr.Some? ==> Erred(s, s.firstErr.value))
    && (forall i :: 0 <= i < |s.calls| ==> CallTracked(s, s.calls[i]))
    && (forall n :: n in s.jobs && SawError(s.jobs[n]) ==> c.failFast && s.firstErr.Some?)
    && (forall n :: SkipTracked(s, n))
  }

  ghost predicate Inv(c: Config, s: State) {
    && Partition(c, s) && SchedulerOk(c, s) && DepsPublished(c, s) && PermitsOk(c, s)
    && SnapshotsOk(c, s) && CallsOk(c, s) && ResultsOk(c, s) && ErrorsOk(c, s)
  }

  lemma InvInit(c: Config)
    ensures Inv(c, Init(c))
  {
    assert Holders(Init(c)) == {};
  }

  /** Only a pending stage is launched. */
  ghost predicate Clean(s: State, a: Action) {
    a.Launch? ==> a.name in s.pending && a.name !in s.jobs
  }

  lemma LaunchesAreClean(c: Config, s: State, a: Action)
    requires Partition(c, s) && SchedulerOk(c, s) && Enabled(c, s, a)
    ensures Clean(s, a)
  {
  }

  /** The stage whose goroutine an action launches or advances. */
  ghost function Mover(a: Action): Option<Name> {
    match a
    case CancelContext => None
    case LeaveLoop => None
    case ObserveCancel => None
    case Scan => None
    case Sleep => None
    case Return => None
    case _ => Some(a.name)
  }

  // ---- What one action changes, seen from one stage ----

  lemma JobsStep(c: Config, s: State, a: Action, s': State)
    requires Clean(s, a) && Next(c, s, a, s')
    ensures Mover(a).None? ==> s'.jobs == s.jobs && s'.pending == s.pending && s'.permits == s.permits
    ensures Mover(a).Some? ==>
              var n := Mover(a).value;
              && n in s'.jobs && s'.jobs == s.jobs[n := s'.jobs[n]] && (a.Launch? || n in s.jobs)
              && s'.pending == if a.Launch? then s.pending - {n} else s.pending
  {
  }

  lemma DidRunStep(c: Config, s: State, a: Action, s': State, n: Name)
    requires Clean(s, a) && Next(c, s, a, s')
    ensures DidRun(s', n) <==> DidRun(s, n) || (a.RunStage? && a.name == n)
    ensures DidRecord(s', n) <==> DidRecord(s, n) || (a.Record? && a.name == n)
    ensures a.RunStage? ==> !DidRun(s, a.name)
    ensures a.Record? ==> !DidRecord(s, a.name)
  {
  }

  lemma ListsStep(c: Config, s: State, a: Action, s': State)
    requires Next(c, s, a, s')
    ensures s'.calls == s.calls + (if a.RunStage? && a.name in s.jobs && s.jobs[a.name].HasSnapshot?
                                   then [Call(a.name, s.jobs[a.name].snapshot, a.outcome)] else [])
    ensures s'.results == s.results + (if a.Record? && a.name in s.jobs && s.jobs[a.name].HasRun?
                                       then [Entry(a.name, s.jobs[a.name].outcome.result)] else [])
    ensures a.RunStage? ==> a.name in s.jobs && s.jobs[a.name].HasSnapshot?
    ensures a.Record? ==> a.name in s.jobs && s.jobs[a.name].HasRun?
  {
  }

  // ---- Each part of the invariant is kept ----

  lemma PartitionStep(c: Config, s: State, a: Action, s': State)
    requires Partition(c, s) && SchedulerOk(c, s) && Next(c, s, a, s')
    ensures Partition(c, s')
  {
    LaunchesAreClean(c, s, a);
    JobsStep(c, s, a, s');
    forall n ensures CompletedIff(s', n) {
      assert CompletedIff(s, n);
    }
  }

  lemma DepsPublishedStep(c: Config, s: State, a: Action, s': State)
    requires DepsPublished(c, s) && SchedulerOk(c, s) && Next(c, s, a, s')
    ensures DepsPublished(c, s')
  {
  }

  lemma HoldersMove(s: State, n: Name, j: Job)
    ensures Holders(Move(s, n, j)) == if HoldsPermit(j) then Holders(s) + {n} else Holders(s) - {n}
  {
  }

  lemma PermitsStep(c: Config, s: State, a: Action, s': State)
    requires Partition(c, s) && SchedulerOk(c, s) && PermitsOk(c, s)
    requires Next(c, s, a, s')
    ensures PermitsOk(c, s')
  {
    LaunchesAreClean(c, s, a);
    JobsStep(c, s, a, s');
    if Mover(a).None? {
      assert Holders(s') == Holders(s);
    } else {
      PermitsMoved(c, s, s', Mover(a).value);
    }
  }

  lemma PermitsMoved(c: Config, s: State, s': State, n: Name)
    requires PermitsOk(c, s) && n in s'.jobs && s'.jobs == s.jobs[n := s'.jobs[n]]
    requires var held, holds := n in s.jobs && HoldsPermit(s.jobs[n]), HoldsPermit(s'.jobs[n]);
             && (held == holds ==> s'.permits == s.permits)
             && (!held && holds ==> s'.permits == s.permits + 1 <= c.maxWorkers)
             && (held && !holds && s.permits > 0 ==> s'.permits == s.permits - 1)
    ensures PermitsOk(c, s')
  {
    HoldersMove(s, n, s'.jobs[n]);
    assert Holders(s') == Holders(Move(s, n, s'.jobs[n]));
    if n in Holders(s) {
      assert Holders(s) + {n} == Holders(s);
    } else {
      assert Holders(s) - {n} == Holders(s);
    }
  }

  lemma CompletedGrows(c: Config, s: State, a: Action, s': State)
    requires Partition(c, s) && SchedulerOk(c, s) && Next(c, s, a, s')
    ensures forall k :: k in s.completed ==> k in s'.completed && s'.completed[k] == s.completed[k]
  {
    LaunchesAreClean(c, s, a);
    forall k | k in s.completed ensures k in s'.completed && s'.completed[k] == s.completed[k] {
      assert CompletedIff(s, k);
    }
  }

  lemma CompletedIsClosed(c: Config, s: State)
    requires Partition(c, s) && DepsPublished(c, s)
    ensures Closed(GraphOf(c.stages), s.completed.Keys)
  {
    forall n | n in s.completed ensures n in s.jobs {
      assert CompletedIff(s, n);
    }
  }

  lemma SnapshotKept(c: Config, s: State, s': State, n: Name, snapshot: Completed)
    requires GoodSnapshot(c, s, n, snapshot)
    requires forall k :: k in s.completed ==> k in s'.completed && s'.completed[k] == s.completed[k]
    ensures GoodSnapshot(c, s', n, snapshot)
  {
  }

  lemma SnapshotsStep(c: Config, s: State, a: Action, s': State)
    requires Partition(c, s) && SchedulerOk(c, s) && DepsPublished(c, s) && SnapshotsOk(c, s)
    requires Next(c, s, a, s')
    ensures SnapshotsOk(c, s')
  {
    LaunchesAreClean(c, s, a);
    CompletedGrows(c, s, a, s');
    CompletedIsClosed(c, s);
    forall n | n in s'.jobs && s'.jobs[n].HasSnapshot?
      ensures GoodSnapshot(c, s', n, s'.jobs[n].snapshot)
    {
      SnapshotKept(c, s, s', n, s'.jobs[n].snapshot);
    }
    ListsStep(c, s, a, s');
    forall i | 0 <= i < |s'.calls|
      ensures GoodSnapshot(c, s', s'.calls[i].name, s'.calls[i].snapshot)
    {
      SnapshotKept(c, s, s', s'.calls[i].name, s'.calls[i].snapshot);
    }
  }

  lemma CallsStep(c: Config, s: State, a: Action, s': State)
    requires Partition(c, s) && SchedulerOk(c, s) && CallsOk(c, s)
    requires Next(c, s, a, s')
    ensures CallsOk(c, s')
  {
    LaunchesAreClean(c, s, a);
    ListsStep(c, s, a, s');
    var added := s'.calls[|s.calls|..];
    forall n ensures DidRun(s', n) <==> Called(s', n) {
      DidRunStep(c, s, a, s', n);
      CalledExtends(s, s', n, added);
    }
    forall i, j | 0 <= i < j < |s'.calls| ensures s'.calls[i].name != s'.calls[j].name {
      if j == |s.calls| {
        assert Called(s, s.calls[i].name);
        DidRunStep(c, s, a, s', a.name);
      }
    }
  }

  lemma CalledExtends(s: State, s': State, n: Name, added: seq<Call>)
    requires s'.calls == s.calls + added && |added| <= 1
    ensures Called(s', n) <==> Called(s, n) || (added != [] && added[0].name == n)
  {
    if Called(s, n) {
      var i :| 0 <= i < |s.calls| && s.calls[i].name == n;
      assert s'.calls[i].name == n;
    }
    if added != [] {
      assert s'.calls[|s.calls|] == added[0];
    }
  }

  lemma ResultsStep(c: Config, s: State, a: Action, s': State)
    requires Partition(c, s) && SchedulerOk(c, s) && ResultsOk(c, s)
    requires Next(c, s, a, s')
    ensures ResultsOk(c, s')
  {
    LaunchesAreClean(c, s, a);
    ListsStep(c, s, a, s');
    var added := s'.results[|s.results|..];
    forall n ensures DidRecord(s', n) <==> InResultList(s', n) {
      DidRunStep(c, s, a, s', n);
      ListExtends(s, s', n, added);
    }
    forall i, j | 0 <= i < j < |s'.results| ensures s'.results[i].name != s'.results[j].name {
      if j == |s.results| {
        assert InResultList(s, s.results[i].name);
        DidRunStep(c, s, a, s', a.name);
      }
    }
    forall i | 0 <= i < |s'.results| ensures EntryTracked(s', s'.results[i]) {
      if i < |s.results| {
        assert InResultList(s, s.results[i].name);
      } else {
        assert CompletedIff(s, a.name);
        NewEntry(c, s, a, s');
      }
    }
  }

  lemma ListExtends(s: State, s': State, n: Name, added: seq<Entry>)
    requires s'.results == s.results + added && |added| <= 1
    ensures InResultList(s', n) <==> InResultList(s, n) || (added != [] && added[0].name == n)
  {
    if InResultList(s, n) {
      var i :| 0 <= i < |s.results| && s.results[i].name == n;
      assert s'.results[i].name == n;
    }
    if added != [] {
      assert s'.results[|s.results|] == added[0];
    }
  }

  lemma NewEntry(c: Config, s: State, a: Action, s': State)
    requires Next(c, s, a, s') && a.Record? && CompletedIff(s, a.name)
    ensures EntryTracked(s', Entry(a.name, s.jobs[a.name].outcome.result))
  {
  }

  lemma ErrorsStep(c: Config, s: State, a: Action, s': State)
    requires Partition(c, s) && SchedulerOk(c, s) && CallsOk(c, s) && ErrorsOk(c, s)
    requires Next(c, s, a, s')
    ensures ErrorsOk(c, s')
  {
    LaunchesAreClean(c, s, a);
    ListsStep(c, s, a, s');
    forall i | 0 <= i < |s'.calls| ensures CallTracked(s', s'.calls[i]) {
      if i < |s.calls| {
        assert Called(s, s.calls[i].name);
        CallStep(c, s, a, s', s.calls[i]);
      } else {
        assert CompletedIff(s, a.name);
        NewCall(c, s, a, s');
      }
    }
    forall n | n in s'.jobs && SawError(s'.jobs[n]) ensures c.failFast && s'.firstErr.Some? {
      SawErrorStep(c, s, a, s', n);
    }
    forall n ensures SkipTracked(s', n) {
      assert SkipTracked(s, n) && CompletedIff(s, n);
    }
    if s'.firstErr.Some? {
      FirstErrStep(c, s, a, s');
    }
  }

  lemma CallStep(c: Config, s: State, a: Action, s': State, call: Call)
    requires Clean(s, a) && Next(c, s, a, s') && CallTracked(s, call) && DidRun(s, call.name)
    ensures CallTracked(s', call)
  {
  }

  lemma NewCall(c: Config, s: State, a: Action, s': State)
    requires Next(c, s, a, s') && a.RunStage? && CompletedIff(s, a.name)
    ensures a.name in s.jobs && s.jobs[a.name].HasSnapshot?
    ensures CallTracked(s', Call(a.name, s.jobs[a.name].snapshot, a.outcome))
  {
  }

  lemma SawErrorStep(c: Config, s: State, a: Action, s': State, n: Name)
    requires Clean(s, a) && Next(c, s, a, s') && n in s'.jobs && SawError(s'.jobs[n])
    requires n in s.jobs && SawError(s.jobs[n]) ==> c.failFast && s.firstErr.Some?
    ensures c.failFast && s'.firstErr.Some?
  {
  }

  lemma FirstErrStep(c: Config, s: State, a: Action, s': State)
    requires CallsOk(c, s) && ErrorsOk(c, s) && Next(c, s, a, s')
    requires s'.firstErr.Some?
    ensures Erred(s', s'.firstErr.value)
  {
    var n := s'.firstErr.value;
    if s.firstErr.None? {
      assert DidRun(s, n);
      var i :| 0 <= i < |s.calls| && s.calls[i].name == n;
      assert CallTracked(s, s.calls[i]);
      assert s'.calls[i].outcome.err;
    } else {
      var i :| 0 <= i < |s.calls| && s.calls[i].name == n && s.calls[i].outcome.err;
      assert s'.calls[i] == s.calls[i];
    }
  }

  lemma InvStep(c: Config, s: State, a: Action, s': State)
    requires Inv(c, s) && Next(c, s, a, s')
    ensures Inv(c, s')
  {
    PartitionStep(c, s, a, s');
    DepsPublishedStep(c, s, a, s');
    PermitsStep(c, s, a, s');
    SnapshotsStep(c, s, a, s');
    CallsStep(c, s, a, s');
    ResultsStep(c, s, a, s');
    ErrorsStep(c, s, a, s');
  }

  /** Every state of every run satisfies the invariant. */
  lemma {:induction false} RunInvariant(c: Config, tr: seq<State>, i: nat)
    requires IsRun(c, tr) && i < |tr|
    ensures Inv(c, tr[i])
  {
    if i == 0 {
      InvInit(c);
    } else {
      RunInvariant(c, tr, i - 1);
      assert StepAt(c, tr, i - 1);
      var a :| Next(c, tr[i - 1], a, tr[i]);
      InvStep(c, tr[i - 1], a, tr[i]);
    }
  }

  lemma StepTaken(c: Config, tr: seq<State>, i: nat) returns (a: Action)
    requires IsRun(c, tr) && 1 <= i < |tr|
    ensures Inv(c, tr[i - 1]) && Next(c, tr[i - 1], a, tr[i])
  {
    RunInvariant(c, tr, i - 1);
    assert StepAt(c, tr, i - 1);
    a :| Next(c, tr[i - 1], a, tr[i]);
  }
}
