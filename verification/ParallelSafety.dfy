/** What holds in every state of every run of the parallel executor, whether or not the
    context was canceled. */
module ParallelSafety {
  import opened Graphs
  import opened Pipelines
  import opened Execution
  import opened Parallel

  ghost predicate InFlight(s: State, n: Name) {
    n in s.jobs && n !in s.completed
  }

  ghost function Executing(s: State): set<Name> {
    set n | n in s.jobs && s.jobs[n].HasSnapshot?
  }

  ghost predicate ExactlyOne(a: bool, b: bool, c: bool) {
    (a || b || c) && !(a && b) && !(a && c) && !(b && c)
  }

  /** Each stage is pending, in flight or completed, and only one of them; it is handed to
      its runner at most once; at most `maxWorkers` stages are inside their runners. */
  lemma EachStageInOnePlace(c: Config, tr: seq<State>, i: nat)
    requires IsRun(c, tr) && i < |tr|
    ensures forall n :: n in Names(c.stages) ==>
              ExactlyOne(n in tr[i].pending, InFlight(tr[i], n), n in tr[i].completed)
    ensures forall j, k :: 0 <= j < k < |tr[i].calls| ==> tr[i].calls[j].name != tr[i].calls[k].name
    ensures |Executing(tr[i])| <= c.maxWorkers
  {
    RunInvariant(c, tr, i);
    forall n | n in Names(c.stages)
      ensures ExactlyOne(n in tr[i].pending, InFlight(tr[i], n), n in tr[i].completed)
    {
      assert CompletedIff(tr[i], n);
    }
    assert Executing(tr[i]) <= Holders(tr[i]);
    SubsetSize(Executing(tr[i]), Holders(tr[i]));
  }

  /** A runner is only ever called with a snapshot that holds the final result of every
      stage its stage depends on, directly or transitively. */
  lemma CallsSeeAllDependencies(c: Config, tr: seq<State>, i: nat, k: nat, d: Name)
    requires IsRun(c, tr) && i < |tr| && k < |tr[i].calls|
    requires Reaches(GraphOf(c.stages), tr[i].calls[k].name, d)
    ensures d in tr[i].calls[k].snapshot && d in tr[i].completed
    ensures tr[i].calls[k].snapshot[d] == tr[i].completed[d]
  {
    RunInvariant(c, tr, i);
    var call := tr[i].calls[k];
    assert GoodSnapshot(c, tr[i], call.name, call.snapshot);
    ClosedHoldsReached(GraphOf(c.stages), call.snapshot.Keys, call.name, d);
  }

  /** A stage is launched only when everything it depends on is in `completed`; entries of
      `completed` and calls made are never changed or dropped afterwards. */
  lemma {:induction false} HistoryOnlyGrows(c: Config, tr: seq<State>, i: nat, j: nat)
    requires IsRun(c, tr) && i <= j < |tr|
    ensures forall n :: n in tr[i].completed ==>
              n in tr[j].completed && tr[j].completed[n] == tr[i].completed[n]
    ensures forall n, d :: n in tr[j].jobs && d in Deps(c, n) ==> d in tr[j].completed
    ensures tr[i].calls <= tr[j].calls
    ensures tr[i].firstErr.Some? ==> tr[j].firstErr == tr[i].firstErr
    ensures tr[i].ctxDone ==> tr[j].ctxDone
  {
    RunInvariant(c, tr, j);
    if i < j {
      HistoryOnlyGrows(c, tr, i, j - 1);
      var a := StepTaken(c, tr, j);
      CompletedGrows(c, tr[j - 1], a, tr[j]);
    }
  }

  /** A stage that has not yet passed its error check. */
  ghost predicate NotYetChecked(s: State, n: Name) {
    n in s.pending || (n in s.jobs && (s.jobs[n].Waiting? || s.jobs[n].HasPermit?))
  }

  /** A stage whose error check comes after the first error was recorded, or came out that way. */
  ghost predicate Doomed(c: Config, s: State, n: Name) {
    && c.failFast && s.firstErr.Some?
    && (NotYetChecked(s, n) || (n in s.jobs && SawError(s.jobs[n])))
    && (n in s.completed ==> s.completed[n] == StageResult(n, Skipped, map[]))
  }

  lemma DoomedStep(c: Config, s: State, a: Action, s': State, n: Name)
    requires Clean(s, a) && Next(c, s, a, s') && Doomed(c, s, n) && (n in s.jobs ==> n !in s.pending)
    ensures Doomed(c, s', n)
  {
  }

  /** Fail-fast: once an error is recorded, a stage that has not been checked yet is never run,
      and if it completes it completes as skipped. */
  lemma {:induction false} FailFastSkips(c: Config, tr: seq<State>, i: nat, j: nat, n: Name)
    requires IsRun(c, tr) && i <= j < |tr| && n in Names(c.stages)
    requires c.failFast && tr[i].firstErr.Some? && NotYetChecked(tr[i], n)
    ensures Doomed(c, tr[j], n) && !Called(tr[j], n)
    ensures n in tr[j].completed ==> tr[j].completed[n].status == Skipped
    decreases j
  {
    if i == j {
      RunInvariant(c, tr, j);
      UncheckedIsDoomed(c, tr[j], n);
    } else {
      FailFastSkips(c, tr, i, j - 1, n);
      DoomedNext(c, tr, j, n);
    }
  }

  lemma DoomedNext(c: Config, tr: seq<State>, j: nat, n: Name)
    requires IsRun(c, tr) && 1 <= j < |tr| && Doomed(c, tr[j - 1], n)
    ensures Doomed(c, tr[j], n) && !Called(tr[j], n)
    ensures n in tr[j].completed ==> tr[j].completed[n].status == Skipped
  {
    var a := StepTaken(c, tr, j);
    DoomedStays(c, tr[j - 1], a, tr[j], n);
  }

  lemma DoomedStays(c: Config, s: State, a: Action, s': State, n: Name)
    requires Inv(c, s) && Next(c, s, a, s') && Doomed(c, s, n)
    ensures Doomed(c, s', n) && !Called(s', n)
    ensures n in s'.completed ==> s'.completed[n].status == Skipped
  {
    LaunchesAreClean(c, s, a);
    DoomedStep(c, s, a, s', n);
    CallsStep(c, s, a, s');
    PartitionStep(c, s, a, s');
  }

  lemma UncheckedIsDoomed(c: Config, s: State, n: Name)
    requires Partition(c, s) && CallsOk(c, s) && c.failFast && s.firstErr.Some? && NotYetChecked(s, n)
    ensures Doomed(c, s, n) && !Called(s, n)
  {
    assert CompletedIff(s, n);
    assert !DidRun(s, n);
  }

  /** At a normal return every stage is completed, and either was called once, with its result
      listed and published, or was skipped because of an earlier error under fail-fast. */
  lemma NormalReturnIsComplete(c: Config, tr: seq<State>, i: nat, n: Name)
    requires IsRun(c, tr) && i < |tr| && tr[i].scheduler == Returned(false) && n in Names(c.stages)
    ensures n in tr[i].completed
    ensures Called(tr[i], n) <==> InResultList(tr[i], n)
    ensures !Called(tr[i], n) ==>
              c.failFast && tr[i].firstErr.Some? && tr[i].completed[n] == StageResult(n, Skipped, map[])
    ensures forall k :: 0 <= k < |tr[i].calls| && tr[i].calls[k].name == n ==>
              tr[i].completed[n] == tr[i].calls[k].outcome.result
    ensures forall k :: 0 <= k < |tr[i].results| && tr[i].results[k].name == n ==>
              tr[i].completed[n] == tr[i].results[k].result
    ensures tr[i].firstErr.Some? <==> exists k :: 0 <= k < |tr[i].calls| && tr[i].calls[k].outcome.err
  {
    RunInvariant(c, tr, i);
    var s := tr[i];
    assert n in s.jobs && s.jobs[n].Done?;
    assert CompletedIff(s, n);
    assert DidRun(s, n) <==> s.jobs[n].ran;
    assert DidRecord(s, n) <==> s.jobs[n].ran;
    forall k | 0 <= k < |s.results| && s.results[k].name == n
      ensures s.completed[n] == s.results[k].result
    {
      assert EntryTracked(s, s.results[k]);
    }
    assert SkipTracked(s, n);
    forall k | 0 <= k < |s.calls| && s.calls[k].name == n
      ensures s.completed[n] == s.calls[k].outcome.result
    {
      assert CallTracked(s, s.calls[k]);
    }
    forall k | 0 <= k < |s.calls| && s.calls[k].outcome.err ensures s.firstErr.Some? {
      assert CallTracked(s, s.calls[k]);
    }
  }
}
