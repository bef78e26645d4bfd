/** Without fail-fast and cancellation, every complete interleaving of the parallel executor
    computes what the sequential executor computes on any topological order. */
module Confluence {
  import opened Graphs
  import opened Pipelines
  import opened Topological
  import opened Execution
  import opened Parallel
  import opened ParallelSafety

  /** Both maps hold the same result for everything `n` depends on. */
  ghost predicate AgreeBelow(c: Config, n: Name, m: Completed, m': Completed) {
    forall d :: Reaches(GraphOf(c.stages), n, d) ==> d in m && d in m' && m[d] == m'[d]
  }

  /** What a stage returns depends only on its direct and transitive dependencies' results. */
  ghost predicate Local(c: Config) {
    forall n, m, m' {:trigger Execute(c, n, m), Execute(c, n, m')} ::
      n in Names(c.stages) && AgreeBelow(c, n, m, m') ==> Execute(c, n, m) == Execute(c, n, m')
  }

  /** `f` gives every stage the result it computes from `f` itself. */
  ghost predicate Solution(c: Config, f: Completed) {
    f.Keys == Names(c.stages) && forall n :: n in f ==> f[n] == Execute(c, n, f).result
  }

  ghost predicate Submap(m: Completed, f: Completed) {
    forall k :: k in m ==> k in f && m[k] == f[k]
  }

  /** Two maps with a common, dependency-closed part that covers `n`'s dependencies. */
  lemma ClosedPartAgrees(c: Config, n: Name, part: Completed, f: Completed)
    requires Submap(part, f) && Closed(GraphOf(c.stages), part.Keys)
    requires forall d :: d in Deps(c, n) ==> d in part
    ensures AgreeBelow(c, n, part, f)
  {
    forall d | Reaches(GraphOf(c.stages), n, d) ensures d in part && d in f && part[d] == f[d] {
      ClosedHoldsReached(GraphOf(c.stages), part.Keys, n, d);
    }
  }

  // ---- The sequential run is a solution, and there is only one ----

  lemma {:induction false} PrefixMap(c: Config, order: seq<Name>, k: nat)
    requires Distinct(order) && k <= |order|
    ensures CompletedAfter(c, order[..k]).Keys == Elements(order[..k])
    ensures Submap(CompletedAfter(c, order[..k]), CompletedAfter(c, order))
    ensures k < |order| ==> order[k] in CompletedAfter(c, order)
                            && CompletedAfter(c, order)[order[k]] == OutcomeAt(c, order, k).result
    decreases |order| - k, 1
  {
    PrefixKeys(c, order[..k]);
    if k == |order| {
      assert order[..k] == order;
    } else {
      PrefixMap(c, order, k + 1);
      ResultsExtend(c, order, k);
      assert order[k] !in order[..k];
    }
  }

  lemma {:induction false} PrefixKeys(c: Config, order: seq<Name>)
    ensures CompletedAfter(c, order).Keys == Elements(order)
  {
    if order != [] {
      PrefixKeys(c, order[..|order| - 1]);
      assert Elements(order) == Elements(order[..|order| - 1]) + {order[|order| - 1]};
    }
  }

  lemma PrefixCovers(c: Config, order: seq<Name>, k: nat)
    requires IsTopologicalOrder(c.stages, order) && k < |order|
    ensures Closed(GraphOf(c.stages), Elements(order[..k]))
    ensures forall d :: d in Deps(c, order[k]) ==> d in Elements(order[..k])
  {
    forall n, d | n in Elements(order[..k]) && d in Deps(c, n) ensures d in Elements(order[..k]) {
      var i :| 0 <= i < k && order[i] == n;
      assert d in order[..i];
      assert order[..k][..i] == order[..i];
    }
  }

  lemma SequentialSolves(c: Config, order: seq<Name>)
    requires Local(c) && IsTopologicalOrder(c.stages, order)
    ensures Solution(c, CompletedAfter(c, order))
    ensures forall k :: 0 <= k < |order| ==>
              OutcomeAt(c, order, k) == Execute(c, order[k], CompletedAfter(c, order))
  {
    var f := CompletedAfter(c, order);
    PrefixKeys(c, order);
    forall k | 0 <= k < |order|
      ensures OutcomeAt(c, order, k) == Execute(c, order[k], f) && f[order[k]] == Execute(c, order[k], f).result
    {
      var part := CompletedAfter(c, order[..k]);
      PrefixMap(c, order, k);
      PrefixCovers(c, order, k);
      ClosedPartAgrees(c, order[k], part, f);
      assert order[k] in Elements(order);
      assert Execute(c, order[k], part) == Execute(c, order[k], f);
    }
  }

  ghost predicate AgreeUpTo(order: seq<Name>, f: Completed, g: Completed, k: nat)
    requires k <= |order|
  {
    forall j :: 0 <= j < k ==> AgreeAt(order, f, g, j)
  }

  ghost predicate AgreeAt(order: seq<Name>, f: Completed, g: Completed, j: nat)
    requires j < |order|
  {
    order[j] in f && order[j] in g && f[order[j]] == g[order[j]]
  }

  lemma SolutionsAgreeAt(c: Config, order: seq<Name>, f: Completed, g: Completed, k: nat)
    requires Local(c) && IsTopologicalOrder(c.stages, order) && Solution(c, f) && Solution(c, g)
    requires k < |order| && AgreeUpTo(order, f, g, k)
    ensures AgreeAt(order, f, g, k)
  {
    var n := order[k];
    assert n in Elements(order);
    PrefixCovers(c, order, k);
    var part := map m | m in Elements(order[..k]) && m in f :: f[m];
    forall m | m in Elements(order[..k]) ensures m in part && part[m] == f[m] == g[m] && m in g {
      var j :| 0 <= j < k && order[j] == m;
      assert AgreeAt(order, f, g, j);
    }
    assert part.Keys == Elements(order[..k]);
    ClosedPartAgrees(c, n, part, f);
    ClosedPartAgrees(c, n, part, g);
    assert Execute(c, n, f) == Execute(c, n, g);
  }

  lemma SolutionsAgree(c: Config, order: seq<Name>, f: Completed, g: Completed)
    requires Local(c) && IsTopologicalOrder(c.stages, order) && Solution(c, f) && Solution(c, g)
    ensures f == g
  {
    for k := 0 to |order|
      invariant AgreeUpTo(order, f, g, k)
    {
      SolutionsAgreeAt(c, order, f, g, k);
      AgreeOneMore(order, f, g, k);
    }
    AgreeEverywhere(order, f, g);
  }

  lemma AgreeOneMore(order: seq<Name>, f: Completed, g: Completed, k: nat)
    requires k < |order| && AgreeUpTo(order, f, g, k) && AgreeAt(order, f, g, k)
    ensures AgreeUpTo(order, f, g, k + 1)
  {
  }

  lemma AgreeEverywhere(order: seq<Name>, f: Completed, g: Completed)
    requires f.Keys == Elements(order) == g.Keys && AgreeUpTo(order, f, g, |order|)
    ensures f == g
  {
    forall m | m in f ensures f[m] == g[m] {
      var j :| 0 <= j < |order| && order[j] == m;
      assert AgreeAt(order, f, g, j);
    }
  }

  /** The sequential result does not depend on which topological order is taken. */
  lemma OrderDoesNotMatter(c: Config, order: seq<Name>, order': seq<Name>)
    requires Local(c) && IsTopologicalOrder(c.stages, order) && IsTopologicalOrder(c.stages, order')
    ensures CompletedAfter(c, order) == CompletedAfter(c, order')
  {
    SequentialSolves(c, order);
    SequentialSolves(c, order');
    SolutionsAgree(c, order, CompletedAfter(c, order), CompletedAfter(c, order'));
  }

  // ---- The parallel run follows the solution ----

  ghost predicate JobFollows(c: Config, f: Completed, n: Name, j: Job) {
    HasOutcome(j) ==> j.outcome == Execute(c, n, f)
  }

  ghost predicate Follows(c: Config, s: State, f: Completed) {
    && Submap(s.completed, f)
    && (forall n :: n in s.jobs ==> JobFollows(c, f, n, s.jobs[n]))
    && CallsFollow(c, s.calls, f)
  }

  ghost predicate CallsFollow(c: Config, calls: seq<Call>, f: Completed) {
    forall i :: 0 <= i < |calls| ==> calls[i].outcome == Execute(c, calls[i].name, f)
  }

  lemma RunsAsSolution(c: Config, s: State, f: Completed, n: Name)
    requires Local(c) && Solution(c, f) && Partition(c, s) && SnapshotsOk(c, s) && Submap(s.completed, f)
    requires n in s.jobs && s.jobs[n].HasSnapshot?
    ensures n in f && Execute(c, n, s.jobs[n].snapshot) == Execute(c, n, f)
  {
    var part := s.jobs[n].snapshot;
    assert GoodSnapshot(c, s, n, part);
    ClosedPartAgrees(c, n, part, f);
  }

  /** No stage sees an error: there is no fail-fast, or no error is recorded yet. */
  ghost predicate NothingSkips(c: Config, s: State) {
    !c.failFast || s.firstErr.None?
  }

  lemma FollowsStep(c: Config, s: State, a: Action, s': State, f: Completed)
    requires Local(c) && Solution(c, f) && NothingSkips(c, s) && Inv(c, s) && Next(c, s, a, s')
    requires !s.ctxDone && Follows(c, s, f)
    ensures Follows(c, s', f)
  {
    LaunchesAreClean(c, s, a);
    if a.RunStage? {
      RunsAsSolution(c, s, f, a.name);
    }
    forall k | k in s'.completed ensures k in f && s'.completed[k] == f[k] {
      CompletedFollows(c, s, a, s', f, k);
    }
    forall n | n in s'.jobs ensures JobFollows(c, f, n, s'.jobs[n]) {
      JobFollowsStep(c, s, a, s', f, n);
    }
    ListsStep(c, s, a, s');
    CallsFollowMore(c, s.calls, s'.calls[|s.calls|..], f);
  }

  lemma CallsFollowMore(c: Config, calls: seq<Call>, added: seq<Call>, f: Completed)
    requires CallsFollow(c, calls, f) && CallsFollow(c, added, f)
    ensures CallsFollow(c, calls + added, f)
  {
  }

  lemma JobFollowsStep(c: Config, s: State, a: Action, s': State, f: Completed, n: Name)
    requires Clean(s, a) && Next(c, s, a, s') && n in s'.jobs
    requires n in s.jobs ==> JobFollows(c, f, n, s.jobs[n])
    requires a.RunStage? ==> a.outcome == Execute(c, a.name, f)
    ensures JobFollows(c, f, n, s'.jobs[n])
  {
  }

  lemma CompletedOrigin(c: Config, s: State, a: Action, s': State, k: Name)
    requires Next(c, s, a, s') && k in s'.completed
    ensures (k in s.completed && s'.completed[k] == s.completed[k])
            || (k in s.jobs && s.jobs[k].Recorded? && s'.completed[k] == s.jobs[k].outcome.result)
            || (k in s.jobs && s.jobs[k].Skipping?)
  {
  }

  lemma CompletedFollows(c: Config, s: State, a: Action, s': State, f: Completed, k: Name)
    requires Solution(c, f) && Next(c, s, a, s')
    requires Submap(s.completed, f) && k in s'.completed
    requires k in s.jobs ==> k in Names(c.stages) && JobFollows(c, f, k, s.jobs[k]) && !SawError(s.jobs[k])
    ensures k in f && s'.completed[k] == f[k]
  {
    CompletedOrigin(c, s, a, s', k);
    if k in s.jobs && s.jobs[k].Skipping? {
      assert false;
    }
  }

  lemma {:induction false} RunFollows(c: Config, tr: seq<State>, i: nat, f: Completed)
    requires Local(c) && Solution(c, f) && IsRun(c, tr) && i < |tr| && !tr[i].ctxDone && NothingSkips(c, tr[i])
    ensures Follows(c, tr[i], f)
  {
    if i > 0 {
      var a := StepTaken(c, tr, i);
      HistoryOnlyGrows(c, tr, i - 1, i);
      RunFollows(c, tr, i - 1, f);
      FollowsStep(c, tr[i - 1], a, tr[i], f);
    }
  }

  ghost predicate NoStageErrs(c: Config, f: Completed) {
    forall n :: n in Names(c.stages) ==> !Execute(c, n, f).err
  }

  lemma RecordsOnlyErrors(c: Config, s: State, a: Action, s': State)
    requires Next(c, s, a, s') && s.firstErr.None? && s'.firstErr.Some?
    ensures a.RecordError? && a.name in s.jobs && HasOutcome(s.jobs[a.name]) && s.jobs[a.name].outcome.err
  {
  }

  lemma NoErrorStep(c: Config, s: State, a: Action, s': State, f: Completed)
    requires Partition(c, s) && Follows(c, s, f) && NoStageErrs(c, f)
    requires Next(c, s, a, s') && s.firstErr.None?
    ensures s'.firstErr.None?
  {
    if s'.firstErr.Some? {
      RecordsOnlyErrors(c, s, a, s');
    }
  }

  /** If no stage errs in the solution, a live run never records an error, fail-fast or not. */
  lemma {:induction false} NothingRecorded(c: Config, tr: seq<State>, i: nat, f: Completed)
    requires Local(c) && Solution(c, f) && NoStageErrs(c, f) && IsRun(c, tr) && i < |tr| && !tr[i].ctxDone
    ensures tr[i].firstErr.None?
  {
    if i > 0 {
      var a := StepTaken(c, tr, i);
      StillLive(c, tr, i);
      NothingRecorded(c, tr, i - 1, f);
      RunFollows(c, tr, i - 1, f);
      NoErrorStep(c, tr[i - 1], a, tr[i], f);
    }
  }

  lemma StillLive(c: Config, tr: seq<State>, i: nat)
    requires IsRun(c, tr) && 0 < i < |tr| && !tr[i].ctxDone
    ensures !tr[i - 1].ctxDone
  {
    HistoryOnlyGrows(c, tr, i - 1, i);
  }

  /** Confluence: at a normal return with the context still live, `completed` is the map that running
      every stage in a topological order ends with, and every call returned what it does there. Under
      fail-fast this needs that no stage errs; the sequential executor, unlike the parallel one, may
      then still stop early at a continue condition. */
  lemma ParallelAgreesWithSequential(c: Config, tr: seq<State>, i: nat, order: seq<Name>)
    requires Local(c) && IsTopologicalOrder(c.stages, order)
    requires c.failFast ==> NoStageErrs(c, CompletedAfter(c, order))
    requires IsRun(c, tr) && i < |tr| && tr[i].scheduler == Returned(false) && !tr[i].ctxDone
    ensures tr[i].completed == CompletedAfter(c, order)
    ensures c.failFast ==> tr[i].firstErr.None?
    ensures forall n :: n in Names(c.stages) ==> Called(tr[i], n)
    ensures forall k :: 0 <= k < |tr[i].calls| ==>
              tr[i].calls[k].outcome == Execute(c, tr[i].calls[k].name, CompletedAfter(c, order))
  {
    var f := CompletedAfter(c, order);
    SequentialSolves(c, order);
    if c.failFast {
      NothingRecorded(c, tr, i, f);
    }
    RunFollows(c, tr, i, f);
    forall n | n in Names(c.stages) ensures n in tr[i].completed && Called(tr[i], n) {
      NormalReturnIsComplete(c, tr, i, n);
    }
    assert tr[i].completed.Keys == f.Keys by {
      RunInvariant(c, tr, i);
    }
  }

  /** Sequentially, with no stage erring, fail-fast stops exactly behind a condition that is not met. */
  lemma StopsOnlyAtConditions(c: Config, order: seq<Name>, k: nat)
    requires Local(c) && IsTopologicalOrder(c.stages, order) && NoStageErrs(c, CompletedAfter(c, order))
    requires k < |order|
    ensures StopsAfter(c, order, k) <==>
            c.failFast && !AsAsked(ConditionOf(c, order[k]),
                                   Execute(c, order[k], CompletedAfter(c, order)).result.status)
  {
    SequentialSolves(c, order);
    assert order[k] in Elements(order);
  }
}
