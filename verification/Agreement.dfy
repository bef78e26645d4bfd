/** When the parallel and the sequential executor report the same pipeline status, and concrete
    pipelines on which they part. */
module Agreement {
  import opened Graphs
  import opened Pipelines
  import opened Topological
  import opened Execution
  import opened Parallel
  import opened ParallelSafety
  import opened ParallelLiveness
  import opened Confluence

  ghost function ListedResults(s: State): seq<StageResult> {
    seq(|s.results|, k requires 0 <= k < |s.results| => s.results[k].result)
  }

  /** Execute's final status after a parallel run: any recorded error makes it Failed. */
  ghost function ParallelStatus(s: State): Status {
    if s.firstErr.Some? then Failed else OverallStatus(ListedResults(s))
  }

  /** Without fail-fast and cancellation the sequential executor returns no error. */
  ghost function SequentialStatus(c: Config, order: seq<Name>): Status {
    OverallStatus(ResultsOf(c, order))
  }

  ghost predicate SomeStageErrs(c: Config, order: seq<Name>) {
    exists k :: 0 <= k < |order| && OutcomeAt(c, order, k).err
  }

  ghost predicate AppearsIn(f: Completed, status: Status) {
    exists n :: n in f && f[n].status == status
  }

  /** A sequence of results that lists the entries of a map, each at least once. */
  ghost predicate Lists(rs: seq<StageResult>, f: Completed) {
    && (forall k :: 0 <= k < |rs| ==> ListsAt(f, rs[k]))
    && (forall n :: n in f ==> f[n] in rs)
  }

  ghost predicate ListsAt(f: Completed, r: StageResult) {
    exists n :: n in f && f[n] == r
  }

  lemma ListedStatuses(rs: seq<StageResult>, f: Completed, status: Status)
    requires Lists(rs, f)
    ensures HasStatus(rs, status) <==> AppearsIn(f, status)
  {
    if HasStatus(rs, status) {
      var r :| r in rs && r.status == status;
      var k :| 0 <= k < |rs| && rs[k] == r;
      var n :| n in f && f[n] == rs[k];
      assert f[n].status == status;
    }
  }

  lemma SequentialListsMap(c: Config, order: seq<Name>)
    requires Distinct(order)
    ensures Lists(ResultsOf(c, order), CompletedAfter(c, order))
  {
    var f, rs := CompletedAfter(c, order), ResultsOf(c, order);
    PrefixKeys(c, order);
    forall k | 0 <= k < |order| ensures order[k] in f && f[order[k]] == rs[k] {
      PrefixMap(c, order, k);
    }
    forall n | n in f ensures f[n] in rs {
      assert n in Elements(order);
      var k :| 0 <= k < |order| && order[k] == n;
      assert rs[k] in rs;
    }
  }

  lemma ParallelListsMap(c: Config, tr: seq<State>, i: nat)
    requires IsRun(c, tr) && i < |tr| && tr[i].scheduler == Returned(false)
    requires forall n :: n in tr[i].completed ==> Called(tr[i], n) && n in Names(c.stages)
    ensures Lists(ListedResults(tr[i]), tr[i].completed)
  {
    var s, rs := tr[i], ListedResults(tr[i]);
    forall n | n in s.completed ensures s.completed[n] in rs {
      NormalReturnIsComplete(c, tr, i, n);
      var k :| 0 <= k < |s.results| && s.results[k].name == n;
      assert rs[k] in rs;
    }
    forall k | 0 <= k < |rs| ensures ListsAt(s.completed, rs[k]) {
      ListedIsPublished(c, tr, i, k);
      assert s.completed[s.results[k].name] == rs[k];
    }
  }

  lemma ListedIsPublished(c: Config, tr: seq<State>, i: nat, k: nat)
    requires IsRun(c, tr) && i < |tr| && tr[i].scheduler == Returned(false) && k < |tr[i].results|
    ensures tr[i].results[k].name in tr[i].completed
    ensures tr[i].completed[tr[i].results[k].name] == tr[i].results[k].result
  {
    RunInvariant(c, tr, i);
    var n := tr[i].results[k].name;
    assert InResultList(tr[i], n);
    assert DidRecord(tr[i], n);
    NormalReturnIsComplete(c, tr, i, n);
  }

  /** With outcomes fixed by name, some call erred exactly when some stage of the order does. */
  lemma SameErrors(c: Config, s: State, order: seq<Name>, f: Completed)
    requires forall k :: 0 <= k < |s.calls| ==> s.calls[k].outcome == Execute(c, s.calls[k].name, f)
    requires forall j :: 0 <= j < |order| ==> OutcomeAt(c, order, j) == Execute(c, order[j], f)
    requires forall n :: n in order <==> Called(s, n)
    ensures SomeStageErrs(c, order) <==> exists k :: 0 <= k < |s.calls| && s.calls[k].outcome.err
  {
    if k :| 0 <= k < |s.calls| && s.calls[k].outcome.err {
      assert Called(s, s.calls[k].name);
      var j :| 0 <= j < |order| && order[j] == s.calls[k].name;
      assert OutcomeAt(c, order, j).err;
    }
    if j :| 0 <= j < |order| && OutcomeAt(c, order, j).err {
      assert Called(s, order[j]);
      var k :| 0 <= k < |s.calls| && s.calls[k].name == order[j];
      assert s.calls[k].outcome.err;
    }
  }

  lemma CalledAreStages(c: Config, tr: seq<State>, i: nat, n: Name)
    requires IsRun(c, tr) && i < |tr| && Called(tr[i], n)
    ensures n in Names(c.stages)
  {
    RunInvariant(c, tr, i);
    assert DidRun(tr[i], n);
  }

  lemma ErrorsAgree(c: Config, tr: seq<State>, i: nat, order: seq<Name>)
    requires Local(c) && !c.failFast && IsTopologicalOrder(c.stages, order) && order != []
    requires IsRun(c, tr) && i < |tr| && tr[i].scheduler == Returned(false) && !tr[i].ctxDone
    ensures tr[i].firstErr.Some? <==> SomeStageErrs(c, order)
  {
    ParallelAgreesWithSequential(c, tr, i, order);
    SequentialSolves(c, order);
    forall n ensures n in order <==> Called(tr[i], n) {
      assert n in order <==> n in Elements(order);
      if Called(tr[i], n) {
        CalledAreStages(c, tr, i, n);
      }
    }
    SameErrors(c, tr[i], order, CompletedAfter(c, order));
    assert order[0] in Elements(order);
    NormalReturnIsComplete(c, tr, i, order[0]);
  }

  /** The two final statuses agree exactly when an error never comes without a Failed result,
      nor beside a Canceled one. */
  lemma StatusesAgreeExactly(c: Config, tr: seq<State>, i: nat, order: seq<Name>)
    requires Local(c) && !c.failFast && IsTopologicalOrder(c.stages, order) && order != []
    requires IsRun(c, tr) && i < |tr| && tr[i].scheduler == Returned(false) && !tr[i].ctxDone
    ensures ParallelStatus(tr[i]) == SequentialStatus(c, order) <==>
              (SomeStageErrs(c, order) ==>
                 && HasStatus(ResultsOf(c, order), Failed)
                 && !HasStatus(ResultsOf(c, order), Canceled))
  {
    ErrorsAgree(c, tr, i, order);
    ParallelAgreesWithSequential(c, tr, i, order);
    SequentialListsMap(c, order);
    PrefixKeys(c, order);
    ParallelListsMap(c, tr, i);
    forall status ensures HasStatus(ListedResults(tr[i]), status) == HasStatus(ResultsOf(c, order), status) {
      ListedStatuses(ListedResults(tr[i]), tr[i].completed, status);
      ListedStatuses(ResultsOf(c, order), tr[i].completed, status);
    }
  }

  /** In particular: if runners return an error only with status Failed and never report Canceled. */
  lemma StatusesAgree(c: Config, tr: seq<State>, i: nat, order: seq<Name>)
    requires Local(c) && !c.failFast && IsTopologicalOrder(c.stages, order) && order != []
    requires IsRun(c, tr) && i < |tr| && tr[i].scheduler == Returned(false) && !tr[i].ctxDone
    requires forall n, m :: n in Names(c.stages) ==>
               var o := Execute(c, n, m); (o.err ==> o.result.status == Failed) && o.result.status != Canceled
    ensures ParallelStatus(tr[i]) == SequentialStatus(c, order)
  {
    var rs := ResultsOf(c, order);
    forall k | 0 <= k < |order|
      ensures (OutcomeAt(c, order, k).err ==> rs[k].status == Failed) && rs[k].status != Canceled
    {
      assert order[k] in Elements(order);
    }
    if k :| 0 <= k < |order| && OutcomeAt(c, order, k).err {
      assert rs[k] in rs;
    }
    StatusesAgreeExactly(c, tr, i, order);
  }

  // ---- Concrete pipelines ----

  function Plain(name: Name, dependsOn: seq<Name>): Stage {
    Stage(name, "custom", map[], Unset, dependsOn)
  }

  function Running(stages: seq<Stage>, failFast: bool, run: Runner): Config {
    Config(stages, failFast, false, map["custom" := run], 2)
  }

  /** One stage whose runner reports a cancellation of its own: Canceled together with an error. */
  function SelfCanceling(): Config {
    Running([Plain("a", [])], false, (s: Stage, m: Completed) => Outcome(StageResult(s.name, Canceled, map[]), true))
  }

  /** The statuses can differ: sequentially Canceled, in parallel Failed. */
  lemma StatusesCanDiffer() returns (tr: seq<State>)
    ensures IsRun(SelfCanceling(), tr) && tr[|tr| - 1].scheduler == Returned(false) && !tr[|tr| - 1].ctxDone
    ensures SequentialStatus(SelfCanceling(), ["a"]) == Canceled
    ensures ParallelStatus(tr[|tr| - 1]) == Failed
  {
    var c, order := SelfCanceling(), ["a"];
    var g := GraphOf(c.stages);
    assert Names(c.stages) == {"a"};
    GraphEntry(c.stages, 0);
    assert DependenciesFirst(g, order);
    assert IsTopologicalOrder(c.stages, order);
    SortedIsAcyclic(c.stages, order);
    tr := CanAlwaysFinish(c, [Init(c)]);
    ErrorsAgree(c, tr, |tr| - 1, order);
    assert OutcomeAt(c, order, 0).err;
    assert ResultsOf(c, order)[0] in ResultsOf(c, order);
  }

  /** Two independent stages; the runner looks at whether "a" is already there. */
  function Peeking(): Config {
    Running([Plain("a", []), Plain("b", [])], false,
            (s: Stage, m: Completed) =>
              Outcome(StageResult(s.name, if "a" in m then Failed else Success, map[]), false))
  }

  /** For a runner that reads more than its dependencies' results the order does matter,
      so locality cannot be dropped. */
  lemma OrderMattersWithoutLocality()
    ensures IsTopologicalOrder(Peeking().stages, ["a", "b"])
    ensures IsTopologicalOrder(Peeking().stages, ["b", "a"])
    ensures CompletedAfter(Peeking(), ["a", "b"])["b"] != CompletedAfter(Peeking(), ["b", "a"])["b"]
  {
    var c := Peeking();
    var ab, ba := ["a", "b"], ["b", "a"];
    GraphEntry(c.stages, 0);
    GraphEntry(c.stages, 1);
    assert c.stages[0].name == "a" && c.stages[1].name == "b";
    assert Names(c.stages) == {"a", "b"};
    assert Elements(ab) == {"a", "b"} && Elements(ba) == {"a", "b"};
    assert ab[..1] == ["a"] && ba[..1] == ["b"] && ["a"][..0] == [] && ["b"][..0] == [];
    assert CompletedAfter(c, ["a"]) == map["a" := StageResult("a", Success, map[])];
    assert CompletedAfter(c, ["b"]) == map["b" := StageResult("b", Success, map[])];
  }
}
