/** Kahn's algorithm as DefaultExecutor.topologicalSort runs it
    (internal/pipeline/executor.go), on an in-degree map and a queue. */
module Topological {
  import opened Graphs
  import opened Options
  import opened Pipelines

  /** `order` lists every stage once, after everything it depends on. */
  ghost predicate IsTopologicalOrder(stages: seq<Stage>, order: seq<Name>) {
    && Distinct(order) && Elements(order) == Names(stages) && |order| == |stages|
    && DependenciesFirst(GraphOf(stages), order)
  }

  /** Entries of `deps`, repeats counted, that name something outside `done`. */
  ghost function Outstanding(deps: seq<Name>, done: set<Name>): nat {
    if deps == [] then 0 else (if deps[0] in done then 0 else 1) + Outstanding(deps[1..], done)
  }

  lemma {:induction false} OutstandingConcat(a: seq<Name>, b: seq<Name>, done: set<Name>)
    ensures Outstanding(a + b, done) == Outstanding(a, done) + Outstanding(b, done)
  {
    if a == [] {
      assert a + b == b;
    } else {
      assert (a + b)[1..] == a[1..] + b;
      OutstandingConcat(a[1..], b, done);
    }
  }

  lemma {:induction false} OutstandingZero(deps: seq<Name>, done: set<Name>)
    ensures Outstanding(deps, done) == 0 <==> forall d :: d in deps ==> d in done
  {
    if deps != [] {
      OutstandingZero(deps[1..], done);
      assert deps == [deps[0]] + deps[1..];
    }
  }

  lemma {:induction false} OutstandingNone(deps: seq<Name>)
    ensures Outstanding(deps, {}) == |deps|
  {
    if deps != [] {
      OutstandingNone(deps[1..]);
    }
  }

  /** What `inDegree` holds for a dependency list whose first `k` entries have been compared
      with the dequeued `node`: those entries count `node` as done, the rest do not yet. */
  ghost function Tally(deps: seq<Name>, k: nat, done: set<Name>, node: Name): nat
    requires k <= |deps|
  {
    Outstanding(deps[..k], done + {node}) + Outstanding(deps[k..], done)
  }

  lemma TallyStep(deps: seq<Name>, k: nat, done: set<Name>, node: Name)
    requires k < |deps| && node !in done
    ensures Tally(deps, k, done, node) ==
            Tally(deps, k + 1, done, node) + (if deps[k] == node then 1 else 0)
    ensures deps[k] == node ==> Tally(deps, k, done, node) > 0
  {
    assert deps[..k + 1] == deps[..k] + [deps[k]];
    OutstandingConcat(deps[..k], [deps[k]], done + {node});
    assert deps[k..][1..] == deps[k + 1..];
  }

  lemma TallyEnds(deps: seq<Name>, done: set<Name>, node: Name)
    ensures Tally(deps, 0, done, node) == Outstanding(deps, done)
    ensures Tally(deps, |deps|, done, node) == Outstanding(deps, done + {node})
  {
    assert deps[..0] == [] && deps[0..] == deps && deps[..|deps|] == deps && deps[|deps|..] == [];
  }

  ghost predicate CountsAt(inDegree: map<Name, int>, s: Stage, done: set<Name>) {
    s.name in inDegree && inDegree[s.name] == Outstanding(s.dependsOn, done)
  }

  ghost predicate Counts(inDegree: map<Name, int>, stages: seq<Stage>, done: set<Name>) {
    inDegree.Keys == Names(stages) && forall i :: 0 <= i < |stages| ==> CountsAt(inDegree, stages[i], done)
  }

  /** `seen` is the dequeued names followed by the queue: the names of in-degree zero. */
  ghost predicate ZeroesSeen(inDegree: map<Name, int>, seen: seq<Name>) {
    Distinct(seen) && forall n :: n in inDegree ==> (n in seen <==> inDegree[n] == 0)
  }

  /** The innermost loop: counts `node` off one stage's dependency list, entry by entry,
      and queues the stage when its count reaches zero. */
  method RelaxStage(s: Stage, node: Name, inDegree0: map<Name, int>, queue0: seq<Name>,
                    ghost order: seq<Name>, ghost done: set<Name>)
    returns (inDegree: map<Name, int>, queue: seq<Name>)
    requires CountsAt(inDegree0, s, done) && node !in done && ZeroesSeen(inDegree0, order + queue0)
    requires Elements(order + queue0) <= inDegree0.Keys
    ensures inDegree == inDegree0[s.name := Outstanding(s.dependsOn, done + {node})]
    ensures ZeroesSeen(inDegree, order + queue) && Elements(order + queue) <= inDegree.Keys
  {
    inDegree, queue := inDegree0, queue0;
    TallyEnds(s.dependsOn, done, node);
    for k := 0 to |s.dependsOn|
      invariant inDegree == inDegree0[s.name := Tally(s.dependsOn, k, done, node)]
      invariant ZeroesSeen(inDegree, order + queue) && Elements(order + queue) <= inDegree.Keys
    {
      TallyStep(s.dependsOn, k, done, node);
      if s.dependsOn[k] == node {
        assert s.name !in order + queue;
        inDegree := inDegree[s.name := inDegree[s.name] - 1];
        if inDegree[s.name] == 0 {
          assert order + (queue + [s.name]) == (order + queue) + [s.name];
          queue := queue + [s.name];
        }
      }
    }
  }

  /** The loop over all stages for one dequeued name. */
  method Relax(stages: seq<Stage>, node: Name, inDegree0: map<Name, int>, queue0: seq<Name>,
               ghost order: seq<Name>, ghost done: set<Name>)
    returns (inDegree: map<Name, int>, queue: seq<Name>)
    requires DistinctNames(stages) && Counts(inDegree0, stages, done) && node !in done
    requires ZeroesSeen(inDegree0, order + queue0) && Elements(order + queue0) <= Names(stages)
    ensures Counts(inDegree, stages, done + {node})
    ensures ZeroesSeen(inDegree, order + queue) && Elements(order + queue) <= Names(stages)
  {
    inDegree, queue := inDegree0, queue0;
    for i := 0 to |stages|
      invariant inDegree.Keys == Names(stages)
      invariant forall j :: 0 <= j < i ==> CountsAt(inDegree, stages[j], done + {node})
      invariant forall j :: i <= j < |stages| ==> CountsAt(inDegree, stages[j], done)
      invariant ZeroesSeen(inDegree, order + queue) && Elements(order + queue) <= Names(stages)
    {
      inDegree, queue := RelaxStage(stages[i], node, inDegree, queue, order, done);
    }
  }

  method CountDependencies(stages: seq<Stage>) returns (inDegree: map<Name, int>)
    requires DistinctNames(stages)
    ensures Counts(inDegree, stages, {})
  {
    inDegree := map[];
    for i := 0 to |stages|
      invariant Counts(inDegree, stages[..i], {})
    {
      inDegree := inDegree[stages[i].name := |stages[i].dependsOn|];
      assert Names(stages[..i + 1]) == Names(stages[..i]) + {stages[i].name};
      OutstandingNone(stages[i].dependsOn);
    }
    assert stages[..|stages|] == stages;
  }

  /** The names of in-degree zero, in whatever order the map is ranged over. */
  method StartingNames(inDegree: map<Name, int>) returns (queue: seq<Name>)
    ensures ZeroesSeen(inDegree, queue) && Elements(queue) <= inDegree.Keys
  {
    queue := [];
    var unseen := inDegree.Keys;
    while unseen != {}
      invariant unseen <= inDegree.Keys && Distinct(queue) && Elements(queue) <= inDegree.Keys
      invariant forall n :: n in inDegree ==> (n in queue <==> n !in unseen && inDegree[n] == 0)
    {
      var name :| name in unseen;
      unseen := unseen - {name};
      if inDegree[name] == 0 {
        queue := queue + [name];
      }
    }
  }

  /** Succeeds exactly on acyclic dependencies, and then with a topological order. */
  method TopologicalSort(stages: seq<Stage>) returns (result: Option<seq<Name>>)
    requires DistinctNames(stages) && DependenciesExist(stages)
    ensures result.Some? ==> IsTopologicalOrder(stages, result.value)
    ensures result.None? <==> Cyclic(GraphOf(stages))
  {
    var inDegree := CountDependencies(stages);
    var queue := StartingNames(inDegree);
    var order: seq<Name> := [];
    assert order + queue == queue && Elements(order) == {};
    while queue != []
      invariant Counts(inDegree, stages, Elements(order))
      invariant ZeroesSeen(inDegree, order + queue) && Elements(order + queue) <= Names(stages)
      invariant DependenciesFirst(GraphOf(stages), order)
      decreases |stages| - |order|
    {
      var node := queue[0];
      DequeueKeepsOrder(stages, inDegree, order, queue);
      ghost var done := Elements(order);
      order, queue := order + [node], queue[1..];
      inDegree, queue := Relax(stages, node, inDegree, queue, order, done);
      assert Elements(order) == done + {node};
    }
    assert order + queue == order;
    if |order| != |stages| {
      LeftoversAreCyclic(stages, inDegree, order);
      return None;
    }
    CompleteIsSorted(stages, order);
    result := Some(order);
  }

  lemma DequeueKeepsOrder(stages: seq<Stage>, inDegree: map<Name, int>, order: seq<Name>, queue: seq<Name>)
    requires DistinctNames(stages) && Counts(inDegree, stages, Elements(order)) && queue != []
    requires ZeroesSeen(inDegree, order + queue) && Elements(order + queue) <= Names(stages)
    requires DependenciesFirst(GraphOf(stages), order)
    ensures order + queue == (order + [queue[0]]) + queue[1..]
    ensures queue[0] !in order && |order| < |stages|
    ensures DependenciesFirst(GraphOf(stages), order + [queue[0]])
  {
    var node := queue[0];
    QueueHead(order, queue);
    assert |order| < |stages| by {
      DistinctFits(order + queue, Names(stages));
      NamesSize(stages);
    }
    assert node in Names(stages) && inDegree[node] == 0;
    ZeroIsReady(stages, inDegree, order, node);
    Finishes(GraphOf(stages), order, node);
  }

  lemma QueueHead(order: seq<Name>, queue: seq<Name>)
    requires Distinct(order + queue) && queue != []
    ensures queue[0] in Elements(order + queue) && queue[0] !in order && Distinct(order)
    ensures order + queue == (order + [queue[0]]) + queue[1..]
  {
    var all := order + queue;
    assert all[|order|] == queue[0];
    assert forall k :: 0 <= k < |order| ==> all[k] == order[k];
  }

  lemma ZeroIsReady(stages: seq<Stage>, inDegree: map<Name, int>, order: seq<Name>, node: Name)
    requires DistinctNames(stages) && Counts(inDegree, stages, Elements(order))
    requires node in inDegree && inDegree[node] == 0
    ensures forall d :: d in Successors(GraphOf(stages), node) ==> d in order
  {
    var i :| 0 <= i < |stages| && stages[i].name == node;
    assert CountsAt(inDegree, stages[i], Elements(order));
    GraphEntry(stages, i);
    OutstandingZero(stages[i].dependsOn, Elements(order));
  }

  lemma CompleteIsSorted(stages: seq<Stage>, order: seq<Name>)
    requires DistinctNames(stages) && Distinct(order) && Elements(order) <= Names(stages)
    requires |order| == |stages| && DependenciesFirst(GraphOf(stages), order)
    ensures IsTopologicalOrder(stages, order) && !Cyclic(GraphOf(stages))
  {
    NamesSize(stages);
    DistinctSize(order);
    EqualSizedSubset(Elements(order), Names(stages));
    SortedIsAcyclic(stages, order);
  }

  lemma SortedIsAcyclic(stages: seq<Stage>, order: seq<Name>)
    requires IsTopologicalOrder(stages, order)
    ensures !Cyclic(GraphOf(stages))
  {
    GraphKeys(stages);
    forall n | n in GraphOf(stages) ensures n in order {
      assert n in Elements(order);
    }
    ListedIsAcyclic(GraphOf(stages), order);
  }

  lemma NamesSize(stages: seq<Stage>)
    requires DistinctNames(stages)
    ensures |Names(stages)| == |stages|
  {
    if stages != [] {
      var front := stages[..|stages| - 1];
      NamesSize(front);
      assert Names(stages) == Names(front) + {stages[|stages| - 1].name};
    }
  }

  lemma EqualSizedSubset<T>(a: set<T>, b: set<T>)
    requires a <= b && |a| == |b|
    ensures a == b
  {
    assert b == a + (b - a);
  }

  /** When the queue runs dry early, every remaining name still waits for a remaining name. */
  lemma LeftoversAreCyclic(stages: seq<Stage>, inDegree: map<Name, int>, order: seq<Name>)
    requires DistinctNames(stages) && DependenciesExist(stages)
    requires Counts(inDegree, stages, Elements(order))
    requires ZeroesSeen(inDegree, order) && Elements(order) <= Names(stages) && |order| != |stages|
    ensures Cyclic(GraphOf(stages))
  {
    var graph, rest := GraphOf(stages), Names(stages) - Elements(order);
    SomeAreLeft(stages, order);
    forall n | n in rest
      ensures DependsOnSome(graph, n, rest)
    {
      StillWaits(stages, inDegree, order, n);
    }
    StuckIsCyclic(graph, rest);
  }

  lemma SomeAreLeft(stages: seq<Stage>, order: seq<Name>)
    requires DistinctNames(stages) && Distinct(order)
    requires Elements(order) <= Names(stages) && |order| != |stages|
    ensures Names(stages) - Elements(order) != {}
  {
    NamesSize(stages);
    DistinctSize(order);
    assert Elements(order) != Names(stages);
    var n :| n in Names(stages) && n !in Elements(order);
    assert n in Names(stages) - Elements(order);
  }

  lemma StillWaits(stages: seq<Stage>, inDegree: map<Name, int>, order: seq<Name>, n: Name)
    requires DistinctNames(stages) && DependenciesExist(stages)
    requires Counts(inDegree, stages, Elements(order)) && ZeroesSeen(inDegree, order)
    requires n in Names(stages) && n !in order
    ensures DependsOnSome(GraphOf(stages), n, Names(stages) - Elements(order))
  {
    var i :| 0 <= i < |stages| && stages[i].name == n;
    var s := stages[i];
    OutstandingZero(s.dependsOn, Elements(order));
    assert inDegree[n] != 0;
    var d :| d in s.dependsOn && d !in Elements(order);
    GraphEntry(stages, i);
    assert s in stages && d in s.dependsOn;
  }
}
