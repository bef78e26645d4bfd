/** Pipeline definitions and their validation (internal/pipeline/pipeline.go). */
module Pipelines {
  import opened Graphs
  import opened Options

  datatype ContinueCondition = Unset | OnSuccess | OnFailure | Always | Unknown(text: string)

  datatype Stage = Stage(
    name: Name,
    kind: string,
    config: map<string, string>,
    continueOn: ContinueCondition,
    dependsOn: seq<Name>)

  datatype ValidationError =
    | NoStages
    | DuplicateStageName
    | InvalidDependency
    | SelfDependency
    | CircularDependency

  ghost function Names(stages: seq<Stage>): set<Name> {
    set i | 0 <= i < |stages| :: stages[i].name
  }

  ghost predicate DistinctNames(stages: seq<Stage>) {
    forall i, j :: 0 <= i < j < |stages| ==> stages[i].name != stages[j].name
  }

  ghost predicate DependenciesExist(stages: seq<Stage>) {
    forall s, d :: s in stages && d in s.dependsOn ==> d in Names(stages)
  }

  ghost predicate NoSelfDependency(stages: seq<Stage>) {
    forall s :: s in stages ==> s.name !in s.dependsOn
  }

  /** The adjacency list: a later stage of the same name overwrites an earlier one. */
  ghost function GraphOf(stages: seq<Stage>): Graph {
    if stages == [] then map[]
    else GraphOf(stages[..|stages| - 1])[stages[|stages| - 1].name := stages[|stages| - 1].dependsOn]
  }

  ghost predicate WellFormed(stages: seq<Stage>) {
    DistinctNames(stages) && DependenciesExist(stages) && !Cyclic(GraphOf(stages))
  }

  lemma GraphKeys(stages: seq<Stage>)
    ensures GraphOf(stages).Keys == Names(stages)
  {
    if stages != [] {
      var front := stages[..|stages| - 1];
      GraphKeys(front);
      assert Names(stages) == Names(front) + {stages[|stages| - 1].name};
    }
  }

  /** With distinct names the adjacency list holds each stage's own dependency list. */
  lemma GraphEntry(stages: seq<Stage>, i: nat)
    requires DistinctNames(stages) && i < |stages|
    ensures Successors(GraphOf(stages), stages[i].name) == stages[i].dependsOn
  {
    if i < |stages| - 1 {
      GraphEntry(stages[..|stages| - 1], i);
    }
  }

  lemma SelfDependencyIsCycle(stages: seq<Stage>, i: nat)
    requires DistinctNames(stages) && i < |stages| && stages[i].name in stages[i].dependsOn
    ensures Cyclic(GraphOf(stages))
  {
    GraphEntry(stages, i);
    assert IsCycle(GraphOf(stages), [stages[i].name, stages[i].name]);
  }

  ghost function Universe(g: Graph): set<Name> {
    g.Keys + set n, d | n in g && d in g[n] :: d
  }

  /** The depth-first search of hasCycle. The two boolean maps of the source are read with
      the zero value false, so each is the set of the names it maps to true. */
  class CycleSearch {
    const graph: Graph
    var visited: set<Name>
    var recStack: set<Name>
    // The names whose search has ended, in the order it ended.
    ghost var finished: seq<Name>

    constructor (graph: Graph)
      ensures this.graph == graph && finished == [] && Valid([])
    {
      this.graph := graph;
      visited, recStack, finished := {}, {}, [];
    }

    /** The recursion stack holds exactly the names of the current search path, and the
        names already left are listed after everything they depend on. */
    ghost predicate Valid(path: seq<Name>)
      reads this
    {
      && Distinct(path) && IsPath(graph, path) && recStack == Elements(path)
      && Distinct(finished) && DependenciesFirst(graph, finished)
      && visited == Elements(finished) + recStack && Elements(finished) !! recStack
    }

    method Visit(node: Name, ghost path: seq<Name>) returns (found: bool)
      requires Valid(path) && IsPath(graph, path + [node])
      requires node in Universe(graph) && visited <= Universe(graph)
      modifies this
      ensures found ==> Cyclic(graph)
      ensures !found ==> Valid(path) && node in finished && visited <= Universe(graph)
      ensures !found ==> old(finished) <= finished
      decreases Universe(graph) - visited
    {
      if node in recStack {
        RepeatIsCycle(graph, path, node);
        return true;
      }
      if node in visited {
        return false;
      }
      visited := visited + {node};
      recStack := recStack + {node};
      ghost var inner := path + [node];
      assert Elements(inner) == Elements(path) + {node};

      var neighbors := if node in graph then graph[node] else [];
      var k := 0;
      while k < |neighbors|
        invariant 0 <= k <= |neighbors|
        invariant Valid(inner) && visited <= Universe(graph)
        invariant old(finished) <= finished
        invariant old(visited) + {node} <= visited
        invariant forall d :: d in neighbors[..k] ==> d in finished
      {
        PathExtends(graph, inner, neighbors[k]);
        ghost var before := finished;
        found := Visit(neighbors[k], inner);
        if found {
          return true;
        }
        assert forall d :: d in before ==> d in finished;
        k := k + 1;
      }
      recStack := recStack - {node};
      Finishes(graph, finished, node);
      assert Elements(finished + [node]) == Elements(finished) + {node};
      assert Elements(path) == Elements(inner) - {node};
      finished := finished + [node];
      found := false;
    }

    /** hasCycle over the graph's names, in any order. */
    method Search() returns (found: bool)
      requires Valid([]) && finished == []
      modifies this
      ensures found <==> Cyclic(graph)
    {
      var names := graph.Keys;
      while names != {}
        invariant Valid([]) && visited <= Universe(graph) && names <= graph.Keys
        invariant forall n :: n in graph && n !in names ==> n in finished
      {
        var name :| name in names;
        found := Visit(name, []);
        if found {
          return;
        }
        names := names - {name};
      }
      ListedIsAcyclic(graph, finished);
      found := false;
    }
  }

  lemma RepeatIsCycle(g: Graph, path: seq<Name>, node: Name)
    requires IsPath(g, path + [node]) && node in path
    ensures Cyclic(g)
  {
    var k :| 0 <= k < |path| && path[k] == node;
    PathSuffix(g, path + [node], k);
    assert IsCycle(g, (path + [node])[k..]);
  }

  lemma Finishes(g: Graph, finished: seq<Name>, node: Name)
    requires Distinct(finished) && DependenciesFirst(g, finished) && node !in finished
    requires forall d :: d in Successors(g, node) ==> d in finished
    ensures Distinct(finished + [node]) && DependenciesFirst(g, finished + [node])
  {
    var longer := finished + [node];
    forall i, d | 0 <= i < |longer| && d in Successors(g, longer[i])
      ensures d in longer[..i]
    {
      if i < |finished| {
        assert longer[..i] == finished[..i];
      } else {
        assert longer[..i] == finished;
      }
    }
  }

  method BuildGraph(stages: seq<Stage>) returns (graph: Graph)
    ensures graph == GraphOf(stages)
  {
    graph := map[];
    for i := 0 to |stages|
      invariant graph == GraphOf(stages[..i])
    {
      graph := graph[stages[i].name := stages[i].dependsOn];
      assert stages[..i + 1][..i] == stages[..i];
    }
    assert stages[..|stages|] == stages;
  }

  method HasCycle(stages: seq<Stage>) returns (found: bool)
    ensures found <==> Cyclic(GraphOf(stages))
  {
    var graph := BuildGraph(stages);
    var search := new CycleSearch(graph);
    found := search.Search();
  }

  ghost predicate DependenciesFine(s: Stage, stageNames: set<Name>) {
    forall d :: d in s.dependsOn ==> d in stageNames && d != s.name
  }

  /** The `k`-th dependency of stage `i` is missing or the stage itself. */
  ghost predicate Offends(stages: seq<Stage>, i: nat, k: nat) {
    i < |stages| && k < |stages[i].dependsOn| &&
    (stages[i].dependsOn[k] !in Names(stages) || stages[i].dependsOn[k] == stages[i].name)
  }

  /** The first such dependency, in the order of the stages and of their lists. */
  ghost predicate FirstOffence(stages: seq<Stage>, i: nat, k: nat) {
    Offends(stages, i, k) &&
    (forall l :: 0 <= l < k ==> !Offends(stages, i, l)) &&
    (forall j, l :: 0 <= j < i && 0 <= l ==> !Offends(stages, j, l))
  }

  /** What is wrong with the stages, by the error that says so. */
  ghost predicate Reason(stages: seq<Stage>, error: ValidationError) {
    match error
    case NoStages => stages == []
    case DuplicateStageName => !DistinctNames(stages)
    case InvalidDependency =>
      DistinctNames(stages) && exists i: nat, k: nat ::
        FirstOffence(stages, i, k) && stages[i].dependsOn[k] !in Names(stages)
    case SelfDependency =>
      DistinctNames(stages) && exists i: nat, k: nat ::
        FirstOffence(stages, i, k) && stages[i].dependsOn[k] in Names(stages)
    case CircularDependency =>
      && DistinctNames(stages) && DependenciesExist(stages) && NoSelfDependency(stages)
      && Cyclic(GraphOf(stages))
  }

  lemma OneOffence(stages: seq<Stage>, i: nat, k: nat, i': nat, k': nat)
    requires FirstOffence(stages, i, k) && FirstOffence(stages, i', k')
    ensures i == i' && k == k'
  {
    assert Offends(stages, i, k) && Offends(stages, i', k');
  }

  lemma OffenceShows(stages: seq<Stage>, i: nat, k: nat)
    requires Offends(stages, i, k)
    ensures !(DependenciesExist(stages) && NoSelfDependency(stages))
  {
    assert stages[i] in stages && stages[i].dependsOn[k] in stages[i].dependsOn;
  }

  /** No two errors have a reason for the same stages. */
  lemma OneReason(stages: seq<Stage>, e: ValidationError, e': ValidationError)
    requires Reason(stages, e) && Reason(stages, e')
    ensures e == e'
  {
    if stages == [] && Cyclic(GraphOf(stages)) {
      var p :| IsCycle(GraphOf(stages), p);
      assert p[1] in Successors(GraphOf(stages), p[0]);
    }
    forall i: nat, k: nat | FirstOffence(stages, i, k)
      ensures !(DependenciesExist(stages) && NoSelfDependency(stages))
    {
      OffenceShows(stages, i, k);
    }
    forall i: nat, k: nat, i': nat, k': nat | FirstOffence(stages, i, k) && FirstOffence(stages, i', k')
      ensures i == i' && k == k'
    {
      OneOffence(stages, i, k, i', k');
    }
  }

  lemma FirstFound(stages: seq<Stage>, i: nat, k: nat)
    requires Offends(stages, i, k)
    requires forall j :: 0 <= j < i ==> DependenciesFine(stages[j], Names(stages))
    requires forall d :: d in stages[i].dependsOn[..k] ==> d in Names(stages) && d != stages[i].name
    ensures FirstOffence(stages, i, k)
  {
    forall l | 0 <= l < k ensures !Offends(stages, i, l) {
      assert stages[i].dependsOn[l] in stages[i].dependsOn[..k];
    }
  }

  /** Stages to be refused have one reason, and the others none. */
  lemma ReasonRefuses(stages: seq<Stage>, e: ValidationError)
    requires Reason(stages, e)
    ensures stages == [] || !WellFormed(stages)
  {
    if e.SelfDependency? {
      var i: nat, k: nat :| FirstOffence(stages, i, k) && stages[i].dependsOn[k] in Names(stages);
      SelfDependencyIsCycle(stages, i);
    } else if e.InvalidDependency? {
      var i: nat, k: nat :| FirstOffence(stages, i, k) && stages[i].dependsOn[k] !in Names(stages);
      assert stages[i] in stages;
    }
  }

  /** The checks of Pipeline.Validate on stage names and dependencies, in its order. */
  method Validate(stages: seq<Stage>) returns (error: Option<ValidationError>)
    ensures error == None <==> stages != [] && WellFormed(stages)
    ensures forall e :: Reason(stages, e) <==> error == Some(e)
  {
    forall e, e' | Reason(stages, e) && Reason(stages, e') ensures e == e' {
      OneReason(stages, e, e');
    }
    if stages == [] {
      assert Reason(stages, NoStages);
      return Some(NoStages);
    }
    var stageNames: set<Name> := {};
    for i := 0 to |stages|
      invariant stageNames == Names(stages[..i]) && DistinctNames(stages[..i])
    {
      if stages[i].name in stageNames {
        assert !DistinctNames(stages);
        return Some(DuplicateStageName);
      }
      stageNames := stageNames + {stages[i].name};
      assert Names(stages[..i + 1]) == Names(stages[..i]) + {stages[i].name};
    }
    assert stages[..|stages|] == stages;
    for i := 0 to |stages|
      invariant forall j :: 0 <= j < i ==> DependenciesFine(stages[j], stageNames)
    {
      var s := stages[i];
      for k := 0 to |s.dependsOn|
        invariant forall d :: d in s.dependsOn[..k] ==> d in stageNames && d != s.name
      {
        var dep := s.dependsOn[k];
        assert s in stages && dep in s.dependsOn;
        if dep !in stageNames {
          FirstFound(stages, i, k);
          return Some(InvalidDependency);
        }
        if dep == s.name {
          SelfDependencyIsCycle(stages, i);
          FirstFound(stages, i, k);
          return Some(SelfDependency);
        }
      }
      assert s.dependsOn[..|s.dependsOn|] == s.dependsOn;
    }
    assert forall s :: s in stages ==> DependenciesFine(s, stageNames);
    var cyclic := HasCycle(stages);
    error := if cyclic then Some(CircularDependency) else None;
    forall e | Reason(stages, e) ensures cyclic {
      ReasonRefuses(stages, e);
    }
  }
}
