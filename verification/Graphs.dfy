/** Dependency graphs: paths, cycles, and the two facts every sorting argument rests on:
    a graph that can be listed dependencies-first has no cycle, and a non-empty set of
    names each of which depends on another one of the set contains a cycle. */
module Graphs {
  type Name = string
  type Graph = map<Name, seq<Name>>

  /** The dependencies of a name; a name that is no key has none, as a Go map read gives nil. */
  function Successors(g: Graph, n: Name): seq<Name> {
    if n in g then g[n] else []
  }

  ghost predicate Distinct<T>(s: seq<T>) {
    forall i, j :: 0 <= i < j < |s| ==> s[i] != s[j]
  }

  ghost function Elements<T>(s: seq<T>): set<T> {
    set x | x in s
  }

  ghost predicate IsPath(g: Graph, p: seq<Name>) {
    forall i :: 0 <= i < |p| - 1 ==> p[i + 1] in Successors(g, p[i])
  }

  ghost predicate IsCycle(g: Graph, p: seq<Name>) {
    |p| >= 2 && p[0] == p[|p| - 1] && IsPath(g, p)
  }

  /** Some name reaches itself by a non-empty path of dependencies. */
  ghost predicate Cyclic(g: Graph) {
    exists p :: IsCycle(g, p)
  }

  /** `d` is a direct or transitive dependency of `n`. */
  ghost predicate Reaches(g: Graph, n: Name, d: Name) {
    exists p :: PathBetween(g, p, n, d)
  }

  ghost predicate PathBetween(g: Graph, p: seq<Name>, n: Name, d: Name) {
    |p| >= 2 && p[0] == n && p[|p| - 1] == d && IsPath(g, p)
  }

  ghost predicate DependenciesFirst(g: Graph, order: seq<Name>) {
    forall i, d :: 0 <= i < |order| && d in Successors(g, order[i]) ==> d in order[..i]
  }

  ghost predicate DependsOnSome(g: Graph, n: Name, s: set<Name>) {
    exists d :: d in Successors(g, n) && d in s
  }

  ghost predicate Closed(g: Graph, s: set<Name>) {
    forall n, d :: n in s && d in Successors(g, n) ==> d in s
  }

  lemma PathSuffix(g: Graph, p: seq<Name>, k: nat)
    requires IsPath(g, p) && k <= |p|
    ensures IsPath(g, p[k..])
  {
    forall i | 0 <= i < |p[k..]| - 1
      ensures p[k..][i + 1] in Successors(g, p[k..][i])
    {
      assert p[k + i + 1] in Successors(g, p[k + i]);
    }
  }

  lemma PathExtends(g: Graph, p: seq<Name>, d: Name)
    requires p != [] && IsPath(g, p) && d in Successors(g, p[|p| - 1])
    ensures IsPath(g, p + [d])
  {
  }

  lemma {:induction false} PathDescends(g: Graph, order: seq<Name>, p: seq<Name>, k: nat)
    requires DependenciesFirst(g, order) && IsPath(g, p)
    requires |p| >= 2 && k < |order| && p[0] == order[k]
    ensures p[|p| - 1] in order[..k]
    decreases |p|
  {
    assert p[1] in Successors(g, p[0]);
    assert p[1] in order[..k];
    if |p| > 2 {
      var j :| 0 <= j < k && order[j] == p[1];
      PathSuffix(g, p, 1);
      PathDescends(g, order, p[1..], j);
    }
  }

  /** A dependencies-first listing of every name that has dependencies rules out cycles. */
  lemma ListedIsAcyclic(g: Graph, order: seq<Name>)
    requires Distinct(order) && DependenciesFirst(g, order)
    requires forall n :: n in g ==> n in order
    ensures !Cyclic(g)
  {
    forall p | IsCycle(g, p)
      ensures false
    {
      assert p[1] in Successors(g, p[0]);
      var k :| 0 <= k < |order| && order[k] == p[0];
      PathDescends(g, order, p, k);
    }
  }

  lemma ElementsAppend<T>(s: seq<T>, x: T)
    ensures Elements(s + [x]) == Elements(s) + {x}
  {
  }

  lemma {:induction false} DistinctSize<T>(s: seq<T>)
    requires Distinct(s)
    ensures |Elements(s)| == |s|
  {
    if s != [] {
      var front, last := s[..|s| - 1], s[|s| - 1];
      DistinctSize(front);
      assert s == front + [last] && last !in front;
      ElementsAppend(front, last);
    }
  }

  lemma DistinctFits<T>(s: seq<T>, within: set<T>)
    requires Distinct(s) && Elements(s) <= within
    ensures |s| <= |within|
  {
    DistinctSize(s);
    SubsetSize(Elements(s), within);
  }

  lemma SubsetSize<T>(a: set<T>, b: set<T>)
    requires a <= b
    ensures |a| <= |b|
  {
    assert b == a + (b - a);
  }

  /** Follows dependencies inside `rest` along the simple path `p` until a name repeats. */
  lemma {:induction false} WalkCloses(g: Graph, rest: set<Name>, p: seq<Name>)
    requires forall n {:trigger DependsOnSome(g, n, rest)} :: n in rest ==> DependsOnSome(g, n, rest)
    requires p != [] && Distinct(p) && IsPath(g, p) && Elements(p) <= rest
    ensures Cyclic(g)
    decreases |rest| - |p|
  {
    var last := p[|p| - 1];
    assert last in Elements(p);
    assert DependsOnSome(g, last, rest);
    var d :| d in Successors(g, last) && d in rest;
    var q := p + [d];
    PathExtends(g, p, d);
    if d in p {
      var k :| 0 <= k < |p| && p[k] == d;
      PathSuffix(g, q, k);
      assert IsCycle(g, q[k..]);
    } else {
      DistinctFits(q, rest);
      WalkCloses(g, rest, q);
    }
  }

  /** If every name of a non-empty set depends on a name of the set, there is a cycle. */
  lemma StuckIsCyclic(g: Graph, rest: set<Name>)
    requires rest != {}
    requires forall n {:trigger DependsOnSome(g, n, rest)} :: n in rest ==> DependsOnSome(g, n, rest)
    ensures Cyclic(g)
  {
    var n :| n in rest;
    WalkCloses(g, rest, [n]);
  }

  /** A dependency-closed set holding a name's direct dependencies holds all it reaches. */
  lemma ClosedHoldsReached(g: Graph, s: set<Name>, n: Name, d: Name)
    requires Closed(g, s) && Reaches(g, n, d)
    requires forall e :: e in Successors(g, n) ==> e in s
    ensures d in s
  {
    var p :| PathBetween(g, p, n, d);
    PathStaysIn(g, s, p, |p| - 1);
  }

  lemma {:induction false} PathStaysIn(g: Graph, s: set<Name>, p: seq<Name>, i: nat)
    requires Closed(g, s) && IsPath(g, p) && 1 <= i < |p|
    requires forall e :: e in Successors(g, p[0]) ==> e in s
    ensures p[i] in s
  {
    assert p[i - 1 + 1] in Successors(g, p[i - 1]);
    if i > 1 {
      PathStaysIn(g, s, p, i - 1);
    }
  }
}
