/** Helm values as plain trees, and the right-biased deep merge that internal/helm/values.go
    computes on Go maps. */
module HelmTrees {
  /** A leaf stands for any value that is not a map. */
  datatype Tree = Leaf(text: string) | Node(entries: map<string, Tree>)

  /** Later values win; two maps under the same key are merged. */
  function Merge(a: Tree, b: Tree): Tree {
    if a.Node? && b.Node? then
      Node(map k | k in a.entries.Keys + b.entries.Keys ::
             if k !in b.entries then a.entries[k]
             else if k in a.entries then Merge(a.entries[k], b.entries[k])
             else b.entries[k])
    else b
  }

  const EMPTY := Node(map[])

  function MergeAll(base: Tree, overlays: seq<Tree>): Tree {
    if overlays == [] then base
    else Merge(MergeAll(base, overlays[..|overlays| - 1]), overlays[|overlays| - 1])
  }

  lemma MergeAllNext(base: Tree, overlays: seq<Tree>, i: nat)
    requires i < |overlays|
    ensures MergeAll(base, overlays[..i + 1]) == Merge(MergeAll(base, overlays[..i]), overlays[i])
  {
    assert overlays[..i + 1][..i] == overlays[..i];
  }

  lemma EmptyIsIdentity(t: Tree)
    requires t.Node?
    ensures Merge(EMPTY, t) == t && Merge(t, EMPTY) == t
  {
    assert Merge(EMPTY, t).entries == t.entries;
    assert Merge(t, EMPTY).entries == t.entries;
  }

  lemma {:induction false} MergeIsIdempotent(t: Tree)
    ensures Merge(t, t) == t
  {
    if t.Node? {
      forall k | k in t.entries ensures Merge(t.entries[k], t.entries[k]) == t.entries[k] {
        MergeIsIdempotent(t.entries[k]);
      }
      assert Merge(t, t).entries == t.entries;
    }
  }

  /** Every path of `a` is a path of `c`, so that nothing of `a` shows through `c`. */
  predicate Covers(c: Tree, a: Tree) {
    a.Node? && c.Node? ==>
      forall k :: k in a.entries ==> k in c.entries && Covers(c.entries[k], a.entries[k])
  }

  lemma {:induction false} CoveredVanishes(a: Tree, c: Tree)
    ensures Merge(a, c) == c <==> Covers(c, a)
  {
    if a.Node? && c.Node? {
      var m := Merge(a, c);
      forall k | k in a.entries && k in c.entries
        ensures m.entries[k] == c.entries[k] <==> Covers(c.entries[k], a.entries[k])
      {
        CoveredVanishes(a.entries[k], c.entries[k]);
      }
      if Covers(c, a) {
        assert m.entries == c.entries;
      } else if m == c {
        assert forall k :: k in a.entries ==> k in m.entries;
      }
    }
  }

  /** No path at which the middle tree has a leaf and both outer trees have maps, unless
      the right one covers the left one there. */
  predicate Associates(a: Tree, b: Tree, c: Tree) {
    if !(a.Node? && c.Node?) then true
    else if b.Leaf? then Covers(c, a)
    else forall k :: k in a.entries && k in b.entries && k in c.entries ==>
           Associates(a.entries[k], b.entries[k], c.entries[k])
  }

  /** Merging is associative exactly on such triples. */
  lemma {:induction false} AssociativeExactly(a: Tree, b: Tree, c: Tree)
    ensures Merge(Merge(a, b), c) == Merge(a, Merge(b, c)) <==> Associates(a, b, c)
  {
    var l, r := Merge(Merge(a, b), c), Merge(a, Merge(b, c));
    if a.Node? && b.Node? && c.Node? {
      forall k | k in a.entries && k in b.entries && k in c.entries
        ensures l.entries[k] == r.entries[k] <==> Associates(a.entries[k], b.entries[k], c.entries[k])
      {
        AssociativeExactly(a.entries[k], b.entries[k], c.entries[k]);
      }
      assert l.entries.Keys == r.entries.Keys;
      if Associates(a, b, c) {
        assert l.entries == r.entries;
      }
    } else if a.Node? && c.Node? {
      CoveredVanishes(a, c);
    }
  }

  // ---- What one key sees of a merge ----

  /** The trees under a key, of those overlays that have it. */
  function TreesUnder(overlays: seq<Tree>, key: string): seq<Tree> {
    if overlays == [] then []
    else
      var last := overlays[|overlays| - 1];
      TreesUnder(overlays[..|overlays| - 1], key) +
      if last.Node? && key in last.entries then [last.entries[key]] else []
  }

  lemma {:induction false} MergeAllUnder(base: Tree, overlays: seq<Tree>, key: string)
    requires base.Node? && key in base.entries && forall i :: 0 <= i < |overlays| ==> overlays[i].Node?
    ensures MergeAll(base, overlays).Node? && key in MergeAll(base, overlays).entries
    ensures MergeAll(base, overlays).entries[key] == MergeAll(base.entries[key], TreesUnder(overlays, key))
  {
    if overlays != [] {
      var front, last := overlays[..|overlays| - 1], overlays[|overlays| - 1];
      MergeAllUnder(base, front, key);
      if key in last.entries {
        var under := TreesUnder(front, key);
        assert (under + [last.entries[key]])[..|under|] == under;
      } else {
        assert TreesUnder(front, key) + [] == TreesUnder(front, key);
      }
    }
  }

  /** Everything in `b` is already in `a`. */
  predicate Absorbs(a: Tree, b: Tree) {
    if b.Leaf? then a == b
    else a.Node? && forall k :: k in b.entries ==> k in a.entries && Absorbs(a.entries[k], b.entries[k])
  }

  /** A merge changes nothing exactly when there is nothing new in the right tree. */
  lemma {:induction false} AbsorbedExactly(a: Tree, b: Tree)
    ensures Merge(a, b) == a <==> Absorbs(a, b)
  {
    if a.Node? && b.Node? {
      var m := Merge(a, b);
      forall k | k in a.entries && k in b.entries
        ensures m.entries[k] == a.entries[k] <==> Absorbs(a.entries[k], b.entries[k])
      {
        AbsorbedExactly(a.entries[k], b.entries[k]);
      }
      if Absorbs(a, b) {
        assert m.entries == a.entries;
      } else if m == a {
        assert forall k :: k in b.entries ==> k in m.entries;
      }
    }
  }

  // ---- What a merge has at each path ----

  datatype Kind = Absent | Map | Text(text: string)

  function KindAt(t: Tree, path: seq<string>): Kind {
    if path == [] then (if t.Node? then Map else Text(t.text))
    else if t.Node? && path[0] in t.entries then KindAt(t.entries[path[0]], path[1..])
    else Absent
  }

  /** At every path stands what the right tree has there, and otherwise what the left one has, unless the
      right one has a leaf on the way. */
  lemma {:induction false} MergeAtPath(a: Tree, b: Tree, path: seq<string>)
    ensures KindAt(Merge(a, b), path) ==
            if KindAt(b, path) != Absent then KindAt(b, path)
            else if exists i :: 0 <= i < |path| && KindAt(b, path[..i]).Text? then Absent
            else KindAt(a, path)
    decreases |path|
  {
    if path != [] {
      var k, rest := path[0], path[1..];
      if b.Leaf? {
        assert KindAt(b, path[..0]).Text?;
      } else {
        forall i | 0 < i < |path| ensures path[..i][0] == k && path[..i][1..] == rest[..i - 1] {
        }
        if k in b.entries {
          if a.Node? && k in a.entries {
            MergeAtPath(a.entries[k], b.entries[k], rest);
          }
          if i :| 0 <= i < |rest| && KindAt(b.entries[k], rest[..i]).Text? {
            assert KindAt(b, path[..i + 1]).Text?;
          }
        }
      }
    }
  }

  /** Trees that have the same at every path are the same, so that this says what a merge is. */
  lemma {:induction false} PathsTellTree(a: Tree, b: Tree)
    requires forall path :: KindAt(a, path) == KindAt(b, path)
    ensures a == b
  {
    assert KindAt(a, []) == KindAt(b, []);
    if a.Node? {
      forall k ensures k in a.entries <==> k in b.entries {
        assert KindAt(a, [k]) == KindAt(b, [k]);
      }
      forall k | k in a.entries ensures a.entries[k] == b.entries[k] {
        forall path ensures KindAt(a.entries[k], path) == KindAt(b.entries[k], path) {
          assert ([k] + path)[1..] == path;
          assert KindAt(a, [k] + path) == KindAt(b, [k] + path);
        }
        PathsTellTree(a.entries[k], b.entries[k]);
      }
      assert a.entries == b.entries;
    }
  }
}
