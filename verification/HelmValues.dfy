/** copyMap, mergeMaps and Merge of internal/helm/values.go on heap objects: a Go map is an
    object that other maps may hold, so a merge into it shows wherever it is held. */
module HelmValues {
  import opened HelmTrees

  datatype Value = Scalar(text: string) | Sub(submap: ValueMap?)

  /** Whether the type assertion yields a map that is not nil. */
  predicate IsMap(v: Value) {
    v.Sub? && v.submap != null
  }

  class ValueMap {
    var entries: map<string, Value>
    ghost var tree: map<string, Tree>             // what the entries stand for
    ghost var below: map<string, set<ValueMap>>   // the maps reached through each entry
    ghost var repr: set<ValueMap>                 // this map and the maps below it

    constructor ()
      ensures Valid() && repr == {this} && entries == map[] && tree == map[] && below == map[]
    {
      entries, tree, below, repr := map[], map[], map[], {this};
    }

    /** No map below this one is reached through two entries. */
    ghost predicate Valid()
      reads this, repr
      decreases repr, 1
    {
      this in repr && Apart() && forall k :: k in entries ==> Child(k)
    }

    ghost predicate Apart()
      reads this
    {
      && tree.Keys == entries.Keys && below.Keys == entries.Keys
      && forall k, l :: k in below && l in below && k != l ==> below[k] !! below[l]
    }

    ghost predicate ChildrenBut(key: string)
      reads this, repr
    {
      forall k :: k in entries && k != key ==> Child(k)
    }

    ghost predicate ApartFrom(key: string, objects: set<ValueMap>)
      reads this
    {
      forall k :: k in below && k != key ==> below[k] !! objects
    }

    ghost predicate Child(k: string)
      reads this, repr
      decreases repr, 0
    {
      && k in entries && k in tree && k in below
      && below[k] <= repr && this in repr && this !in below[k]
      && match entries[k]
         case Scalar(text) => tree[k] == Leaf(text) && below[k] == {}
         case Sub(m) =>
           if m == null then tree[k] == EMPTY && below[k] == {}
           else m in repr && m.repr == below[k] && m.Valid() && tree[k] == Node(m.tree)
    }

    /** Go's assignment to a map key. The new value may share maps only with the old one. */
    method Set(key: string, v: Value)
      requires this in repr && Apart() && ChildrenBut(key)
      requires IsMap(v) ==> v.submap.Valid() && this !in v.submap.repr
      requires ApartFrom(key, Below(v))
      modifies this
      ensures Valid()
      ensures entries == old(entries)[key := v] && tree == old(tree)[key := TreeOfValue(v)]
      ensures below == old(below)[key := Below(v)] && repr == old(repr) + Below(v)
    {
      entries, tree, below, repr :=
        entries[key := v], tree[key := TreeOfValue(v)], below[key := Below(v)], repr + Below(v);
      SetKeepsValid(key);
    }

    twostate lemma SetKeepsValid(key: string)
      requires old(this in repr) && old(Apart()) && old(ChildrenBut(key)) && key in entries
      requires IsMap(entries[key]) ==> entries[key].submap.Valid() && this !in entries[key].submap.repr
      requires forall k :: k in old(below) && k != key ==> old(below[k]) !! Below(entries[key])
      requires entries == old(entries)[key := entries[key]]
      requires tree == old(tree)[key := TreeOfValue(entries[key])]
      requires below == old(below)[key := Below(entries[key])] && repr == old(repr) + Below(entries[key])
      requires forall o :: o in old(repr) && o != this ==> unchanged(o)
      ensures Valid()
    {
      assert Child(key);
      forall k | k in entries && k != key ensures Child(k) {
        ChildKept(k);
      }
    }

    /** An entry stays good while it is the same and the maps below it are untouched. */
    twostate lemma ChildKept(k: string)
      requires old(Child(k)) && old(repr) <= repr
      requires k in entries && k in tree && k in below
      requires entries[k] == old(entries[k]) && tree[k] == old(tree[k]) && below[k] == old(below[k])
      requires unchanged(old(below[k]))
      ensures Child(k)
    {
    }
  }

  ghost function Below(v: Value): set<ValueMap>
    reads if IsMap(v) then {v.submap} else {}
  {
    if IsMap(v) then v.submap.repr else {}
  }

  ghost function TreeOfValue(v: Value): Tree
    reads if IsMap(v) then {v.submap} else {}
  {
    match v
    case Scalar(text) => Leaf(text)
    case Sub(m) => if m == null then EMPTY else Node(m.tree)
  }

  /** What a possibly nil map stands for, and the maps in it. */
  ghost function TreeOf(m: ValueMap?): Tree
    reads m
  {
    if m == null then EMPTY else Node(m.tree)
  }

  ghost function ReprOf(m: ValueMap?): set<ValueMap>
    reads m
  {
    if m == null then {} else m.repr
  }

  ghost function MergedAt(t: map<string, Tree>, k: string, v: Tree): Tree {
    if k in t then Merge(t[k], v) else v
  }

  ghost function BelowAt(m: ValueMap, k: string): set<ValueMap>
    reads m
  {
    if k in m.below then m.below[k] else {}
  }

  /** A map held by `was` stays where it is, merged into in place, unless `src` has something
      other than a map under its key. */
  ghost predicate KeepsMaps(was: map<string, Value>, now: map<string, Value>, src: map<string, Value>) {
    forall k :: k in was && IsMap(was[k]) && (k in src ==> src[k].Sub?) ==> k in now && now[k] == was[k]
  }

  lemma KeepsMapsNext(was: map<string, Value>, mid: map<string, Value>, now: map<string, Value>,
                      src: map<string, Value>, key: string)
    requires KeepsMaps(was, mid, src) && key in now && now == mid[key := now[key]]
    requires key in mid && IsMap(mid[key]) && key in src && src[key].Sub? ==> now[key] == mid[key]
    requires key in src
    ensures KeepsMaps(was, now, src)
  {
  }

  /** The body of mergeMaps' loop: takes `src`'s value under `key` over into `dst`. */
  method MergeEntry(dst: ValueMap, src: ValueMap, key: string)
    requires dst.Valid() && src.Valid() && key in src.entries
    requires dst.repr !! BelowAt(src, key) && src.repr !! {dst} + BelowAt(dst, key)
    modifies {dst} + BelowAt(dst, key)
    ensures dst.Valid()
    ensures dst.tree == old(dst.tree)[key := MergedAt(old(dst.tree), key, src.tree[key])]
    ensures key in dst.entries && dst.entries == old(dst.entries)[key := dst.entries[key]]
    ensures key in dst.below && dst.below == old(dst.below)[key := dst.below[key]]
    ensures forall o :: o in dst.repr ==> o in old(dst.repr) || o in BelowAt(src, key) || fresh(o)
    ensures key in old(dst.entries) && IsMap(old(dst.entries[key])) && src.entries[key].Sub? ==>
              dst.entries[key] == old(dst.entries[key])
    decreases src.repr, 0
  {
    var srcVal := src.entries[key];
    assert src.Child(key);
    if key in dst.entries && srcVal.Sub? && dst.entries[key].Sub? {
      assert dst.Child(key);
      var merged := MergeMaps(dst.entries[key].submap, srcVal.submap);
      forall k | k in dst.entries && k != key ensures dst.Child(k) {
        dst.ChildKept(k);
      }
      dst.Set(key, Sub(merged));
    } else {
      dst.Set(key, srcVal);
    }
  }

  /** mergeMaps: in place, unless `dst0` is nil. */
  method MergeMaps(dst0: ValueMap?, src: ValueMap?) returns (dst: ValueMap)
    requires dst0 != null ==> dst0.Valid()
    requires src != null ==> src.Valid()
    requires ReprOf(dst0) !! ReprOf(src)
    modifies ReprOf(dst0)
    ensures dst.Valid() && (if dst0 == null then fresh(dst) else dst == dst0)
    ensures Node(dst.tree) == Merge(old(TreeOf(dst0)), old(TreeOf(src)))
    ensures forall o :: o in dst.repr ==> o in old(ReprOf(dst0)) || o in ReprOf(src) || fresh(o)
    ensures src !in dst.repr
    ensures dst0 != null ==> KeepsMaps(old(dst0.entries), dst.entries, if src == null then map[] else src.entries)
    decreases ReprOf(src), 3
  {
    if dst0 == null {
      dst := new ValueMap();
    } else {
      dst := dst0;
    }
    if src == null {
      EmptyIsIdentity(old(TreeOf(dst0)));
    } else {
      MergeEntries(dst, src);
      assert Node(dst.tree) == Merge(old(TreeOf(dst0)), Node(old(src.tree)));
    }
  }

  /** mergeMaps' loop over the source map, in any order of its keys. */
  method MergeEntries(dst: ValueMap, src: ValueMap)
    requires dst.Valid() && src.Valid() && dst.repr !! src.repr
    modifies dst.repr
    ensures dst.Valid()
    ensures Node(dst.tree) == Merge(Node(old(dst.tree)), Node(old(src.tree)))
    ensures forall o :: o in dst.repr ==> o in old(dst.repr) || o in old(src.repr) || fresh(o)
    ensures src !in dst.repr && KeepsMaps(old(dst.entries), dst.entries, src.entries)
    decreases src.repr, 2
  {
    ghost var before, objects := dst.tree, dst.repr;
    var keys := src.entries.Keys;
    PartlyMergedNone(before, src.tree);
    while keys != {}
      invariant keys <= src.entries.Keys && unchanged(src.repr)
      invariant dst.Valid() && dst.tree == PartlyMerged(before, src.tree, keys)
      invariant Untouched(dst, src, objects, keys) && KeepsMaps(old(dst.entries), dst.entries, src.entries)
      invariant forall o :: o in dst.repr ==> o in objects || o in src.repr || fresh(o)
      decreases keys
    {
      var key :| key in keys;
      ghost var was := dst.entries;
      MergeNext(dst, src, key, objects, keys);
      KeepsMapsNext(old(dst.entries), was, dst.entries, src.entries, key);
      PartlyMergedMore(before, src.tree, keys, key);
      keys := keys - {key};
    }
    PartlyMergedAll(before, src.tree);
  }

  /** One iteration of that loop, with what it leaves for the next ones. */
  method MergeNext(dst: ValueMap, src: ValueMap, key: string, ghost objects: set<ValueMap>, ghost keys: set<string>)
    requires dst.Valid() && src.Valid() && key in keys && keys <= src.entries.Keys && dst in objects
    requires Untouched(dst, src, objects, keys) && objects !! src.repr
    modifies {dst} + BelowAt(dst, key)
    ensures dst.Valid() && Untouched(dst, src, objects, keys - {key})
    ensures dst.tree == old(dst.tree)[key := MergedAt(old(dst.tree), key, src.tree[key])]
    ensures forall o :: o in dst.repr ==> o in old(dst.repr) || o in src.repr || fresh(o)
    ensures key in dst.entries && dst.entries == old(dst.entries)[key := dst.entries[key]]
    ensures key in old(dst.entries) && IsMap(old(dst.entries[key])) && src.entries[key].Sub? ==>
              dst.entries[key] == old(dst.entries[key])
    decreases src.repr, 1
  {
    ghost var was := dst.repr;
    assert src.Child(key);
    MergeEntry(dst, src, key);
    ghost var added := dst.repr - was - src.below[key];
    assert forall o :: o in added ==> o !in src.repr;
  }

  /** The keys still to come: `dst` has only maps of its own there, and none of `src`'s. */
  ghost predicate Untouched(dst: ValueMap, src: ValueMap, objects: set<ValueMap>, keys: set<string>)
    reads dst, src
  {
    && src !in dst.repr
    && forall k :: k in keys ==> BelowAt(dst, k) <= objects && dst.repr !! BelowAt(src, k)
  }

  /** The merge with the keys in `left` not yet taken over. */
  ghost function PartlyMerged(a: map<string, Tree>, b: map<string, Tree>, left: set<string>): map<string, Tree> {
    map k | k in a.Keys + (b.Keys - left) ::
      if k in b && k !in left then MergedAt(a, k, b[k]) else a[k]
  }

  lemma PartlyMergedNone(a: map<string, Tree>, b: map<string, Tree>)
    ensures PartlyMerged(a, b, b.Keys) == a
  {
  }

  lemma PartlyMergedMore(a: map<string, Tree>, b: map<string, Tree>, left: set<string>, key: string)
    requires key in b && key in left
    ensures var m := PartlyMerged(a, b, left);
            PartlyMerged(a, b, left - {key}) == m[key := MergedAt(m, key, b[key])]
  {
    assert PartlyMerged(a, b, left - {key}).Keys == PartlyMerged(a, b, left).Keys + {key};
  }

  lemma PartlyMergedAll(a: map<string, Tree>, b: map<string, Tree>)
    ensures Node(PartlyMerged(a, b, {})) == Merge(Node(a), Node(b))
  {
    assert PartlyMerged(a, b, {}) == Merge(Node(a), Node(b)).entries;
  }

  /** copyMap: a new map holding the very same values, submaps included. */
  method CopyMap(src: ValueMap?) returns (dst: ValueMap)
    requires src != null ==> src.Valid()
    ensures fresh(dst) && dst.Valid() && Node(dst.tree) == TreeOf(src)
    ensures dst.entries == (if src == null then map[] else src.entries)
    ensures src !in dst.repr && dst.repr <= {dst} + ReprOf(src)
  {
    dst := new ValueMap();
    if src != null {
      var keys := src.entries.Keys;
      while keys != {}
        invariant keys <= src.entries.Keys && dst.Valid()
        invariant Without(dst.entries, src.entries, keys) && Without(dst.tree, src.tree, keys)
        invariant Without(dst.below, src.below, keys)
        invariant src !in dst.repr && dst.repr <= {dst} + src.repr
        decreases keys
      {
        var key :| key in keys;
        assert src.Child(key);
        dst.Set(key, src.entries[key]);
        keys := keys - {key};
      }
      WithoutNone(dst.entries, src.entries);
      WithoutNone(dst.tree, src.tree);
    }
  }

  ghost predicate Without<V>(m: map<string, V>, all: map<string, V>, keys: set<string>) {
    forall k :: (k in m <==> k in all && k !in keys) && (k in m ==> m[k] == all[k])
  }

  lemma WithoutNone<V>(m: map<string, V>, all: map<string, V>)
    requires Without(m, all, {})
    ensures m == all
  {
  }

  /** The maps reachable from any of the overlays. */
  ghost function AllReprs(overlays: seq<ValueMap?>): set<ValueMap>
    reads overlays
  {
    set i, m | 0 <= i < |overlays| && m in ReprOf(overlays[i]) :: m
  }

  ghost predicate AllValid(overlays: seq<ValueMap?>)
    reads overlays, AllReprs(overlays)
  {
    && (forall i :: 0 <= i < |overlays| && overlays[i] != null ==>
          overlays[i].repr <= AllReprs(overlays) && overlays[i].Valid())
    && (forall i, j :: 0 <= i < j < |overlays| ==> ReprOf(overlays[i]) !! ReprOf(overlays[j]))
  }

  ghost function TreesOf(overlays: seq<ValueMap?>): (ts: seq<Tree>)
    reads overlays
    ensures |ts| == |overlays|
  {
    if overlays == [] then [] else TreesOf(overlays[..|overlays| - 1]) + [TreeOf(overlays[|overlays| - 1])]
  }

  lemma {:induction false} TreesAt(overlays: seq<ValueMap?>, i: nat)
    requires i < |overlays|
    ensures TreesOf(overlays)[i] == TreeOf(overlays[i])
  {
    if i < |overlays| - 1 {
      TreesAt(overlays[..|overlays| - 1], i);
    } else if i > 0 {
      TreesAt(overlays[..|overlays| - 1], i - 1);
    }
  }

  lemma TreesAreNodes(overlays: seq<ValueMap?>)
    ensures forall i :: 0 <= i < |overlays| ==> TreesOf(overlays)[i].Node?
  {
    forall i | 0 <= i < |overlays|
      ensures TreesOf(overlays)[i].Node?
    {
      TreesAt(overlays, i);
    }
  }

  /** Merge: neither `base` nor an overlay is itself written to, but their submaps are. A submap that the
      result shares with `base` stands for what merging the overlays' submaps into it gives, so read
      through `base` it is what it was exactly when that changes nothing. */
  method MergeValues(base: ValueMap?, overlays: seq<ValueMap?>) returns (result: ValueMap)
    requires base != null ==> base.Valid()
    requires AllValid(overlays) && ReprOf(base) !! AllReprs(overlays)
    modifies ReprOf(base), AllReprs(overlays)
    ensures fresh(result) && result.Valid()
    ensures Node(result.tree) == MergeAll(old(TreeOf(base)), old(TreesOf(overlays)))
    ensures base != null ==> unchanged(base)
    ensures forall i :: 0 <= i < |overlays| && overlays[i] != null ==> unchanged(overlays[i])
    ensures base != null ==> forall k :: k in old(SharedKeys(base, overlays)) ==>
              && k in result.entries && k in base.entries && result.entries[k] == base.entries[k]
              && result.tree[k] == TreeOfValue(base.entries[k])
              && result.tree[k] == MergeAll(old(base.tree)[k], TreesUnder(old(TreesOf(overlays)), k))
  {
    ghost var trees := TreesOf(overlays);
    TreesAreNodes(overlays);
    result := CopyMap(base);
    MergeOnto(result, overlays);
    forall k | base != null && k in old(SharedKeys(base, overlays))
      ensures result.tree[k] == TreeOfValue(result.entries[k])
      ensures result.tree[k] == MergeAll(old(base.tree)[k], TreesUnder(trees, k))
    {
      assert result.Child(k);
      MergeAllUnder(old(TreeOf(base)), trees, k);
    }
  }

  /** Merge's loop over the overlays. */
  method MergeOnto(result: ValueMap, overlays: seq<ValueMap?>)
    requires result.Valid() && AllValid(overlays) && result.repr !! AllReprs(overlays)
    modifies result.repr, AllReprs(overlays)
    ensures result.Valid()
    ensures Node(result.tree) == MergeAll(old(TreeOf(result)), old(TreesOf(overlays)))
    ensures forall i :: 0 <= i < |overlays| && overlays[i] != null ==> unchanged(overlays[i])
    ensures forall k :: k in old(SharedKeys(result, overlays)) ==>
              k in result.entries && result.entries[k] == old(result.entries)[k]
  {
    ghost var all, touched := result.repr + AllReprs(overlays), result.repr;
    ghost var trees, reprs := TreesOf(overlays), ReprsOf(overlays);
    ghost var shared := SharedKeys(result, overlays);
    forall j | 0 <= j < |overlays| ensures trees[j] == TreeOf(overlays[j]) {
      TreesAt(overlays, j);
    }
    for i := 0 to |overlays|
      invariant result.Valid() && result.repr <= touched
      invariant forall o :: o in touched ==> o in all || fresh(o)
      invariant forall o :: o in all && o !in touched ==> unchanged(o)
      invariant OthersApart(overlays, reprs, touched, i)
      invariant Node(result.tree) == MergeAll(old(TreeOf(result)), trees[..i])
      invariant forall k :: k in shared ==> k in result.entries && result.entries[k] == old(result.entries)[k]
    {
      assert TreeOf(overlays[i]) == trees[i];
      MergeAllNext(old(TreeOf(result)), trees, i);
      var same := MergeMaps(result, overlays[i]);
      touched := touched + result.repr;
    }
    assert trees[..|overlays|] == trees;
  }

  ghost function ReprsOf(overlays: seq<ValueMap?>): (rs: seq<set<ValueMap>>)
    reads overlays
    ensures |rs| == |overlays|
    ensures forall i :: 0 <= i < |overlays| ==> rs[i] == ReprOf(overlays[i])
  {
    if overlays == [] then []
    else ReprsOf(overlays[..|overlays| - 1]) + [ReprOf(overlays[|overlays| - 1])]
  }

  /** No overlay object itself is in `touched`, nor anything below the overlays from `i` on. */
  ghost predicate OthersApart(overlays: seq<ValueMap?>, reprs: seq<set<ValueMap>>, touched: set<ValueMap>, i: nat) {
    && |reprs| == |overlays|
    && (forall j :: 0 <= j < |overlays| ==> overlays[j] !in touched)
    && (forall j :: i <= j < |overlays| ==> reprs[j] !! touched)
  }

  /** The keys at which `base` has a map and no overlay has anything but a map. */
  ghost function SharedKeys(base: ValueMap, overlays: seq<ValueMap?>): set<string>
    reads base, overlays
  {
    set k | k in base.entries && IsMap(base.entries[k]) &&
            forall i :: 0 <= i < |overlays| && overlays[i] != null && k in overlays[i].entries ==>
              overlays[i].entries[k].Sub?
  }
}
