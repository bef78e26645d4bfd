/** What the ML detector reports (internal/ml/detector.go). */
module DetectorTypes {
  type Path = string

  datatype Framework = Framework(name: string, source: Path, imports: seq<string>, cell: nat)

  datatype Model = Model(path: seq<string>, kind: string, size: nat)

  const MAX_FRAMEWORKS := 1000
  const MAX_MODELS := 5000
  const MAX_CACHE_ENTRIES := 10000

  /** Ranging over a Go map lists its values in any order. */
  method RangeOver(found: seq<Framework>) returns (listed: seq<Framework>)
    ensures multiset(listed) == multiset(found) && |listed| == |found|
  {
    var left := found;
    listed := [];
    while left != []
      invariant multiset(listed) + multiset(left) == multiset(found) && |listed| + |left| == |found|
      decreases |left|
    {
      var i: nat :| i < |left|;
      assert left == left[..i] + [left[i]] + left[i + 1..];
      listed := listed + [left[i]];
      left := left[..i] + left[i + 1..];
    }
  }
}
