/** Sorted copies and counts of real samples, for internal/ml/statistics.go. Floating-point
    numbers are modelled as reals. */
module Samples {
  predicate IsSorted(s: seq<real>) {
    forall i, j :: 0 <= i < j < |s| ==> s[i] <= s[j]
  }

  function Insert(x: real, s: seq<real>): seq<real> {
    if s == [] || x <= s[0] then [x] + s else [s[0]] + Insert(x, s[1..])
  }

  /** What sort.Float64s makes of a copy: the only sorted sequence with the same elements. */
  function Sort(s: seq<real>): seq<real> {
    if s == [] then [] else Insert(s[0], Sort(s[1..]))
  }

  /** How many elements are at most `v`, or with `strict` below `v`. */
  function CountTo(s: seq<real>, v: real, strict: bool): (n: nat)
    ensures n <= |s|
  {
    if s == [] then 0 else (if Inside(s[0], v, strict) then 1 else 0) + CountTo(s[1..], v, strict)
  }

  predicate Inside(x: real, v: real, strict: bool) {
    if strict then x < v else x <= v
  }

  lemma {:induction false} InsertKeeps(x: real, s: seq<real>)
    ensures |Insert(x, s)| == |s| + 1 && multiset(Insert(x, s)) == multiset(s) + multiset{x}
  {
    if s != [] && x > s[0] {
      assert s == [s[0]] + s[1..];
      InsertKeeps(x, s[1..]);
    }
  }

  lemma {:induction false} InsertSorts(x: real, s: seq<real>)
    requires IsSorted(s)
    ensures IsSorted(Insert(x, s)) && Insert(x, s) != []
    ensures Insert(x, s)[0] == x || (s != [] && Insert(x, s)[0] == s[0])
  {
    if s == [] || x <= s[0] {
      SortedCons(x, s);
    } else {
      InsertSorts(x, s[1..]);
      SortedCons(s[0], Insert(x, s[1..]));
    }
  }

  lemma SortedCons(x: real, s: seq<real>)
    requires IsSorted(s) && (s != [] ==> x <= s[0])
    ensures IsSorted([x] + s)
  {
  }

  lemma {:induction false} SortSorts(s: seq<real>)
    ensures IsSorted(Sort(s)) && |Sort(s)| == |s| && multiset(Sort(s)) == multiset(s)
  {
    if s != [] {
      SortSorts(s[1..]);
      InsertSorts(s[0], Sort(s[1..]));
      InsertKeeps(s[0], Sort(s[1..]));
      assert s == [s[0]] + s[1..];
    }
  }

  lemma {:induction false} InsertCounts(x: real, s: seq<real>, v: real, strict: bool)
    ensures CountTo(Insert(x, s), v, strict) == CountTo(s, v, strict) + (if Inside(x, v, strict) then 1 else 0)
  {
    if s == [] || x <= s[0] {
      assert ([x] + s)[1..] == s;
    } else {
      InsertCounts(x, s[1..], v, strict);
      assert ([s[0]] + Insert(x, s[1..]))[1..] == Insert(x, s[1..]);
    }
  }

  lemma {:induction false} SortCounts(s: seq<real>, v: real, strict: bool)
    ensures CountTo(Sort(s), v, strict) == CountTo(s, v, strict)
  {
    if s != [] {
      SortCounts(s[1..], v, strict);
      InsertCounts(s[0], Sort(s[1..]), v, strict);
    }
  }

  /** In a sorted sample the elements counted are the first ones. */
  lemma {:induction false} CountIsIndex(s: seq<real>, v: real, strict: bool, i: nat)
    requires IsSorted(s) && i < |s|
    ensures i < CountTo(s, v, strict) <==> Inside(s[i], v, strict)
  {
    if i > 0 {
      CountIsIndex(s[1..], v, strict, i - 1);
      if !Inside(s[0], v, strict) {
        NoneInside(s[1..], v, strict);
      }
    } else if !Inside(s[0], v, strict) {
      NoneInside(s[1..], v, strict);
    }
  }

  lemma {:induction false} NoneInside(s: seq<real>, v: real, strict: bool)
    requires forall x :: x in s ==> !Inside(x, v, strict)
    ensures CountTo(s, v, strict) == 0
  {
    if s != [] {
      NoneInside(s[1..], v, strict);
    }
  }

  /** No element lies above `b` and below `v`. */
  ghost predicate NothingBetween(s: seq<real>, b: real, v: real) {
    b < v && forall i :: 0 <= i < |s| ==> (s[i] <= b <==> s[i] < v)
  }

  function JustBelow(s: seq<real>, v: real): (b: real)
    ensures NothingBetween(s, b, v)
  {
    if s == [] then v - 1.0
    else
      var b := JustBelow(s[1..], v);
      assert forall i :: 0 < i < |s| ==> s[i] == s[1..][i - 1];
      if b < s[0] < v then s[0] else b
  }

  lemma {:induction false} CountJustBelow(s: seq<real>, v: real, b: real)
    requires NothingBetween(s, b, v)
    ensures CountTo(s, b, false) == CountTo(s, v, true)
  {
    if s != [] {
      CountJustBelow(s[1..], v, b);
    }
  }
}
