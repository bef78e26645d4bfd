/** The budgeted directory walk of internal/ml/detector.go (walkRecursive and its callers). */
module Walking {
  import opened Options

  /** A directory entry; `size` is None where reading the file info fails, and an unreadable
      directory's listing is never looked at. */
  datatype Entry =
    | File(name: string, size: Option<nat>)
    | Dir(name: string, size: Option<nat>, readable: bool, listing: seq<Entry>)

  /** What the walk hands to its callback: the path below the root, component by component. */
  datatype Report = Report(path: seq<string>, isDir: bool, size: nat)

  /** Limits that are zero or negative are off. */
  datatype Limits = Limits(maxDepth: int, maxFiles: int, maxFileSize: int)

  predicate SkippedName(name: string) {
    || (name != "" && name[0] == '.')
    || name == "node_modules" || name == "__pycache__" || name == "venv" || name == ".git"
  }

  function SizeOf(e: Entry): nat {
    if e.size.Some? then e.size.value else 0
  }

  predicate Filtered(lim: Limits, e: Entry) {
    SkippedName(e.name) || (e.File? && lim.maxFileSize > 0 && SizeOf(e) > lim.maxFileSize)
  }

  predicate TooDeep(lim: Limits, depth: nat) {
    lim.maxDepth > 0 && depth > lim.maxDepth
  }

  /** The filtered, depth-limited preorder of a directory's entries, with no file budget. */
  function Preorder(lim: Limits, listing: seq<Entry>, path: seq<string>, depth: nat): seq<Report>
    decreases listing, 1
  {
    if TooDeep(lim, depth) then [] else Entries(lim, listing, path, depth)
  }

  function Entries(lim: Limits, es: seq<Entry>, path: seq<string>, depth: nat): seq<Report>
    decreases es, 0
  {
    if es == [] then []
    else EntryReports(lim, es[0], path, depth) + Entries(lim, es[1..], path, depth)
  }

  function EntryReports(lim: Limits, e: Entry, path: seq<string>, depth: nat): seq<Report>
    decreases e, 2
  {
    if Filtered(lim, e) then []
    else [Report(path + [e.name], e.Dir?, SizeOf(e))] + Below(lim, e, path, depth)
  }

  function Below(lim: Limits, e: Entry, path: seq<string>, depth: nat): seq<Report>
    decreases e, 1
  {
    if e.Dir? && e.readable then Preorder(lim, e.listing, path + [e.name], depth + 1) else []
  }

  function FileCount(rs: seq<Report>): nat {
    if rs == [] then 0 else (if rs[0].isDir then 0 else 1) + FileCount(rs[1..])
  }

  predicate Exhausted(lim: Limits, count: nat) {
    lim.maxFiles > 0 && count >= lim.maxFiles
  }

  /** The reports made from a file count of `count` on: none once the budget is used up. */
  function Budgeted(lim: Limits, rs: seq<Report>, count: nat): seq<Report> {
    if rs == [] || Exhausted(lim, count) then []
    else [rs[0]] + Budgeted(lim, rs[1..], count + if rs[0].isDir then 0 else 1)
  }

  function Files(rs: seq<Report>): set<nat> {
    set i | 0 <= i < |rs| && !rs[i].isDir
  }

  /** The budget is spent on files, one by one, and not on directories. */
  lemma {:induction false} FileCountIsSize(rs: seq<Report>)
    ensures FileCount(rs) == |Files(rs)|
  {
    if rs != [] {
      var front, last := rs[..|rs| - 1], rs[|rs| - 1];
      FileCountIsSize(front);
      CountConcat(front, [last]);
      assert rs == front + [last];
      assert Files(rs) == Files(front) + if last.isDir then {} else {|rs| - 1};
    }
  }

  lemma {:induction false} CountConcat(a: seq<Report>, b: seq<Report>)
    ensures FileCount(a + b) == FileCount(a) + FileCount(b)
  {
    if a == [] {
      assert a + b == b;
    } else {
      assert (a + b)[1..] == a[1..] + b;
      CountConcat(a[1..], b);
    }
  }

  lemma {:induction false} BudgetConcat(lim: Limits, a: seq<Report>, b: seq<Report>, count: nat)
    ensures Budgeted(lim, a + b, count) ==
            Budgeted(lim, a, count) + Budgeted(lim, b, count + FileCount(Budgeted(lim, a, count)))
  {
    if a == [] {
      assert a + b == b;
    } else if !Exhausted(lim, count) {
      assert (a + b)[1..] == a[1..] + b;
      var next := count + if a[0].isDir then 0 else 1;
      BudgetConcat(lim, a[1..], b, next);
      var front := Budgeted(lim, a[1..], next);
      assert ([a[0]] + front)[1..] == front;
    }
  }

  /** The budget cuts the reports off at the first point where it is used up, and never lets
      more files through than are left of it. */
  lemma {:induction false} BudgetIsPrefix(lim: Limits, rs: seq<Report>, count: nat)
    ensures Budgeted(lim, rs, count) <= rs
    ensures var k := |Budgeted(lim, rs, count)|;
            && (k < |rs| ==> Exhausted(lim, count + FileCount(rs[..k])))
            && (forall j :: 0 <= j < k ==> !Exhausted(lim, count + FileCount(rs[..j])))
    ensures lim.maxFiles > 0 && count <= lim.maxFiles ==>
              count + FileCount(Budgeted(lim, rs, count)) <= lim.maxFiles
  {
    if rs != [] && !Exhausted(lim, count) {
      var next := count + if rs[0].isDir then 0 else 1;
      BudgetIsPrefix(lim, rs[1..], next);
      var rest := Budgeted(lim, rs[1..], next);
      var k := |rest| + 1;
      forall j | 0 < j <= k && j <= |rs|
        ensures FileCount(rs[..j]) == FileCount(rs[1..][..j - 1]) + if rs[0].isDir then 0 else 1
      {
        assert rs[..j] == [rs[0]] + rs[1..][..j - 1];
        assert rs[..j][1..] == rs[1..][..j - 1];
      }
      assert ([rs[0]] + rest)[1..] == rest;
    }
  }

  /** Nothing is cut off exactly when the budget lasts up to the last report. */
  lemma BudgetSuffices(lim: Limits, rs: seq<Report>, count: nat)
    ensures Budgeted(lim, rs, count) == rs <==>
              rs == [] || !Exhausted(lim, count + FileCount(rs[..|rs| - 1]))
  {
    BudgetIsPrefix(lim, rs, count);
    if rs != [] && !Exhausted(lim, count + FileCount(rs[..|rs| - 1])) {
      var k := |Budgeted(lim, rs, count)|;
      if k < |rs| {
        FewerFiles(rs, k);
      }
    }
  }

  lemma FewerFiles(rs: seq<Report>, k: nat)
    requires k < |rs|
    ensures FileCount(rs[..k]) <= FileCount(rs[..|rs| - 1])
  {
    var shorter := rs[..|rs| - 1];
    assert shorter == rs[..k] + rs[k..|rs| - 1];
    CountConcat(rs[..k], rs[k..|rs| - 1]);
  }

  lemma BudgetJoin(lim: Limits, a: seq<Report>, b: seq<Report>, count: nat)
    ensures var first := Budgeted(lim, a, count);
            var second := Budgeted(lim, b, count + FileCount(first));
            && Budgeted(lim, a + b, count) == first + second
            && FileCount(Budgeted(lim, a + b, count)) == FileCount(first) + FileCount(second)
  {
    BudgetConcat(lim, a, b, count);
    CountConcat(Budgeted(lim, a, count), Budgeted(lim, b, count + FileCount(Budgeted(lim, a, count))));
  }

  /** Two stretches of the walk, one after the other. */
  lemma ProgressJoin(lim: Limits, a: seq<Report>, b: seq<Report>, reported0: seq<Report>, count0: nat,
                     reported1: seq<Report>, count1: nat, reported2: seq<Report>, count2: nat)
    requires reported1 == reported0 + Budgeted(lim, a, count0)
    requires count1 == count0 + FileCount(Budgeted(lim, a, count0))
    requires if b == [] then reported2 == reported1 && count2 == count1
             else (reported2 == reported1 + Budgeted(lim, b, count1) &&
                   count2 == count1 + FileCount(Budgeted(lim, b, count1)))
    ensures reported2 == reported0 + Budgeted(lim, a + b, count0)
    ensures count2 == count0 + FileCount(Budgeted(lim, a + b, count0))
  {
    if b == [] {
      assert a + b == a;
    } else {
      BudgetJoin(lim, a, b, count0);
      ConcatAssociates(reported0, Budgeted(lim, a, count0), Budgeted(lim, b, count1));
    }
  }

  lemma ConcatAssociates(a: seq<Report>, b: seq<Report>, c: seq<Report>)
    ensures a + (b + c) == (a + b) + c
  {
  }

  lemma NothingLeft(lim: Limits, rs: seq<Report>, count: nat)
    requires Exhausted(lim, count)
    ensures Budgeted(lim, rs, count) == []
  {
  }

  lemma {:induction false} EntriesConcat(lim: Limits, a: seq<Entry>, b: seq<Entry>, path: seq<string>, depth: nat)
    ensures Entries(lim, a + b, path, depth) == Entries(lim, a, path, depth) + Entries(lim, b, path, depth)
  {
    if a == [] {
      assert a + b == b;
    } else {
      assert (a + b)[1..] == a[1..] + b;
      EntriesConcat(lim, a[1..], b, path, depth);
    }
  }

  lemma EntriesNext(lim: Limits, es: seq<Entry>, i: nat, path: seq<string>, depth: nat)
    requires i < |es|
    ensures Entries(lim, es[..i + 1], path, depth) ==
            Entries(lim, es[..i], path, depth) + EntryReports(lim, es[i], path, depth)
  {
    assert es[..i + 1] == es[..i] + [es[i]];
    EntriesConcat(lim, es[..i], [es[i]], path, depth);
  }

  /** Once the budget is used up after the first `i` entries, the rest add nothing. */
  lemma StopsHere(lim: Limits, es: seq<Entry>, i: nat, path: seq<string>, depth: nat, count: nat)
    requires i <= |es|
    requires Exhausted(lim, count + FileCount(Budgeted(lim, Entries(lim, es[..i], path, depth), count)))
    ensures Budgeted(lim, Entries(lim, es, path, depth), count) ==
            Budgeted(lim, Entries(lim, es[..i], path, depth), count)
  {
    assert es == es[..i] + es[i..];
    EntriesConcat(lim, es[..i], es[i..], path, depth);
    BudgetConcat(lim, Entries(lim, es[..i], path, depth), Entries(lim, es[i..], path, depth), count);
  }

  /** The detector's file counter and the callback's trace. */
  class Walker {
    var filesScanned: nat
    var reported: seq<Report>

    constructor ()
      ensures filesScanned == 0 && reported == []
    {
      filesScanned, reported := 0, [];
    }

    /** walkRecursive on a readable directory with the given listing. */
    method WalkRecursive(lim: Limits, listing: seq<Entry>, path: seq<string>, depth: nat)
      modifies this
      ensures reported == old(reported) + Budgeted(lim, Preorder(lim, listing, path, depth), old(filesScanned))
      ensures filesScanned ==
              old(filesScanned) + FileCount(Budgeted(lim, Preorder(lim, listing, path, depth), old(filesScanned)))
      decreases listing, 3
    {
      if TooDeep(lim, depth) {
        return;
      }
      if Exhausted(lim, filesScanned) {
        NothingLeft(lim, Preorder(lim, listing, path, depth), filesScanned);
        return;
      }
      for i := 0 to |listing|
        invariant Progress(lim, Entries(lim, listing[..i], path, depth), old(filesScanned), old(reported))
      {
        EntriesNext(lim, listing, i, path, depth);
        if Exhausted(lim, filesScanned) {
          StopsHere(lim, listing, i, path, depth, old(filesScanned));
          return;
        }
        ghost var mid, count := reported, filesScanned;
        if !Filtered(lim, listing[i]) {
          VisitEntry(lim, listing[i], path, depth);
        }
        ProgressJoin(lim, Entries(lim, listing[..i], path, depth), EntryReports(lim, listing[i], path, depth),
                     old(reported), old(filesScanned), mid, count, reported, filesScanned);
      }
      assert listing[..|listing|] == listing;
    }

    /** Where the walk stands after the reports `done` were due. */
    ghost predicate Progress(lim: Limits, done: seq<Report>, count: nat, before: seq<Report>)
      reads this
    {
      && reported == before + Budgeted(lim, done, count)
      && filesScanned == count + FileCount(Budgeted(lim, done, count))
    }

    /** What the walk does with an entry that is not skipped. */
    method VisitEntry(lim: Limits, entry: Entry, path: seq<string>, depth: nat)
      requires !Filtered(lim, entry) && !Exhausted(lim, filesScanned)
      modifies this
      ensures Progress(lim, EntryReports(lim, entry, path, depth), old(filesScanned), old(reported))
      decreases entry, 2
    {
      if entry.File? {
        filesScanned := filesScanned + 1;
      }
      reported := reported + [Report(path + [entry.name], entry.Dir?, SizeOf(entry))];
      if entry.Dir? && entry.readable {
        WalkRecursive(lim, entry.listing, path + [entry.name], depth + 1);
      }
    }
  }

  /** Detect resets the counter once and walks twice, for frameworks and then for models. */
  method WalkTwice(lim: Limits, root: seq<Entry>) returns (first: seq<Report>, second: seq<Report>, scanned: nat)
    ensures first == Budgeted(lim, Preorder(lim, root, [], 0), 0)
    ensures second == Budgeted(lim, Preorder(lim, root, [], 0), FileCount(first))
    ensures scanned == FileCount(first) + FileCount(second)
    ensures lim.maxFiles > 0 ==> scanned <= lim.maxFiles
  {
    var walker := new Walker();
    walker.WalkRecursive(lim, root, [], 0);
    first := walker.reported;
    BudgetIsPrefix(lim, Preorder(lim, root, [], 0), 0);
    BudgetIsPrefix(lim, Preorder(lim, root, [], 0), FileCount(first));
    walker.reported := [];
    walker.WalkRecursive(lim, root, [], 0);
    second, scanned := walker.reported, walker.filesScanned;
  }

  /** The shared counter starves the second walk: once the tree alone uses the budget up, it
      reports nothing. */
  lemma SecondWalkStarves(lim: Limits, rs: seq<Report>)
    requires lim.maxFiles > 0 && FileCount(rs) >= lim.maxFiles
    ensures Budgeted(lim, rs, FileCount(Budgeted(lim, rs, 0))) == []
  {
    BudgetIsPrefix(lim, rs, 0);
    var first := Budgeted(lim, rs, 0);
    assert first == rs[..|first|];
    assert |first| == |rs| ==> first == rs;
  }

  /** Both walks report the whole tree exactly when the budget covers it twice, up to the
      last report. */
  lemma BothWalksComplete(lim: Limits, rs: seq<Report>)
    requires rs != []
    ensures Budgeted(lim, rs, 0) == rs && Budgeted(lim, rs, FileCount(rs)) == rs <==>
              !Exhausted(lim, FileCount(rs) + FileCount(rs[..|rs| - 1]))
  {
    BudgetSuffices(lim, rs, 0);
    BudgetSuffices(lim, rs, FileCount(rs));
  }
}
