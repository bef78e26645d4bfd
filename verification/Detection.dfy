/** The sequential scan of internal/ml/detector.go: Detect's two passes over the walk's reports. */
module Detection {
  import opened DetectorTypes
  import opened Walking

  /** What a reported file or directory turns out to be. */
  datatype Content =
    | Other
    | Unreadable                              // reading or parsing fails
    | Source(matches: seq<Framework>)         // a Python file and the patterns it matches
    | Notebook(found: seq<Framework>)
    | ModelFile(model: Model)
    | SavedModel(model: Model)                // a directory

  type Classify = Report -> Content

  function FrameworksOf(c: Content): multiset<Framework> {
    match c
    case Source(matches) => multiset(matches)
    case Notebook(found) => multiset(found)
    case _ => multiset{}
  }

  function ModelsOf(c: Content): multiset<Model> {
    match c
    case ModelFile(m) => multiset{m}
    case SavedModel(m) => multiset{m}
    case _ => multiset{}
  }

  /** Everything there is to find in a list of reports. */
  function AllFrameworks(classify: Classify, rs: seq<Report>): multiset<Framework> {
    if rs == [] then multiset{}
    else AllFrameworks(classify, rs[..|rs| - 1]) + FrameworksOf(classify(rs[|rs| - 1]))
  }

  function AllModels(classify: Classify, rs: seq<Report>): multiset<Model> {
    if rs == [] then multiset{}
    else AllModels(classify, rs[..|rs| - 1]) + ModelsOf(classify(rs[|rs| - 1]))
  }

  predicate Shows(c: Content, f: Framework) {
    match c
    case Source(matches) => f in matches
    case Notebook(found) => f in found
    case _ => false
  }

  /** There is to find what matches in some source file or is in some notebook, and every model. */
  lemma {:induction false} FrameworksThereAre(classify: Classify, rs: seq<Report>, f: Framework)
    ensures f in AllFrameworks(classify, rs) <==> exists r :: r in rs && Shows(classify(r), f)
  {
    if rs != [] {
      var front, last := rs[..|rs| - 1], rs[|rs| - 1];
      FrameworksThereAre(classify, front, f);
      assert rs == front + [last];
    }
  }

  lemma {:induction false} ModelsThereAre(classify: Classify, rs: seq<Report>, m: Model)
    ensures m in AllModels(classify, rs) <==>
              exists r :: r in rs && (classify(r) == ModelFile(m) || classify(r) == SavedModel(m))
  {
    if rs != [] {
      var front, last := rs[..|rs| - 1], rs[|rs| - 1];
      ModelsThereAre(classify, front, m);
      assert rs == front + [last];
    }
  }

  lemma {:induction false} AllConcat(classify: Classify, a: seq<Report>, b: seq<Report>)
    ensures AllFrameworks(classify, a + b) == AllFrameworks(classify, a) + AllFrameworks(classify, b)
    ensures AllModels(classify, a + b) == AllModels(classify, a) + AllModels(classify, b)
  {
    if b == [] {
      assert a + b == a;
    } else {
      assert (a + b)[..|a + b| - 1] == a + b[..|b| - 1];
      AllConcat(classify, a, b[..|b| - 1]);
    }
  }

  /** detectFrameworksInNotebook: the list is cut to what is left, unless nothing is left. */
  function AppendNotebook(before: seq<Framework>, found: seq<Framework>): seq<Framework> {
    var remaining := MAX_FRAMEWORKS - |before|;
    before + if remaining > 0 && |found| > remaining then found[..remaining] else found
  }

  /** So the limit holds exactly while it has not been reached, or nothing is found. */
  lemma NotebookLimit(before: seq<Framework>, found: seq<Framework>)
    requires |before| <= MAX_FRAMEWORKS
    ensures |AppendNotebook(before, found)| <= MAX_FRAMEWORKS <==> |before| < MAX_FRAMEWORKS || found == []
    ensures before <= AppendNotebook(before, found) <= before + found
    ensures AppendNotebook(before, found) != before + found ==> |AppendNotebook(before, found)| == MAX_FRAMEWORKS
  {
  }

  /** `listed` holds nothing that is not in `all`, and all of it unless it reached the limit. */
  ghost predicate UpTo<T>(listed: seq<T>, all: multiset<T>, limit: nat) {
    multiset(listed) <= all && (multiset(listed) == all || |listed| >= limit)
  }

  lemma UpToIsComplete<T>(listed: seq<T>, all: multiset<T>, limit: nat)
    requires UpTo(listed, all, limit) && |all| <= limit
    ensures multiset(listed) == all
  {
    var rest := all - multiset(listed);
    assert all == multiset(listed) + rest;
    assert |all| == |multiset(listed)| + |rest| && |multiset(listed)| == |listed|;
  }

  lemma NotebookUpTo(before: seq<Framework>, found: seq<Framework>)
    ensures UpTo(AppendNotebook(before, found), multiset(before) + multiset(found), MAX_FRAMEWORKS)
    ensures |AppendNotebook(before, found)| >= |before|
  {
    var remaining := MAX_FRAMEWORKS - |before|;
    if remaining > 0 && |found| > remaining {
      assert found == found[..remaining] + found[remaining..];
    }
  }

  /** detectFrameworksInContent. */
  method AppendSource(before: seq<Framework>, matches: seq<Framework>) returns (after: seq<Framework>)
    ensures |after| <= if |before| > MAX_FRAMEWORKS then |before| else MAX_FRAMEWORKS
    ensures before <= after
    ensures UpTo(after, multiset(before) + multiset(matches), MAX_FRAMEWORKS)
  {
    after := before;
    if |after| >= MAX_FRAMEWORKS {
      return;
    }
    var listed := RangeOver(matches);
    for i := 0 to |listed|
      invariant after == before + listed[..i] && |after| <= MAX_FRAMEWORKS
    {
      if |after| >= MAX_FRAMEWORKS {
        assert listed == listed[..i] + listed[i..];
        return;
      }
      assert listed[..i + 1] == listed[..i] + [listed[i]];
      after := after + [listed[i]];
    }
    assert listed[..|listed|] == listed;
  }

  lemma AllNext(classify: Classify, rs: seq<Report>, i: nat)
    requires i < |rs|
    ensures AllFrameworks(classify, rs[..i + 1]) == AllFrameworks(classify, rs[..i]) + FrameworksOf(classify(rs[i]))
    ensures AllModels(classify, rs[..i + 1]) == AllModels(classify, rs[..i]) + ModelsOf(classify(rs[i]))
  {
    assert rs[..i + 1][..i] == rs[..i];
  }

  /** A notebook with something in it comes when the limit on frameworks is already reached. */
  ghost predicate NotebookTooMany(classify: Classify, rs: seq<Report>, i: nat)
    requires i < |rs|
  {
    var content := classify(rs[i]);
    content.Notebook? && content.found != [] && |AllFrameworks(classify, rs[..i])| >= MAX_FRAMEWORKS
  }

  /** A SavedModel directory comes when the limit on models is already reached. */
  ghost predicate DirectoryTooMany(classify: Classify, rs: seq<Report>, i: nat)
    requires i < |rs|
  {
    classify(rs[i]).SavedModel? && |AllModels(classify, rs[..i])| >= MAX_MODELS
  }

  ghost predicate NoNotebookTooMany(classify: Classify, rs: seq<Report>, n: nat)
    requires n <= |rs|
  {
    forall i :: 0 <= i < n ==> !NotebookTooMany(classify, rs, i)
  }

  ghost predicate NoDirectoryTooMany(classify: Classify, rs: seq<Report>, n: nat)
    requires n <= |rs|
  {
    forall i :: 0 <= i < n ==> !DirectoryTooMany(classify, rs, i)
  }

  /** The list's length while its limit holds: everything, cut off at the limit. */
  ghost predicate CutOff(length: nat, all: nat, limit: nat) {
    length <= limit ==> length == if all <= limit then all else limit
  }

  lemma UpToCutsOff<T>(listed: seq<T>, all: multiset<T>, limit: nat)
    requires UpTo(listed, all, limit)
    ensures CutOff(|listed|, |all|, limit)
  {
    var rest := all - multiset(listed);
    assert all == multiset(listed) + rest;
    assert |all| == |multiset(listed)| + |rest| && |multiset(listed)| == |listed|;
  }

  /** The list has grown by what the content holds, up to the limit; only a notebook goes over it. */
  ghost predicate AddsFrameworks(content: Content, before: seq<Framework>, after: seq<Framework>) {
    && |after| >= |before| && UpTo(after, multiset(before) + FrameworksOf(content), MAX_FRAMEWORKS)
    && (|after| <= MAX_FRAMEWORKS <==>
        |before| <= MAX_FRAMEWORKS && !(content.Notebook? && content.found != [] && |before| == MAX_FRAMEWORKS))
  }

  /** Likewise; only a SavedModel directory goes over the limit. */
  ghost predicate AddsModels(content: Content, before: seq<Model>, after: seq<Model>) {
    && before <= after && UpTo(after, multiset(before) + ModelsOf(content), MAX_MODELS)
    && (|after| <= MAX_MODELS <==> |before| <= MAX_MODELS && !(content.SavedModel? && |before| == MAX_MODELS))
  }

  /** What scanForFrameworks does with one reported file. */
  method AddFrameworks(content: Content, before: seq<Framework>) returns (after: seq<Framework>)
    ensures AddsFrameworks(content, before, after)
  {
    match content
    case Source(matches) => after := AppendSource(before, matches);
    case Notebook(found) =>
      NotebookUpTo(before, found);
      if |before| <= MAX_FRAMEWORKS {
        NotebookLimit(before, found);
      }
      after := AppendNotebook(before, found);
    case _ => after := before;
  }

  ghost predicate FrameworksSoFar(classify: Classify, rs: seq<Report>, n: nat, listed: seq<Framework>)
    requires n <= |rs|
  {
    && UpTo(listed, AllFrameworks(classify, rs[..n]), MAX_FRAMEWORKS)
    && (|listed| <= MAX_FRAMEWORKS <==> NoNotebookTooMany(classify, rs, n))
  }

  ghost predicate ModelsSoFar(classify: Classify, rs: seq<Report>, n: nat, listed: seq<Model>)
    requires n <= |rs|
  {
    && UpTo(listed, AllModels(classify, rs[..n]), MAX_MODELS)
    && (|listed| <= MAX_MODELS <==> NoDirectoryTooMany(classify, rs, n))
  }

  lemma NoneTooManyNext(classify: Classify, rs: seq<Report>, i: nat)
    requires i < |rs|
    ensures NoNotebookTooMany(classify, rs, i + 1) <==>
            NoNotebookTooMany(classify, rs, i) && !NotebookTooMany(classify, rs, i)
    ensures NoDirectoryTooMany(classify, rs, i + 1) <==>
            NoDirectoryTooMany(classify, rs, i) && !DirectoryTooMany(classify, rs, i)
  {
  }

  lemma FrameworksNext(classify: Classify, rs: seq<Report>, i: nat, before: seq<Framework>, after: seq<Framework>)
    requires i < |rs| && FrameworksSoFar(classify, rs, i, before) && AddsFrameworks(classify(rs[i]), before, after)
    ensures FrameworksSoFar(classify, rs, i + 1, after)
  {
    var all := AllFrameworks(classify, rs[..i]);
    AllNext(classify, rs, i);
    UpToCutsOff(before, all, MAX_FRAMEWORKS);
    NoneTooManyNext(classify, rs, i);
  }

  lemma ModelsNext(classify: Classify, rs: seq<Report>, i: nat, before: seq<Model>, after: seq<Model>)
    requires i < |rs| && ModelsSoFar(classify, rs, i, before) && AddsModels(classify(rs[i]), before, after)
    ensures ModelsSoFar(classify, rs, i + 1, after)
  {
    var all := AllModels(classify, rs[..i]);
    AllNext(classify, rs, i);
    UpToCutsOff(before, all, MAX_MODELS);
    NoneTooManyNext(classify, rs, i);
  }

  lemma FrameworksAreAll(classify: Classify, rs: seq<Report>, frameworks: seq<Framework>)
    requires FrameworksSoFar(classify, rs, |rs|, frameworks)
    ensures UpTo(frameworks, AllFrameworks(classify, rs), MAX_FRAMEWORKS)
    ensures |frameworks| <= MAX_FRAMEWORKS <==> NoNotebookTooMany(classify, rs, |rs|)
  {
    assert rs[..|rs|] == rs;
  }

  lemma ModelsAreAll(classify: Classify, rs: seq<Report>, models: seq<Model>)
    requires ModelsSoFar(classify, rs, |rs|, models)
    ensures UpTo(models, AllModels(classify, rs), MAX_MODELS)
    ensures |models| <= MAX_MODELS <==> NoDirectoryTooMany(classify, rs, |rs|)
  {
    assert rs[..|rs|] == rs;
  }

  /** scanForFrameworks: reports only what is there, and all of it unless the limit is reached. The
      limit holds exactly when no notebook comes too late. */
  method ScanForFrameworks(classify: Classify, rs: seq<Report>) returns (frameworks: seq<Framework>)
    ensures UpTo(frameworks, AllFrameworks(classify, rs), MAX_FRAMEWORKS)
    ensures |frameworks| <= MAX_FRAMEWORKS <==> NoNotebookTooMany(classify, rs, |rs|)
  {
    frameworks := [];
    for i := 0 to |rs|
      invariant FrameworksSoFar(classify, rs, i, frameworks)
    {
      ghost var before := frameworks;
      frameworks := AddFrameworks(classify(rs[i]), frameworks);
      FrameworksNext(classify, rs, i, before, frameworks);
    }
    FrameworksAreAll(classify, rs, frameworks);
  }

  /** What scanForModels does with one reported file or directory. */
  method AddModels(content: Content, before: seq<Model>) returns (after: seq<Model>)
    ensures AddsModels(content, before, after)
    ensures content.SavedModel? ==> after == before + [content.model]
    ensures content.ModelFile? && |before| >= MAX_MODELS ==> after == before
  {
    after := before;
    match content
    case SavedModel(m) => after := after + [m];   // not limited here
    case ModelFile(m) =>
      if |after| < MAX_MODELS {
        after := after + [m];
      }
    case _ =>
  }

  /** scanForModels: likewise, the limit holding exactly when no SavedModel directory comes too late. */
  method ScanForModels(classify: Classify, rs: seq<Report>) returns (models: seq<Model>)
    ensures UpTo(models, AllModels(classify, rs), MAX_MODELS)
    ensures |models| <= MAX_MODELS <==> NoDirectoryTooMany(classify, rs, |rs|)
  {
    models := [];
    for i := 0 to |rs|
      invariant ModelsSoFar(classify, rs, i, models)
    {
      ghost var before := models;
      models := AddModels(classify(rs[i]), models);
      ModelsNext(classify, rs, i, before, models);
    }
    ModelsAreAll(classify, rs, models);
  }

  /** The budget covers the tree twice over, up to the last report. */
  predicate CoversTwice(lim: Limits, all: seq<Report>) {
    all == [] || !Exhausted(lim, FileCount(all) + FileCount(all[..|all| - 1]))
  }

  lemma BothWalksWhole(lim: Limits, all: seq<Report>)
    requires CoversTwice(lim, all)
    ensures Budgeted(lim, all, 0) == all && Budgeted(lim, all, FileCount(all)) == all
  {
    if all != [] {
      BothWalksComplete(lim, all);
    }
  }

  /** Detect: one walk for frameworks, one for models, on one file counter. */
  method Detect(classify: Classify, lim: Limits, root: seq<Entry>)
    returns (frameworks: seq<Framework>, models: seq<Model>)
    ensures var all := Preorder(lim, root, [], 0);
            CoversTwice(lim, all) ==>
              && (|AllFrameworks(classify, all)| <= MAX_FRAMEWORKS ==>
                    multiset(frameworks) == AllFrameworks(classify, all))
              && (|AllModels(classify, all)| <= MAX_MODELS ==> multiset(models) == AllModels(classify, all))
  {
    var first, second, scanned := WalkTwice(lim, root);
    frameworks := ScanForFrameworks(classify, first);
    models := ScanForModels(classify, second);
    ghost var all := Preorder(lim, root, [], 0);
    if CoversTwice(lim, all) {
      BothWalksWhole(lim, all);
      if |AllFrameworks(classify, all)| <= MAX_FRAMEWORKS {
        UpToIsComplete(frameworks, AllFrameworks(classify, all), MAX_FRAMEWORKS);
      }
      if |AllModels(classify, all)| <= MAX_MODELS {
        UpToIsComplete(models, AllModels(classify, all), MAX_MODELS);
      }
    }
  }
}
