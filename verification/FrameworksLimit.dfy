/** When DetectConcurrent keeps the limit on frameworks (internal/ml/detector.go). A notebook is cut to
    what is left only if something is left, as in the sequential scan. */
module FrameworksLimit {
  import opened Options
  import opened DetectorTypes
  import opened Walking
  import opened Detection
  import opened ConcurrentDetection
  import opened ModelsLimit

  // ---- A notebook that comes too late takes a run over the limit ----

  /** Worker `w` deals with a report that is a model. */
  lemma PassModel(classify: Classify, s: State, mid: State, w: nat) returns (s': State)
    requires Leads(classify, s, mid) && Quiet(mid, w) && mid.unsent != [] && HasModel(classify, mid.unsent[0])
    ensures Leads(classify, s, s') && s' == mid.(unsent := mid.unsent[1..], models := s'.models)
  {
    if |mid.models| < MAX_MODELS {
      var passed := TakeModel(classify, s, mid, w);
      s' := Add(classify, s, passed, w);
    } else {
      var handed := Hand(classify, s, mid, w);
      s' := Do(classify, s, handed, CheckModelRoom(w));
    }
    assert s'.workers == mid.workers;
  }

  lemma PassOther(classify: Classify, s: State, mid: State, w: nat) returns (s': State)
    requires Leads(classify, s, mid) && Quiet(mid, w) && mid.unsent != [] && !HasModel(classify, mid.unsent[0])
    ensures Leads(classify, s, s') && s' == mid.(unsent := mid.unsent[1..], frameworks := s'.frameworks)
    ensures Cap(|s'.frameworks|) >= Cap(|mid.frameworks| + |FrameworksOf(classify(mid.unsent[0]))|)
  {
    var handed := Hand(classify, s, mid, w);
    StartHolds(classify, mid.unsent[0]);
    s' := Finish(classify, s, handed, w);
    assert s'.workers == mid.workers;
  }

  /** Worker `w` deals with the next report. */
  lemma PassOne(classify: Classify, s: State, mid: State, w: nat) returns (s': State)
    requires Leads(classify, s, mid) && Quiet(mid, w) && mid.unsent != []
    ensures Leads(classify, s, s') && Quiet(s', w) && s'.unsent == mid.unsent[1..]
    ensures Cap(|s'.frameworks|) >= Cap(|mid.frameworks| + |FrameworksOf(classify(mid.unsent[0]))|)
  {
    if HasModel(classify, mid.unsent[0]) {
      s' := PassModel(classify, s, mid, w);
    } else {
      s' := PassOther(classify, s, mid, w);
    }
  }

  /** One worker alone deals with the first reports, and lists what there is up to the limit. */
  lemma {:induction false} PassFirst(classify: Classify, reports: seq<Report>, workerCount: nat, k: nat)
    returns (s: State)
    requires workerCount >= 1 && k <= |reports|
    ensures Leads(classify, Init(reports, workerCount), s) && Quiet(s, 0) && s.unsent == reports[k..]
    ensures Cap(|s.frameworks|) >= Cap(|AllFrameworks(classify, reports[..k])|)
  {
    var start := Init(reports, workerCount);
    if k == 0 {
      Stay(classify, start);
      s := start;
    } else {
      var before := PassFirst(classify, reports, workerCount, k - 1);
      s := PassOne(classify, start, before, 0);
      FrameworksGrow(classify, reports, k - 1);
    }
  }

  lemma FrameworksGrow(classify: Classify, reports: seq<Report>, i: nat)
    requires i < |reports|
    ensures |AllFrameworks(classify, reports[..i + 1])| ==
            |AllFrameworks(classify, reports[..i])| + |FrameworksOf(classify(reports[i]))|
  {
    AllNext(classify, reports, i);
  }

  /** A worker that finds no room left for a notebook lists all of it. */
  lemma ListNotebook(classify: Classify, s: State, mid: State, w: nat) returns (s': State)
    requires Leads(classify, s, mid) && w < |mid.workers| && mid.workers[w].ReadNotebook?
    requires mid.workers[w].found != [] && |mid.frameworks| >= MAX_FRAMEWORKS
    ensures Leads(classify, s, s') && |s'.frameworks| > MAX_FRAMEWORKS
  {
    s' := Do(classify, s, mid, CountNotebook(w));
    s' := Do(classify, s, s', AddFromNotebook(w));
  }

  lemma LateNotebookGoesOver(classify: Classify, reports: seq<Report>, workerCount: nat, i: nat) returns (s: State)
    requires workerCount >= 1 && i < |reports| && NotebookTooMany(classify, reports, i)
    ensures Leads(classify, Init(reports, workerCount), s) && |s.frameworks| > MAX_FRAMEWORKS
  {
    var start := Init(reports, workerCount);
    s := PassFirst(classify, reports, workerCount, i);
    s := Hand(classify, start, s, 0);
    s := ListNotebook(classify, start, s, 0);
  }

  // ---- With one worker nothing else does ----

  /** How far a single worker has come: it has taken the first `n` reports, and what it lists is among
      what they hold. */
  ghost predicate OneAt(classify: Classify, reports: seq<Report>, s: State, n: nat) {
    && n <= |reports| && |s.workers| == 1 && s.channel + s.unsent <= reports[n..]
    && |s.frameworks| <= MAX_FRAMEWORKS
    && WorkerAt(classify, reports, s.workers[0], |s.frameworks|, n)
  }

  ghost predicate WorkerAt(classify: Classify, reports: seq<Report>, w: Worker, listed: nat, n: nat)
    requires n <= |reports|
  {
    var all := |AllFrameworks(classify, reports[..n])|;
    match w
    case Matching(left) => listed + |left| <= all
    case Adding(_, left) => listed < MAX_FRAMEWORKS && listed + 1 + |left| <= all
    case ReadNotebook(found) =>
      n > 0 && classify(reports[n - 1]) == Notebook(found) && listed <= |AllFrameworks(classify, reports[..n - 1])|
    case AddingNotebook(rest) => listed + |rest| <= MAX_FRAMEWORKS && listed + |rest| <= all
    case _ => listed <= all
  }

  lemma CheckAt(classify: Classify, reports: seq<Report>, s: State, a: Action, s': State, n: nat)
    requires Next(classify, s, a, s') && a.CheckRoom? && a.w == 0 && OneAt(classify, reports, s, n)
    ensures |s'.workers| == 1 && WorkerAt(classify, reports, s'.workers[0], |s'.frameworks|, n)
  {
    var left := s.workers[0].left;
    assert left == left - multiset{a.f} + multiset{a.f};
  }

  function CutTo(found: seq<Framework>, listed: nat): seq<Framework> {
    if listed < MAX_FRAMEWORKS && |found| > MAX_FRAMEWORKS - listed then found[..MAX_FRAMEWORKS - listed] else found
  }

  lemma CutFits(classify: Classify, reports: seq<Report>, found: seq<Framework>, listed: nat, n: nat)
    requires 0 < n <= |reports| && classify(reports[n - 1]) == Notebook(found) && listed <= MAX_FRAMEWORKS
    requires listed <= |AllFrameworks(classify, reports[..n - 1])| && !NotebookTooMany(classify, reports, n - 1)
    ensures listed + |CutTo(found, listed)| <= MAX_FRAMEWORKS
    ensures listed + |CutTo(found, listed)| <= |AllFrameworks(classify, reports[..n])|
  {
    FrameworksGrow(classify, reports, n - 1);
    assert |FrameworksOf(classify(reports[n - 1]))| == |found|;
  }

  lemma CountsNotebook(classify: Classify, s: State, a: Action, s': State)
    requires Next(classify, s, a, s') && a.CountNotebook? && a.w == 0 && |s.workers| == 1
    ensures s'.workers == [AddingNotebook(CutTo(s.workers[0].found, |s.frameworks|))]
    ensures s'.frameworks == s.frameworks
  {
  }

  lemma NotebookAt(classify: Classify, reports: seq<Report>, s: State, a: Action, s': State, n: nat)
    requires Next(classify, s, a, s') && a.CountNotebook? && a.w == 0
    requires OneAt(classify, reports, s, n) && NoNotebookTooMany(classify, reports, |reports|)
    ensures |s'.workers| == 1 && WorkerAt(classify, reports, s'.workers[0], |s'.frameworks|, n)
  {
    assert !NotebookTooMany(classify, reports, n - 1);
    CountsNotebook(classify, s, a, s');
    CutFits(classify, reports, s.workers[0].found, |s.frameworks|, n);
  }

  /** The worker's own steps. */
  lemma WorkerAtStep(classify: Classify, reports: seq<Report>, s: State, a: Action, s': State, n: nat)
    requires Next(classify, s, a, s') && ByWorker(a) && !a.Take? && !a.Quit? && a.w == 0
    requires OneAt(classify, reports, s, n) && NoNotebookTooMany(classify, reports, |reports|)
    requires |s'.workers| == 1
    ensures |s'.frameworks| <= MAX_FRAMEWORKS && WorkerAt(classify, reports, s'.workers[0], |s'.frameworks|, n)
  {
    if a.CountNotebook? {
      NotebookAt(classify, reports, s, a, s', n);
    } else if a.CheckRoom? {
      CheckAt(classify, reports, s, a, s', n);
    }
  }

  lemma TakesNext(classify: Classify, reports: seq<Report>, s: State, n: nat)
    requires OneAt(classify, reports, s, n) && s.channel != []
    ensures n < |reports| && s.channel[0] == reports[n] && s.channel[1..] + s.unsent <= reports[n + 1..]
  {
    var rest := s.channel + s.unsent;
    assert rest[0] == s.channel[0] && rest[1..] == s.channel[1..] + s.unsent;
    assert reports[n..][0] == reports[n] && reports[n..][1..] == reports[n + 1..];
  }

  lemma OneTakes(classify: Classify, reports: seq<Report>, s: State, s': State, n: nat)
    requires Next(classify, s, Take(0), s') && OneAt(classify, reports, s, n)
    ensures OneAt(classify, reports, s', n + 1)
  {
    TakesNext(classify, reports, s, n);
    FrameworksGrow(classify, reports, n);
    StartHolds(classify, reports[n]);
  }

  lemma OneQuits(classify: Classify, reports: seq<Report>, s: State, s': State, n: nat)
    requires Next(classify, s, Quit(0), s') && OneAt(classify, reports, s, n)
    ensures OneAt(classify, reports, s', n + 1)
  {
    TakesNext(classify, reports, s, n);
    FrameworksGrow(classify, reports, n);
  }

  lemma OneWalks(classify: Classify, reports: seq<Report>, s: State, a: Action, s': State, n: nat)
    requires Next(classify, s, a, s') && !ByWorker(a) && OneAt(classify, reports, s, n)
    ensures OneAt(classify, reports, s', n)
  {
    if a.Send? {
      assert s'.channel + s'.unsent == s.channel + s.unsent;
    } else if a.StopWalk? {
      assert s'.channel + s'.unsent == s.channel;
    }
  }

  lemma OneStep(classify: Classify, reports: seq<Report>, s: State, a: Action, s': State, n: nat) returns (m: nat)
    requires Next(classify, s, a, s')
    requires OneAt(classify, reports, s, n) && NoNotebookTooMany(classify, reports, |reports|)
    ensures OneAt(classify, reports, s', m)
  {
    m := n;
    if !ByWorker(a) {
      OneWalks(classify, reports, s, a, s', n);
    } else if a.Take? {
      OneTakes(classify, reports, s, s', n);
      m := n + 1;
    } else if a.Quit? {
      OneQuits(classify, reports, s, s', n);
      m := n + 1;
    } else {
      WorkerStepOnly(classify, s, a, s');
      WorkerAtStep(classify, reports, s, a, s', n);
    }
  }

  lemma WorkerStepOnly(classify: Classify, s: State, a: Action, s': State)
    requires Next(classify, s, a, s') && ByWorker(a) && !a.Take? && !a.Quit?
    ensures a.w < |s.workers| == |s'.workers| && s'.unsent == s.unsent && s'.channel == s.channel
  {
  }

  lemma {:induction false} OneAlong(classify: Classify, reports: seq<Report>, tr: seq<State>, i: nat) returns (n: nat)
    requires IsRun(classify, reports, 1, tr) && i < |tr| && NoNotebookTooMany(classify, reports, |reports|)
    ensures OneAt(classify, reports, tr[i], n)
  {
    if i == 0 {
      n := 0;
      assert reports[0..] == reports;
    } else {
      var before := OneAlong(classify, reports, tr, i - 1);
      assert StepAt(classify, tr, i - 1);
      var a :| Next(classify, tr[i - 1], a, tr[i]);
      n := OneStep(classify, reports, tr[i - 1], a, tr[i], before);
    }
  }

  /** No state of any run on these reports lists more frameworks than the limit. */
  ghost predicate KeepsFrameworkLimit(classify: Classify, reports: seq<Report>, workerCount: nat) {
    forall tr: seq<State>, i ::
      IsRun(classify, reports, workerCount, tr) && 0 <= i < |tr| ==> |tr[i].frameworks| <= MAX_FRAMEWORKS
  }

  /** Whatever the number of workers, the limit needs that no notebook comes too late. */
  lemma LimitNeedsRoom(classify: Classify, reports: seq<Report>, workerCount: nat)
    requires workerCount >= 1 && KeepsFrameworkLimit(classify, reports, workerCount)
    ensures NoNotebookTooMany(classify, reports, |reports|)
  {
    forall i | 0 <= i < |reports|
      ensures !NotebookTooMany(classify, reports, i)
    {
      if NotebookTooMany(classify, reports, i) {
        var s := LateNotebookGoesOver(classify, reports, workerCount, i);
        var tr :| LeadsBy(classify, Init(reports, workerCount), tr, s);
        assert IsRun(classify, reports, workerCount, tr);
      }
    }
  }

  /** A single worker keeps the limit exactly when the sequential scan does. */
  lemma OneWorkerExactly(classify: Classify, reports: seq<Report>)
    ensures KeepsFrameworkLimit(classify, reports, 1) <==> NoNotebookTooMany(classify, reports, |reports|)
  {
    if NoNotebookTooMany(classify, reports, |reports|) {
      forall tr: seq<State>, i | IsRun(classify, reports, 1, tr) && 0 <= i < |tr|
        ensures |tr[i].frameworks| <= MAX_FRAMEWORKS
      {
        var n := OneAlong(classify, reports, tr, i);
      }
    } else if KeepsFrameworkLimit(classify, reports, 1) {
      LimitNeedsRoom(classify, reports, 1);
    }
  }

  // ---- No run lists more frameworks than there are ----

  lemma CheckDrops(classify: Classify, s: State, a: Action, s': State)
    requires Next(classify, s, a, s') && a.CheckRoom? && a.w < |s'.workers|
    ensures FrameworksHeld(s'.workers[a.w]) <= FrameworksHeld(s.workers[a.w])
  {
    var left := s.workers[a.w].left;
    assert left == left - multiset{a.f} + multiset{a.f};
  }

  lemma FrontIsPart<T>(all: seq<T>, n: nat)
    requires n <= |all|
    ensures multiset(all[..n]) <= multiset(all)
  {
    assert all == all[..n] + all[n..];
  }

  lemma NotebookDrops(classify: Classify, s: State, a: Action, s': State)
    requires Next(classify, s, a, s') && a.CountNotebook? && a.w < |s'.workers|
    ensures FrameworksHeld(s'.workers[a.w]) <= FrameworksHeld(s.workers[a.w])
  {
    var found, remaining := s.workers[a.w].found, MAX_FRAMEWORKS - |s.frameworks|;
    if 0 < remaining < |found| {
      FrontIsPart(found, remaining);
    }
  }

  /** What a worker's own step does to the frameworks, where it may drop some. */
  lemma WorkerDrops(classify: Classify, s: State, a: Action, s': State)
    requires Next(classify, s, a, s') && ByWorker(a) && !a.Take? && !a.AddFramework? && !a.AddFromNotebook?
    requires a.w < |s.workers| == |s'.workers|
    ensures s'.frameworks == s.frameworks
    ensures FrameworksHeld(s'.workers[a.w]) <= FrameworksHeld(s.workers[a.w])
  {
    if a.CheckRoom? {
      CheckDrops(classify, s, a, s');
    } else if a.CountNotebook? {
      NotebookDrops(classify, s, a, s');
    }
  }

  lemma WorkerFrameworks(classify: Classify, s: State, a: Action, s': State, f: Framework)
    requires Next(classify, s, a, s') && ByWorker(a) && !a.Take?
    requires a.w < |s.workers| == |s'.workers|
    ensures Count(multiset(s'.frameworks), Some(f)) + Count(FrameworksHeld(s'.workers[a.w]), Some(f))
         <= Count(multiset(s.frameworks), Some(f)) + Count(FrameworksHeld(s.workers[a.w]), Some(f))
  {
    if a.AddFramework? {
      AddFrameworkKeeps(classify, s, a, s', Some(f), None);
    } else if a.AddFromNotebook? {
      AddFromNotebookKeeps(classify, s, a, s', Some(f), None);
    } else {
      WorkerDrops(classify, s, a, s');
    }
  }

  /** Copies of a framework listed, held by workers, waiting in the channel or not yet walked never
      become more. */
  lemma FrameworksNeverGrow(classify: Classify, s: State, a: Action, s': State, f: Framework)
    requires Next(classify, s, a, s')
    ensures FrameworkCount(classify, s', Some(f)) <= FrameworkCount(classify, s, Some(f))
  {
    match a
    case Cancel =>
    case StopWalk =>
    case Close =>
    case Send => SendConserves(classify, s, s', Some(f), None);
    case Take(w) => TakeConserves(classify, s, w, s', Some(f), None);
    case _ =>
      WorkerFrameworks(classify, s, a, s', f);
      WorkerCounts(s.workers, s'.workers, a.w, Some(f), None);
      if a.Quit? {
        ChannelHead(classify, s.channel, Some(f), None);
      }
  }

  lemma StepFrameworks(classify: Classify, s: State, s': State, f: Framework)
    requires Step(classify, s, s')
    ensures FrameworkCount(classify, s', Some(f)) <= FrameworkCount(classify, s, Some(f))
  {
    var a :| Next(classify, s, a, s');
    FrameworksNeverGrow(classify, s, a, s', f);
  }

  lemma NoMoreCopies(classify: Classify, reports: seq<Report>, workerCount: nat, tr: seq<State>, i: nat, f: Framework)
    requires IsRun(classify, reports, workerCount, tr) && i < |tr|
    ensures multiset(tr[i].frameworks)[f] <= AllFrameworks(classify, reports)[f]
  {
    forall s, s' | Step(classify, s, s')
      ensures FrameworkCount(classify, s', Some(f)) <= FrameworkCount(classify, s, Some(f))
    {
      StepFrameworks(classify, s, s', f);
    }
    FallsAlong(classify, tr, i, s => FrameworkCount(classify, s, Some(f)));
    InitCounts(classify, reports, workerCount, Some(f), None);
  }

  /** Every run lists only frameworks that are there, each no more often than it is there. */
  lemma OnlyWhatIsThere(classify: Classify, reports: seq<Report>, workerCount: nat, tr: seq<State>, i: nat)
    requires IsRun(classify, reports, workerCount, tr) && i < |tr|
    ensures multiset(tr[i].frameworks) <= AllFrameworks(classify, reports)
    ensures |tr[i].frameworks| <= |AllFrameworks(classify, reports)|
  {
    forall f
      ensures multiset(tr[i].frameworks)[f] <= AllFrameworks(classify, reports)[f]
    {
      NoMoreCopies(classify, reports, workerCount, tr, i, f);
    }
    SubBagSize(multiset(tr[i].frameworks), AllFrameworks(classify, reports));
    assert |multiset(tr[i].frameworks)| == |tr[i].frameworks|;
  }

  lemma SubBagSize<T>(a: multiset<T>, b: multiset<T>)
    requires a <= b
    ensures |a| <= |b|
  {
    assert b == a + (b - a);
  }
}
