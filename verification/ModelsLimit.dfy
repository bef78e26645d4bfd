/** When DetectConcurrent keeps the limit on models (internal/ml/detector.go). A worker looks at the
    length of the list before it appends, under separate acquisitions of the lock. */
module ModelsLimit {
  import opened Options
  import opened DetectorTypes
  import opened Walking
  import opened Detection
  import opened ConcurrentDetection
  import opened DetectionLiveness

  // ---- No run lists more models than there are ----

  /** What a worker's own step does to the models it holds, but for listing one. */
  lemma WorkerHolds(classify: Classify, s: State, a: Action, s': State)
    requires Next(classify, s, a, s') && ByWorker(a) && !a.Take? && !a.AddModel?
    requires a.w < |s.workers| == |s'.workers|
    ensures s'.models == s.models
    ensures ModelsHeld(s'.workers[a.w]) == ModelsHeld(s.workers[a.w]) || ModelsHeld(s'.workers[a.w]) == multiset{}
  {
  }

  lemma WorkerModels(classify: Classify, s: State, a: Action, s': State, km: Option<Model>)
    requires Next(classify, s, a, s') && ByWorker(a) && !a.Take?
    requires a.w < |s.workers| == |s'.workers|
    ensures Count(multiset(s'.models), km) + Count(ModelsHeld(s'.workers[a.w]), km)
         <= Count(multiset(s.models), km) + Count(ModelsHeld(s.workers[a.w]), km)
  {
    if a.AddModel? {
      AddModelKeeps(classify, s, a, s', None, km);
    } else {
      WorkerHolds(classify, s, a, s');
    }
  }

  /** Models listed, held by workers, waiting in the channel or not yet walked never become more. */
  lemma ModelsNeverGrow(classify: Classify, s: State, a: Action, s': State, km: Option<Model>)
    requires Next(classify, s, a, s')
    ensures ModelCount(classify, s', km) <= ModelCount(classify, s, km)
  {
    match a
    case Cancel =>
    case StopWalk =>
    case Close =>
    case Send => SendConserves(classify, s, s', None, km);
    case Take(w) => TakeConserves(classify, s, w, s', None, km);
    case _ =>
      WorkerModels(classify, s, a, s', km);
      WorkerCounts(s.workers, s'.workers, a.w, None, km);
      if a.Quit? {
        ChannelHead(classify, s.channel, None, km);
      }
  }

  lemma StepNeverGrows(classify: Classify, s: State, s': State, km: Option<Model>)
    requires Step(classify, s, s')
    ensures ModelCount(classify, s', km) <= ModelCount(classify, s, km)
  {
    var a :| Next(classify, s, a, s');
    ModelsNeverGrow(classify, s, a, s', km);
  }

  lemma {:induction false} FallsAlong(classify: Classify, tr: seq<State>, i: nat, measure: State -> nat)
    requires StepsThrough(classify, tr) && i < |tr|
    requires forall s, s' :: Step(classify, s, s') ==> measure(s') <= measure(s)
    ensures measure(tr[i]) <= measure(tr[0])
  {
    if i > 0 {
      FallsAlong(classify, tr, i - 1, measure);
      assert StepAt(classify, tr, i - 1);
    }
  }

  lemma NeverGrowsAlong(classify: Classify, tr: seq<State>, i: nat, km: Option<Model>)
    requires StepsThrough(classify, tr) && i < |tr|
    ensures ModelCount(classify, tr[i], km) <= ModelCount(classify, tr[0], km)
  {
    forall s, s' | Step(classify, s, s')
      ensures ModelCount(classify, s', km) <= ModelCount(classify, s, km)
    {
      StepNeverGrows(classify, s, s', km);
    }
    FallsAlong(classify, tr, i, s => ModelCount(classify, s, km));
  }

  /** No state of any run lists more models than there are. */
  lemma NoMoreThanThereAre(classify: Classify, reports: seq<Report>, workerCount: nat, tr: seq<State>, i: nat)
    requires IsRun(classify, reports, workerCount, tr) && i < |tr|
    ensures |tr[i].models| <= |AllModels(classify, reports)|
  {
    NeverGrowsAlong(classify, tr, i, None);
    InitCounts(classify, reports, workerCount, None, None);
  }

  // ---- Two workers can go over the limit ----

  ghost predicate LeadsBy(classify: Classify, s: State, tr: seq<State>, s': State) {
    StepsThrough(classify, tr) && tr[0] == s && tr[|tr| - 1] == s'
  }

  /** Some steps lead from one state to the other. */
  ghost predicate Leads(classify: Classify, s: State, s': State) {
    exists tr :: LeadsBy(classify, s, tr, s')
  }

  lemma Stay(classify: Classify, s: State)
    ensures Leads(classify, s, s)
  {
    assert LeadsBy(classify, s, [s], s);
  }

  lemma Then(classify: Classify, s: State, mid: State, s': State)
    requires Leads(classify, s, mid) && Leads(classify, mid, s')
    ensures Leads(classify, s, s')
  {
    var first :| LeadsBy(classify, s, first, mid);
    var second :| LeadsBy(classify, mid, second, s');
    var n, tr := |first| - 1, first + second[1..];
    forall i | 0 <= i < |tr| - 1
      ensures StepAt(classify, tr, i)
    {
      if i < n {
        assert StepAt(classify, first, i);
      } else {
        assert StepAt(classify, second, i - n);
        assert tr[i] == second[i - n] && tr[i + 1] == second[i - n + 1];
      }
    }
    assert LeadsBy(classify, s, tr, s');
  }

  /** Goes on from `mid` by one action. */
  lemma Do(classify: Classify, s: State, mid: State, a: Action) returns (s': State)
    requires Leads(classify, s, mid) && Enabled(mid, a)
    ensures Leads(classify, s, s') && Next(classify, mid, a, s')
  {
    s' := Apply(classify, mid, a);
    assert Next(classify, mid, a, s');
    assert StepAt(classify, [mid, s'], 0);
    assert LeadsBy(classify, mid, [mid, s'], s');
    Then(classify, s, mid, s');
  }

  predicate HandlesNoModel(w: Worker) {
    w.Idle? || w.Matching? || w.Adding? || w.ReadNotebook? || w.AddingNotebook?
  }

  function NextAction(w: nat, worker: Worker): (a: Action)
    requires HandlesNoModel(worker) && !worker.Idle? && (worker.Matching? ==> worker.left == multiset{})
  {
    match worker
    case Matching(_) => EndMatching(w)
    case Adding(_, _) => AddFramework(w)
    case ReadNotebook(_) => CountNotebook(w)
    case AddingNotebook(rest) => if rest == [] then EndNotebook(w) else AddFromNotebook(w)
  }

  function Cap(n: nat): nat {
    if n <= MAX_FRAMEWORKS then n else MAX_FRAMEWORKS
  }

  /** Frameworks listed and held by worker `w`, counted up to the limit, do not become fewer. */
  ghost predicate CapKept(s: State, s': State, w: nat)
    requires w < |s.workers| && w < |s'.workers|
  {
    Cap(|s'.frameworks| + |FrameworksHeld(s'.workers[w])|) >= Cap(|s.frameworks| + |FrameworksHeld(s.workers[w])|)
  }

  lemma CheckCaps(classify: Classify, s: State, a: Action, s': State)
    requires Next(classify, s, a, s') && a.CheckRoom? && a.w < |s'.workers|
    ensures CapKept(s, s', a.w)
  {
    var left := s.workers[a.w].left;
    assert left == left - multiset{a.f} + multiset{a.f};
  }

  lemma WorkerCaps(classify: Classify, s: State, a: Action, s': State)
    requires Next(classify, s, a, s') && ByWorker(a) && !a.Take? && !a.Quit?
    requires a.w < |s.workers| && a.w < |s'.workers| && HandlesNoModel(s.workers[a.w])
    ensures CapKept(s, s', a.w)
  {
    if a.CheckRoom? {
      CheckCaps(classify, s, a, s');
    }
  }

  /** A step of a worker on a file that is not a model. */
  lemma FinishStep(classify: Classify, s: State, mid: State, w: nat) returns (s': State)
    requires Leads(classify, s, mid) && w < |mid.workers| && HandlesNoModel(mid.workers[w]) && !mid.workers[w].Idle?
    ensures Leads(classify, s, s') && w < |s'.workers| && HandlesNoModel(s'.workers[w])
    ensures WorkerWeight(s'.workers[w]) < WorkerWeight(mid.workers[w]) && CapKept(mid, s', w)
    ensures s' == mid.(workers := mid.workers[w := s'.workers[w]], frameworks := s'.frameworks)
  {
    var worker, a := mid.workers[w], Close;
    if worker.Matching? && worker.left != multiset{} {
      var f :| f in worker.left;
      a := CheckRoom(w, f);
    } else {
      a := NextAction(w, worker);
    }
    s' := Do(classify, s, mid, a);
    WorkerStepWeight(classify, mid, a, s');
    WorkerCaps(classify, mid, a, s');
  }

  /** A worker can finish a file that is not a model, whatever room there is for frameworks. */
  lemma {:induction false} Finish(classify: Classify, s: State, mid: State, w: nat) returns (s': State)
    requires Leads(classify, s, mid) && w < |mid.workers| && HandlesNoModel(mid.workers[w])
    ensures Leads(classify, s, s')
    ensures s' == mid.(workers := mid.workers[w := Idle], frameworks := s'.frameworks) && CapKept(mid, s', w)
    decreases WorkerWeight(mid.workers[w])
  {
    if mid.workers[w].Idle? {
      assert mid.workers == mid.workers[w := Idle];
      s' := mid;
    } else {
      var next := FinishStep(classify, s, mid, w);
      s' := Finish(classify, s, next, w);
      assert next.workers[w := Idle] == mid.workers[w := Idle];
    }
  }

  ghost predicate Quiet(s: State, w: nat) {
    !s.ctxDone && s.channel == [] && w < |s.workers| && s.workers[w].Idle?
  }

  /** The walk's next report goes straight to worker `w`. */
  lemma Hand(classify: Classify, s: State, mid: State, w: nat) returns (s': State)
    requires Leads(classify, s, mid) && Quiet(mid, w) && mid.unsent != []
    ensures Leads(classify, s, s')
    ensures s' == mid.(unsent := mid.unsent[1..], workers := mid.workers[w := Start(classify(mid.unsent[0]))])
  {
    s' := Do(classify, s, mid, Send);
    s' := Do(classify, s, s', Take(w));
    assert s'.channel == [];
  }

  predicate HasModel(classify: Classify, r: Report) {
    classify(r).ModelFile? || classify(r).SavedModel?
  }

  lemma HeadModels(classify: Classify, rs: seq<Report>)
    requires rs != []
    ensures |AllModels(classify, rs)| == (if HasModel(classify, rs[0]) then 1 else 0) + |AllModels(classify, rs[1..])|
  {
    ChannelHead(classify, rs, None, None);
    StartHolds(classify, rs[0]);
  }

  /** Worker `w` deals with a report that is not a model. */
  lemma SkipOne(classify: Classify, s: State, mid: State, w: nat) returns (s': State)
    requires Leads(classify, s, mid) && Quiet(mid, w) && mid.unsent != [] && !HasModel(classify, mid.unsent[0])
    ensures Leads(classify, s, s') && s' == mid.(unsent := mid.unsent[1..], frameworks := s'.frameworks)
    ensures |AllModels(classify, s'.unsent)| == |AllModels(classify, mid.unsent)|
  {
    HeadModels(classify, mid.unsent);
    var handed := Hand(classify, s, mid, w);
    s' := Finish(classify, s, handed, w);
    assert s'.workers == mid.workers;
  }

  /** Nothing differs but what is unsent and the lists; `n` models fewer are unsent. */
  ghost predicate Sent(classify: Classify, s: State, s': State, n: nat) {
    && s' == s.(unsent := s'.unsent, frameworks := s'.frameworks, models := s'.models)
    && |AllModels(classify, s'.unsent)| + n == |AllModels(classify, s.unsent)|
  }

  /** Skips to the next model in the walk. */
  lemma {:induction false} SkipToModel(classify: Classify, s: State, mid: State, w: nat) returns (s': State)
    requires Leads(classify, s, mid) && Quiet(mid, w) && |AllModels(classify, mid.unsent)| >= 1
    ensures Leads(classify, s, s') && Sent(classify, mid, s', 0) && s'.models == mid.models
    ensures s'.unsent != [] && HasModel(classify, s'.unsent[0])
    decreases |mid.unsent|
  {
    assert mid.unsent != [];
    if HasModel(classify, mid.unsent[0]) {
      s' := mid;
    } else {
      var next := SkipOne(classify, s, mid, w);
      s' := SkipToModel(classify, s, next, w);
    }
  }

  lemma FindRoom(classify: Classify, s: State, mid: State, w: nat) returns (s': State)
    requires Leads(classify, s, mid) && w < |mid.workers| && mid.workers[w].CheckingModel? && |mid.models| < MAX_MODELS
    ensures Leads(classify, s, s') && w < |s'.workers| && s'.workers[w].AddingModel?
    ensures s' == mid.(workers := mid.workers[w := s'.workers[w]])
  {
    s' := Do(classify, s, mid, CheckModelRoom(w));
  }

  /** Worker `w` takes the model that comes next and finds room for it. */
  lemma TakeModel(classify: Classify, s: State, mid: State, w: nat) returns (s': State)
    requires Leads(classify, s, mid) && Quiet(mid, w) && mid.unsent != [] && HasModel(classify, mid.unsent[0])
    requires |mid.models| < MAX_MODELS
    ensures Leads(classify, s, s') && w < |s'.workers| && s'.workers[w].AddingModel?
    ensures s' == mid.(unsent := mid.unsent[1..], workers := mid.workers[w := s'.workers[w]])
  {
    var handed := Hand(classify, s, mid, w);
    s' := FindRoom(classify, s, handed, w);
    assert s'.workers == mid.workers[w := s'.workers[w]];
  }

  /** Worker `w` finds room for the next model and is about to list it. */
  lemma PassCheck(classify: Classify, s: State, mid: State, w: nat) returns (s': State)
    requires Leads(classify, s, mid) && Quiet(mid, w) && |AllModels(classify, mid.unsent)| >= 1
    requires |mid.models| < MAX_MODELS
    ensures Leads(classify, s, s') && w < |s'.workers| && s'.workers[w].AddingModel?
    ensures Sent(classify, mid, s'.(workers := mid.workers), 1) && s'.workers == mid.workers[w := s'.workers[w]]
    ensures s'.models == mid.models
  {
    var found := SkipToModel(classify, s, mid, w);
    HeadModels(classify, found.unsent);
    s' := TakeModel(classify, s, found, w);
  }

  lemma Add(classify: Classify, s: State, mid: State, w: nat) returns (s': State)
    requires Leads(classify, s, mid) && w < |mid.workers| && mid.workers[w].AddingModel?
    ensures Leads(classify, s, s') && |s'.models| == |mid.models| + 1
    ensures s' == mid.(workers := mid.workers[w := Idle], models := s'.models)
  {
    s' := Do(classify, s, mid, AddModel(w));
  }

  /** Worker `w` lists the next model. */
  lemma ListOne(classify: Classify, s: State, mid: State, w: nat) returns (s': State)
    requires Leads(classify, s, mid) && Quiet(mid, w) && |AllModels(classify, mid.unsent)| >= 1
    requires |mid.models| < MAX_MODELS
    ensures Leads(classify, s, s') && Sent(classify, mid, s', 1) && |s'.models| == |mid.models| + 1
  {
    var passed := PassCheck(classify, s, mid, w);
    s' := Add(classify, s, passed, w);
    assert s'.workers == mid.workers;
  }

  /** Lists models one after another up to a length. */
  lemma {:induction false} FillTo(classify: Classify, s: State, mid: State, w: nat, target: nat) returns (s': State)
    requires Leads(classify, s, mid) && Quiet(mid, w) && |mid.models| <= target <= MAX_MODELS
    requires |mid.models| + |AllModels(classify, mid.unsent)| >= target
    ensures Leads(classify, s, s') && |s'.models| == target
    ensures Sent(classify, mid, s', target - |mid.models|)
    decreases target - |mid.models|
  {
    if |mid.models| == target {
      s' := mid;
    } else {
      var next := ListOne(classify, s, mid, w);
      s' := FillTo(classify, s, next, w, target);
    }
  }

  /** Both workers find room for one more model. */
  lemma TwoGoOver(classify: Classify, s: State) returns (s': State)
    requires Quiet(s, 0) && Quiet(s, 1) && s.models == [] && |AllModels(classify, s.unsent)| > MAX_MODELS
    ensures Leads(classify, s, s') && |s'.models| == MAX_MODELS + 1
  {
    Stay(classify, s);
    var filled := FillTo(classify, s, s, 0, MAX_MODELS - 1);
    var one := PassCheck(classify, s, filled, 0);
    var both := PassCheck(classify, s, one, 1);
    s' := Add(classify, s, both, 0);
    s' := Add(classify, s, s', 1);
  }

  /** No state of any run on these reports lists more models than the limit. */
  ghost predicate KeepsLimit(classify: Classify, reports: seq<Report>, workerCount: nat) {
    forall tr: seq<State>, i ::
      IsRun(classify, reports, workerCount, tr) && 0 <= i < |tr| ==> |tr[i].models| <= MAX_MODELS
  }

  /** The limit is kept exactly with a single worker, or when there are no more models than it. */
  lemma LimitKeptExactly(classify: Classify, reports: seq<Report>, workerCount: nat)
    requires workerCount >= 1
    ensures KeepsLimit(classify, reports, workerCount) <==>
            workerCount == 1 || |AllModels(classify, reports)| <= MAX_MODELS
  {
    if workerCount == 1 || |AllModels(classify, reports)| <= MAX_MODELS {
      forall tr: seq<State>, i | IsRun(classify, reports, workerCount, tr) && 0 <= i < |tr|
        ensures |tr[i].models| <= MAX_MODELS
      {
        ModelsNeverFarOver(classify, reports, workerCount, tr, i);
        NoMoreThanThereAre(classify, reports, workerCount, tr, i);
      }
    } else {
      var s := TwoGoOver(classify, Init(reports, workerCount));
      var tr :| LeadsBy(classify, Init(reports, workerCount), tr, s);
      assert IsRun(classify, reports, workerCount, tr);
    }
  }
}
