/** DetectConcurrent and its workers (internal/ml/detector.go) as a state machine: the walk
    streams reports into a bounded channel, the workers take them and append what they find.
    Each append and each length check is a step of its own, as each takes the lock by itself. */
module ConcurrentDetection {
  import opened Options
  import opened DetectorTypes
  import opened Walking
  import opened Detection

  const CHANNEL_CAPACITY := 1000

  datatype Worker =
    | Idle
    | Matching(left: multiset<Framework>)                    // in the pattern loop: matches not tried yet
    | Adding(next: Framework, left: multiset<Framework>)     // passed the length check for `next`
    | ReadNotebook(found: seq<Framework>)
    | AddingNotebook(rest: seq<Framework>)
    | CheckingModel(model: Model)
    | AddingModel(model: Model)                              // saw room for it
    | Exited

  datatype State = State(
    unsent: seq<Report>,       // what the walk still has to report
    channel: seq<Report>,
    closed: bool,
    ctxDone: bool,
    workers: seq<Worker>,
    frameworks: seq<Framework>,
    models: seq<Model>)

  datatype Action =
    | Cancel
    | StopWalk
    | Send
    | Close
    | Take(w: nat)
    | Quit(w: nat)
    | Leave(w: nat)
    | CheckRoom(w: nat, f: Framework)
    | GiveUp(w: nat)
    | EndMatching(w: nat)
    | AddFramework(w: nat)
    | CountNotebook(w: nat)
    | AddFromNotebook(w: nat)
    | EndNotebook(w: nat)
    | CheckModelRoom(w: nat)
    | AddModel(w: nat)

  function Start(c: Content): Worker {
    match c
    case Source(matches) => Matching(multiset(matches))
    case Notebook(found) => ReadNotebook(found)
    case ModelFile(m) => CheckingModel(m)
    case SavedModel(m) => CheckingModel(m)
    case _ => Idle
  }

  ghost predicate Enabled(s: State, a: Action) {
    match a
    case Cancel => !s.ctxDone
    case StopWalk => s.ctxDone && s.unsent != []
    case Send => s.unsent != [] && |s.channel| < CHANNEL_CAPACITY
    case Close => s.unsent == [] && !s.closed
    case Take(w) => w < |s.workers| && s.workers[w].Idle? && s.channel != [] && !s.ctxDone
    case Quit(w) => w < |s.workers| && s.workers[w].Idle? && s.channel != [] && s.ctxDone
    case Leave(w) => w < |s.workers| && s.workers[w].Idle? && s.channel == [] && s.closed
    case CheckRoom(w, f) => w < |s.workers| && s.workers[w].Matching? && f in s.workers[w].left
    case GiveUp(w) => w < |s.workers| && s.workers[w].Matching? && |s.frameworks| >= MAX_FRAMEWORKS
    case EndMatching(w) => w < |s.workers| && s.workers[w].Matching? && s.workers[w].left == multiset{}
    case AddFramework(w) => w < |s.workers| && s.workers[w].Adding?
    case CountNotebook(w) => w < |s.workers| && s.workers[w].ReadNotebook?
    case AddFromNotebook(w) => w < |s.workers| && s.workers[w].AddingNotebook? && s.workers[w].rest != []
    case EndNotebook(w) => w < |s.workers| && s.workers[w].AddingNotebook? && s.workers[w].rest == []
    case CheckModelRoom(w) => w < |s.workers| && s.workers[w].CheckingModel?
    case AddModel(w) => w < |s.workers| && s.workers[w].AddingModel?
  }

  ghost function Put(s: State, w: nat, worker: Worker): State
    requires w < |s.workers|
  {
    s.(workers := s.workers[w := worker])
  }

  ghost function Apply(classify: Classify, s: State, a: Action): State
    requires Enabled(s, a)
  {
    match a
    case Cancel => s.(ctxDone := true)
    case StopWalk => s.(unsent := [])
    case Send => s.(unsent := s.unsent[1..], channel := s.channel + [s.unsent[0]])
    case Close => s.(closed := true)
    case Take(w) => Put(s, w, Start(classify(s.channel[0]))).(channel := s.channel[1..])
    case Quit(w) => Put(s, w, Exited).(channel := s.channel[1..])
    case Leave(w) => Put(s, w, Exited)
    case CheckRoom(w, f) =>
      if |s.frameworks| >= MAX_FRAMEWORKS then Put(s, w, Idle)
      else Put(s, w, Adding(f, s.workers[w].left - multiset{f}))
    case GiveUp(w) => Put(s, w, Idle)
    case EndMatching(w) => Put(s, w, Idle)
    case AddFramework(w) =>
      Put(s, w, Matching(s.workers[w].left)).(frameworks := s.frameworks + [s.workers[w].next])
    case CountNotebook(w) =>
      var found, remaining := s.workers[w].found, MAX_FRAMEWORKS - |s.frameworks|;
      Put(s, w, AddingNotebook(if remaining > 0 && |found| > remaining then found[..remaining] else found))
    case AddFromNotebook(w) =>
      var rest := s.workers[w].rest;
      Put(s, w, AddingNotebook(rest[1..])).(frameworks := s.frameworks + [rest[0]])
    case EndNotebook(w) => Put(s, w, Idle)
    case CheckModelRoom(w) =>
      Put(s, w, if |s.models| < MAX_MODELS then AddingModel(s.workers[w].model) else Idle)
    case AddModel(w) => Put(s, w, Idle).(models := s.models + [s.workers[w].model])
  }

  ghost predicate Next(classify: Classify, s: State, a: Action, s': State) {
    Enabled(s, a) && s' == Apply(classify, s, a)
  }

  ghost predicate Step(classify: Classify, s: State, s': State) {
    exists a :: Next(classify, s, a, s')
  }

  ghost predicate StepAt(classify: Classify, tr: seq<State>, i: nat)
    requires i < |tr| - 1
  {
    Step(classify, tr[i], tr[i + 1])
  }

  ghost function Init(reports: seq<Report>, workerCount: nat): State {
    State(reports, [], false, false, seq(workerCount, _ => Idle), [], [])
  }

  /** `tr` is a run on these reports, possibly unfinished. A worker count of zero or less is
      replaced by four before the run starts. */
  ghost predicate IsRun(classify: Classify, reports: seq<Report>, workerCount: nat, tr: seq<State>) {
    && workerCount >= 1 && tr != [] && tr[0] == Init(reports, workerCount)
    && forall i :: 0 <= i < |tr| - 1 ==> StepAt(classify, tr, i)
  }

  ghost predicate Finished(s: State) {
    forall w :: 0 <= w < |s.workers| ==> s.workers[w].Exited?
  }

  // ---- The models list ----

  ghost function Permits(ws: seq<Worker>): nat {
    if ws == [] then 0 else (if ws[0].AddingModel? then 1 else 0) + Permits(ws[1..])
  }

  lemma {:induction false} PermitsPut(ws: seq<Worker>, w: nat, worker: Worker)
    requires w < |ws|
    ensures Permits(ws[w := worker]) + (if ws[w].AddingModel? then 1 else 0)
         == Permits(ws) + (if worker.AddingModel? then 1 else 0)
    ensures (if ws[w].AddingModel? then 1 else 0) <= Permits(ws) <= |ws|
  {
    if w > 0 {
      assert ws[w := worker][1..] == ws[1..][w - 1 := worker];
      PermitsPut(ws[1..], w - 1, worker);
    } else {
      assert ws[w := worker][1..] == ws[1..];
      PermitsAtMost(ws[1..]);
    }
  }

  lemma {:induction false} PermitsAtMost(ws: seq<Worker>)
    ensures Permits(ws) <= |ws|
  {
    if ws != [] {
      PermitsAtMost(ws[1..]);
    }
  }

  /** Models listed and models about to be: the length check may let every worker in at once,
      but only while there is room for one. */
  ghost predicate ModelsBounded(s: State, workerCount: nat) {
    |s.workers| == workerCount && |s.models| + Permits(s.workers) <= MAX_MODELS - 1 + workerCount
  }

  lemma ModelsBoundedStep(classify: Classify, s: State, a: Action, s': State, workerCount: nat)
    requires Next(classify, s, a, s') && ModelsBounded(s, workerCount)
    ensures ModelsBounded(s', workerCount)
  {
    if ByWorker(a) {
      var w := a.w;
      PermitsPut(s.workers, w, s'.workers[w]);
      PermitsAtMost(s'.workers);
    }
  }

  ghost predicate ByWorker(a: Action) {
    !a.Cancel? && !a.StopWalk? && !a.Send? && !a.Close?
  }

  /** In every state of every run, canceled or not, the models list exceeds its limit by less
      than the number of workers. */
  lemma {:induction false} ModelsNeverFarOver(classify: Classify, reports: seq<Report>, workerCount: nat,
                                             tr: seq<State>, i: nat)
    requires IsRun(classify, reports, workerCount, tr) && i < |tr|
    ensures ModelsBounded(tr[i], workerCount)
    ensures |tr[i].models| <= MAX_MODELS + workerCount - 1
  {
    if i == 0 {
      NoPermitsYet(workerCount);
    } else {
      ModelsNeverFarOver(classify, reports, workerCount, tr, i - 1);
      assert StepAt(classify, tr, i - 1);
      var a :| Next(classify, tr[i - 1], a, tr[i]);
      ModelsBoundedStep(classify, tr[i - 1], a, tr[i], workerCount);
    }
  }

  lemma {:induction false} NoPermitsYet(n: nat)
    ensures Permits(seq(n, _ => Idle)) == 0
  {
    var ws := seq(n, _ => Idle);
    if n > 0 {
      assert ws[1..] == seq(n - 1, _ => Idle);
      NoPermitsYet(n - 1);
    }
  }

  // ---- Nothing is lost and nothing is counted twice ----

  ghost function FrameworksHeld(w: Worker): multiset<Framework> {
    match w
    case Matching(left) => left
    case Adding(next, left) => left + multiset{next}
    case ReadNotebook(found) => multiset(found)
    case AddingNotebook(rest) => multiset(rest)
    case _ => multiset{}
  }

  ghost function ModelsHeld(w: Worker): multiset<Model> {
    match w
    case CheckingModel(m) => multiset{m}
    case AddingModel(m) => multiset{m}
    case _ => multiset{}
  }

  /** How often `key` occurs, or with no key how many elements there are. */
  ghost function Count<T>(m: multiset<T>, key: Option<T>): nat {
    if key.Some? then m[key.value] else |m|
  }

  ghost function FrameworksInHand(ws: seq<Worker>, key: Option<Framework>): nat {
    if ws == [] then 0 else Count(FrameworksHeld(ws[0]), key) + FrameworksInHand(ws[1..], key)
  }

  ghost function ModelsInHand(ws: seq<Worker>, key: Option<Model>): nat {
    if ws == [] then 0 else Count(ModelsHeld(ws[0]), key) + ModelsInHand(ws[1..], key)
  }

  /** Listed, held by workers, waiting in the channel or not yet walked. */
  ghost function FrameworkCount(classify: Classify, s: State, key: Option<Framework>): nat {
    Count(multiset(s.frameworks), key) + FrameworksInHand(s.workers, key)
    + Count(AllFrameworks(classify, s.channel), key) + Count(AllFrameworks(classify, s.unsent), key)
  }

  ghost function ModelCount(classify: Classify, s: State, key: Option<Model>): nat {
    Count(multiset(s.models), key) + ModelsInHand(s.workers, key)
    + Count(AllModels(classify, s.channel), key) + Count(AllModels(classify, s.unsent), key)
  }

  lemma CountConcat(classify: Classify, a: seq<Report>, b: seq<Report>, kf: Option<Framework>, km: Option<Model>)
    ensures Count(AllFrameworks(classify, a + b), kf) ==
            Count(AllFrameworks(classify, a), kf) + Count(AllFrameworks(classify, b), kf)
    ensures Count(AllModels(classify, a + b), km) ==
            Count(AllModels(classify, a), km) + Count(AllModels(classify, b), km)
  {
    AllConcat(classify, a, b);
  }

  lemma SendConserves(classify: Classify, s: State, s': State, kf: Option<Framework>, km: Option<Model>)
    requires Next(classify, s, Send, s')
    ensures FrameworkCount(classify, s', kf) == FrameworkCount(classify, s, kf)
    ensures ModelCount(classify, s', km) == ModelCount(classify, s, km)
  {
    ChannelHead(classify, s.unsent, kf, km);
    CountConcat(classify, s.channel, [s.unsent[0]], kf, km);
    assert s'.channel == s.channel + [s.unsent[0]] && s'.unsent == s.unsent[1..];
  }

  /** The effect of one worker's step on the counts, from its effect on that worker. */
  lemma {:induction false} WorkerCounts(ws: seq<Worker>, ws': seq<Worker>, w: nat,
                                        kf: Option<Framework>, km: Option<Model>)
    requires w < |ws| == |ws'| && ws' == ws[w := ws'[w]]
    ensures FrameworksInHand(ws', kf) + Count(FrameworksHeld(ws[w]), kf)
         == FrameworksInHand(ws, kf) + Count(FrameworksHeld(ws'[w]), kf)
    ensures ModelsInHand(ws', km) + Count(ModelsHeld(ws[w]), km)
         == ModelsInHand(ws, km) + Count(ModelsHeld(ws'[w]), km)
    ensures FrameworksInHand(ws, kf) >= Count(FrameworksHeld(ws[w]), kf)
    ensures ModelsInHand(ws, km) >= Count(ModelsHeld(ws[w]), km)
  {
    if w > 0 {
      assert ws'[1..] == ws[1..][w - 1 := ws'[w]];
      WorkerCounts(ws[1..], ws'[1..], w - 1, kf, km);
    } else {
      assert ws'[1..] == ws[1..];
    }
  }

  lemma TakeConserves(classify: Classify, s: State, w: nat, s': State, kf: Option<Framework>, km: Option<Model>)
    requires Next(classify, s, Take(w), s')
    ensures FrameworkCount(classify, s', kf) == FrameworkCount(classify, s, kf)
    ensures ModelCount(classify, s', km) == ModelCount(classify, s, km)
  {
    TakenCounts(classify, s, w, s', kf, km);
  }

  lemma TakenCounts(classify: Classify, s: State, w: nat, s': State, kf: Option<Framework>, km: Option<Model>)
    requires s.channel != [] && w < |s.workers|
    requires FrameworksHeld(s.workers[w]) == multiset{} && ModelsHeld(s.workers[w]) == multiset{}
    requires s'.workers == s.workers[w := Start(classify(s.channel[0]))] && s'.channel == s.channel[1..]
    requires s'.unsent == s.unsent && s'.frameworks == s.frameworks && s'.models == s.models
    ensures FrameworkCount(classify, s', kf) == FrameworkCount(classify, s, kf)
    ensures ModelCount(classify, s', km) == ModelCount(classify, s, km)
  {
    ChannelHead(classify, s.channel, kf, km);
    WorkerTakes(classify, s.workers, s'.workers, w, s.channel[0], kf, km);
  }

  lemma WorkerTakes(classify: Classify, ws: seq<Worker>, ws': seq<Worker>, w: nat, r: Report,
                    kf: Option<Framework>, km: Option<Model>)
    requires w < |ws| && ws' == ws[w := Start(classify(r))]
    requires FrameworksHeld(ws[w]) == multiset{} && ModelsHeld(ws[w]) == multiset{}
    ensures FrameworksInHand(ws', kf) == FrameworksInHand(ws, kf) + Count(AllFrameworks(classify, [r]), kf)
    ensures ModelsInHand(ws', km) == ModelsInHand(ws, km) + Count(AllModels(classify, [r]), km)
  {
    StartHolds(classify, r);
    WorkerCounts(ws, ws', w, kf, km);
  }

  lemma ChannelHead(classify: Classify, rs: seq<Report>, kf: Option<Framework>, km: Option<Model>)
    requires rs != []
    ensures Count(AllFrameworks(classify, rs), kf) ==
            Count(AllFrameworks(classify, [rs[0]]), kf) + Count(AllFrameworks(classify, rs[1..]), kf)
    ensures Count(AllModels(classify, rs), km) ==
            Count(AllModels(classify, [rs[0]]), km) + Count(AllModels(classify, rs[1..]), km)
  {
    assert rs == [rs[0]] + rs[1..];
    CountConcat(classify, [rs[0]], rs[1..], kf, km);
  }

  lemma StartHolds(classify: Classify, r: Report)
    ensures FrameworksHeld(Start(classify(r))) == FrameworksOf(classify(r)) == AllFrameworks(classify, [r])
    ensures ModelsHeld(Start(classify(r))) == ModelsOf(classify(r)) == AllModels(classify, [r])
  {
    assert [r][..0] == [];
  }

  lemma CountAppend<T>(listed: seq<T>, x: T, key: Option<T>)
    ensures Count(multiset(listed + [x]), key) == Count(multiset(listed), key) + Count(multiset{x}, key)
  {
    assert multiset(listed + [x]) == multiset(listed) + multiset{x};
  }

  lemma CountHead<T>(rest: seq<T>, key: Option<T>)
    requires rest != []
    ensures Count(multiset(rest), key) == Count(multiset{rest[0]}, key) + Count(multiset(rest[1..]), key)
  {
    assert rest == [rest[0]] + rest[1..];
  }

  lemma CountPicked<T>(left: multiset<T>, x: T, key: Option<T>)
    requires x in left
    ensures Count(left - multiset{x} + multiset{x}, key) == Count(left, key)
  {
    assert left - multiset{x} + multiset{x} == left;
  }

  /** A worker's step keeps what is listed plus what that worker holds. */
  ghost predicate Kept(s: State, s': State, w: nat, kf: Option<Framework>, km: Option<Model>)
    requires w < |s.workers| && w < |s'.workers|
  {
    && Count(multiset(s'.frameworks), kf) + Count(FrameworksHeld(s'.workers[w]), kf)
       == Count(multiset(s.frameworks), kf) + Count(FrameworksHeld(s.workers[w]), kf)
    && Count(multiset(s'.models), km) + Count(ModelsHeld(s'.workers[w]), km)
       == Count(multiset(s.models), km) + Count(ModelsHeld(s.workers[w]), km)
  }

  lemma CheckRoomKeeps(classify: Classify, s: State, a: Action, s': State, kf: Option<Framework>, km: Option<Model>)
    requires Next(classify, s, a, s') && a.CheckRoom?
    requires |s.frameworks| + |s.workers[a.w].left| <= MAX_FRAMEWORKS
    ensures Kept(s, s', a.w, kf, km)
  {
    CountPicked(s.workers[a.w].left, a.f, kf);
  }

  lemma EndKeeps(classify: Classify, s: State, a: Action, s': State, kf: Option<Framework>, km: Option<Model>)
    requires Next(classify, s, a, s') && (a.GiveUp? || a.EndMatching? || a.EndNotebook?)
    requires |s.frameworks| + |FrameworksHeld(s.workers[a.w])| <= MAX_FRAMEWORKS
    ensures Kept(s, s', a.w, kf, km)
  {
    assert FrameworksHeld(s.workers[a.w]) == multiset{};
  }

  lemma AddFrameworkKeeps(classify: Classify, s: State, a: Action, s': State, kf: Option<Framework>, km: Option<Model>)
    requires Next(classify, s, a, s') && a.AddFramework?
    ensures Kept(s, s', a.w, kf, km)
  {
    CountAppend(s.frameworks, s.workers[a.w].next, kf);
  }

  lemma CountNotebookKeeps(classify: Classify, s: State, a: Action, s': State, kf: Option<Framework>, km: Option<Model>)
    requires Next(classify, s, a, s') && a.CountNotebook?
    requires |s.frameworks| + |s.workers[a.w].found| <= MAX_FRAMEWORKS
    ensures Kept(s, s', a.w, kf, km)
  {
  }

  lemma AddFromNotebookKeeps(classify: Classify, s: State, a: Action, s': State,
                             kf: Option<Framework>, km: Option<Model>)
    requires Next(classify, s, a, s') && a.AddFromNotebook?
    ensures Kept(s, s', a.w, kf, km)
  {
    CountHead(s.workers[a.w].rest, kf);
    CountAppend(s.frameworks, s.workers[a.w].rest[0], kf);
  }

  lemma CheckModelKeeps(classify: Classify, s: State, a: Action, s': State, kf: Option<Framework>, km: Option<Model>)
    requires Next(classify, s, a, s') && a.CheckModelRoom? && |s.models| < MAX_MODELS
    ensures Kept(s, s', a.w, kf, km)
  {
    assert s'.workers[a.w] == AddingModel(s.workers[a.w].model);
  }

  lemma AddModelKeeps(classify: Classify, s: State, a: Action, s': State, kf: Option<Framework>, km: Option<Model>)
    requires Next(classify, s, a, s') && a.AddModel?
    ensures Kept(s, s', a.w, kf, km)
  {
    CountAppend(s.models, s.workers[a.w].model, km);
    assert s'.workers[a.w] == Idle;
  }

  lemma WorkerKeeps(classify: Classify, s: State, a: Action, s': State, kf: Option<Framework>, km: Option<Model>)
    requires Next(classify, s, a, s') && ByWorker(a) && !a.Take? && !s.ctxDone
    requires RoomFor(s, a.w)
    ensures a.w < |s'.workers| && Kept(s, s', a.w, kf, km)
  {
    match a
    case CheckRoom(_, _) => CheckRoomKeeps(classify, s, a, s', kf, km);
    case AddFramework(_) => AddFrameworkKeeps(classify, s, a, s', kf, km);
    case CountNotebook(w) =>
      assert |multiset(s.workers[w].found)| == |s.workers[w].found|;
      CountNotebookKeeps(classify, s, a, s', kf, km);
    case AddFromNotebook(_) => AddFromNotebookKeeps(classify, s, a, s', kf, km);
    case CheckModelRoom(_) => CheckModelKeeps(classify, s, a, s', kf, km);
    case AddModel(_) => AddModelKeeps(classify, s, a, s', kf, km);
    case GiveUp(_) => EndKeeps(classify, s, a, s', kf, km);
    case EndMatching(_) => EndKeeps(classify, s, a, s', kf, km);
    case EndNotebook(_) => EndKeeps(classify, s, a, s', kf, km);
    case _ =>
  }

  /** The limits leave room for what a worker holds. */
  ghost predicate RoomFor(s: State, w: nat) {
    && w < |s.workers|
    && |s.frameworks| + |FrameworksHeld(s.workers[w])| <= MAX_FRAMEWORKS
    && |s.models| + |ModelsHeld(s.workers[w])| <= MAX_MODELS
  }

  /** There is no more to find than the limits. */
  ghost predicate WithinLimits(classify: Classify, s: State) {
    FrameworkCount(classify, s, None) <= MAX_FRAMEWORKS && ModelCount(classify, s, None) <= MAX_MODELS
  }

  lemma RoomForHeld(classify: Classify, s: State, w: nat)
    requires w < |s.workers|
    requires WithinLimits(classify, s)
    ensures RoomFor(s, w)
  {
    WorkerCounts(s.workers, s.workers, w, None, None);
    assert |multiset(s.frameworks)| == |s.frameworks| && |multiset(s.models)| == |s.models|;
  }

  /** With no more to find than the limits, no step loses or doubles anything. */
  lemma StepConserves(classify: Classify, s: State, a: Action, s': State, kf: Option<Framework>, km: Option<Model>)
    requires Next(classify, s, a, s') && !s'.ctxDone && WithinLimits(classify, s)
    ensures FrameworkCount(classify, s', kf) == FrameworkCount(classify, s, kf)
    ensures ModelCount(classify, s', km) == ModelCount(classify, s, km)
  {
    if a.Send? {
      SendConserves(classify, s, s', kf, km);
    } else if a.Take? {
      TakeConserves(classify, s, a.w, s', kf, km);
    } else if ByWorker(a) {
      WorkerConserves(classify, s, a, s', kf, km);
    } else {
      assert a.Close?;
    }
  }

  lemma WorkerConserves(classify: Classify, s: State, a: Action, s': State, kf: Option<Framework>, km: Option<Model>)
    requires Next(classify, s, a, s') && !s'.ctxDone && ByWorker(a) && !a.Take? && WithinLimits(classify, s)
    ensures FrameworkCount(classify, s', kf) == FrameworkCount(classify, s, kf)
    ensures ModelCount(classify, s', km) == ModelCount(classify, s, km)
  {
    StaysPut(classify, s, a, s');
    RoomForHeld(classify, s, a.w);
    WorkerKeeps(classify, s, a, s', kf, km);
    KeptConserves(classify, s, s', a.w, kf, km);
  }

  lemma KeptConserves(classify: Classify, s: State, s': State, w: nat, kf: Option<Framework>, km: Option<Model>)
    requires s'.channel == s.channel && s'.unsent == s.unsent && w < |s.workers| == |s'.workers|
    requires s'.workers == s.workers[w := s'.workers[w]] && Kept(s, s', w, kf, km)
    ensures FrameworkCount(classify, s', kf) == FrameworkCount(classify, s, kf)
    ensures ModelCount(classify, s', km) == ModelCount(classify, s, km)
  {
    WorkerCounts(s.workers, s'.workers, w, kf, km);
  }

  lemma StaysPut(classify: Classify, s: State, a: Action, s': State)
    requires Next(classify, s, a, s') && ByWorker(a) && !a.Take? && !s'.ctxDone
    ensures s'.channel == s.channel && s'.unsent == s.unsent && a.w < |s.workers| == |s'.workers|
    ensures s'.workers == s.workers[a.w := s'.workers[a.w]]
  {
  }

  lemma AnyStepConserves(classify: Classify, s: State, s': State, kf: Option<Framework>, km: Option<Model>)
    requires Step(classify, s, s') && !s'.ctxDone && WithinLimits(classify, s)
    ensures FrameworkCount(classify, s', kf) == FrameworkCount(classify, s, kf)
    ensures ModelCount(classify, s', km) == ModelCount(classify, s, km)
  {
    var a :| Next(classify, s, a, s');
    StepConserves(classify, s, a, s', kf, km);
  }

  lemma {:induction false} IdleHoldNothing(ws: seq<Worker>, kf: Option<Framework>, km: Option<Model>)
    requires forall w :: 0 <= w < |ws| ==> ws[w].Idle? || ws[w].Exited?
    ensures FrameworksInHand(ws, kf) == 0 && ModelsInHand(ws, km) == 0
  {
    if ws != [] {
      assert FrameworksHeld(ws[0]) == multiset{} && ModelsHeld(ws[0]) == multiset{};
      IdleHoldNothing(ws[1..], kf, km);
    }
  }

  ghost predicate StepsThrough(classify: Classify, tr: seq<State>) {
    tr != [] && forall i :: 0 <= i < |tr| - 1 ==> StepAt(classify, tr, i)
  }

  lemma {:induction false} StepsConserve(classify: Classify, tr: seq<State>, i: nat,
                                        kf: Option<Framework>, km: Option<Model>)
    requires StepsThrough(classify, tr) && i < |tr| && !tr[i].ctxDone && WithinLimits(classify, tr[0])
    ensures FrameworkCount(classify, tr[i], kf) == FrameworkCount(classify, tr[0], kf)
    ensures ModelCount(classify, tr[i], km) == ModelCount(classify, tr[0], km)
    decreases i, 0
  {
    if i > 0 {
      assert StepAt(classify, tr, i - 1);
      StaysLive(classify, tr[i - 1], tr[i]);
      StepsWithinLimits(classify, tr, i - 1);
      StepsConserve(classify, tr, i - 1, kf, km);
      AnyStepConserves(classify, tr[i - 1], tr[i], kf, km);
    }
  }

  lemma {:induction false} StepsWithinLimits(classify: Classify, tr: seq<State>, i: nat)
    requires StepsThrough(classify, tr) && i < |tr| && !tr[i].ctxDone && WithinLimits(classify, tr[0])
    ensures WithinLimits(classify, tr[i])
    decreases i, 1
  {
    StepsConserve(classify, tr, i, None, None);
  }

  lemma InitCounts(classify: Classify, reports: seq<Report>, workerCount: nat, kf: Option<Framework>, km: Option<Model>)
    ensures FrameworkCount(classify, Init(reports, workerCount), kf) == Count(AllFrameworks(classify, reports), kf)
    ensures ModelCount(classify, Init(reports, workerCount), km) == Count(AllModels(classify, reports), km)
  {
    IdleHoldNothing(Init(reports, workerCount).workers, kf, km);
  }

  /** A worker leaves only once the channel is closed and drained. */
  ghost predicate DrainedOnExit(s: State) {
    && (s.closed ==> s.unsent == [])
    && (forall w :: 0 <= w < |s.workers| && s.workers[w].Exited? ==> s.closed && s.channel == [])
  }

  lemma DrainStep(classify: Classify, s: State, a: Action, s': State)
    requires Next(classify, s, a, s') && !s'.ctxDone && DrainedOnExit(s)
    ensures DrainedOnExit(s') && |s'.workers| == |s.workers|
  {
    if ByWorker(a) {
      assert forall w :: 0 <= w < |s.workers| && w != a.w ==> s'.workers[w] == s.workers[w];
    }
  }

  lemma {:induction false} RunDrains(classify: Classify, reports: seq<Report>, workerCount: nat, tr: seq<State>, i: nat)
    requires IsRun(classify, reports, workerCount, tr) && i < |tr| && !tr[i].ctxDone
    ensures DrainedOnExit(tr[i]) && |tr[i].workers| == workerCount
  {
    if i > 0 {
      assert StepAt(classify, tr, i - 1);
      var a :| Next(classify, tr[i - 1], a, tr[i]);
      StaysLive(classify, tr[i - 1], tr[i]);
      RunDrains(classify, reports, workerCount, tr, i - 1);
      DrainStep(classify, tr[i - 1], a, tr[i]);
    }
  }

  lemma StaysLive(classify: Classify, s: State, s': State)
    requires Step(classify, s, s') && !s'.ctxDone
    ensures !s.ctxDone
  {
  }

  /** Agreement: when nothing was canceled and there is no more to find than the limits, a
      finished run lists exactly what there is to find, as the sequential scan does. */
  lemma ConcurrentFindsEverything(classify: Classify, reports: seq<Report>, workerCount: nat, tr: seq<State>, i: nat)
    requires IsRun(classify, reports, workerCount, tr) && i < |tr| && !tr[i].ctxDone && Finished(tr[i])
    requires |AllFrameworks(classify, reports)| <= MAX_FRAMEWORKS && |AllModels(classify, reports)| <= MAX_MODELS
    ensures multiset(tr[i].frameworks) == AllFrameworks(classify, reports)
    ensures multiset(tr[i].models) == AllModels(classify, reports)
  {
    var s := tr[i];
    RunDrains(classify, reports, workerCount, tr, i);
    assert s.workers[0].Exited?;
    InitCounts(classify, reports, workerCount, None, None);
    forall f ensures multiset(s.frameworks)[f] == AllFrameworks(classify, reports)[f] {
      StepsConserve(classify, tr, i, Some(f), None);
      InitCounts(classify, reports, workerCount, Some(f), None);
      IdleHoldNothing(s.workers, Some(f), None);
    }
    forall m ensures multiset(s.models)[m] == AllModels(classify, reports)[m] {
      StepsConserve(classify, tr, i, None, Some(m));
      InitCounts(classify, reports, workerCount, None, Some(m));
      IdleHoldNothing(s.workers, None, Some(m));
    }
  }

  /** On one tree, if the budget covers it twice and there is no more to find than the limits, every
      finished run that was not canceled lists what Detect promises to list. */
  lemma ConcurrentAgreesWithDetect(classify: Classify, lim: Limits, root: seq<Entry>, workerCount: nat,
                                   tr: seq<State>, i: nat)
    requires IsRun(classify, Budgeted(lim, Preorder(lim, root, [], 0), 0), workerCount, tr)
    requires i < |tr| && !tr[i].ctxDone && Finished(tr[i])
    requires var all := Preorder(lim, root, [], 0);
             CoversTwice(lim, all) &&
             |AllFrameworks(classify, all)| <= MAX_FRAMEWORKS && |AllModels(classify, all)| <= MAX_MODELS
    ensures multiset(tr[i].frameworks) == AllFrameworks(classify, Preorder(lim, root, [], 0))
    ensures multiset(tr[i].models) == AllModels(classify, Preorder(lim, root, [], 0))
  {
    var all := Preorder(lim, root, [], 0);
    BothWalksWhole(lim, all);
    ConcurrentFindsEverything(classify, all, workerCount, tr, i);
  }
}
