/** DetectConcurrent always comes to an end, canceled or not: it is never stuck and every step
    uses up some of a bounded amount of work. */
module DetectionLiveness {
  import opened Walking
  import opened Detection
  import opened ConcurrentDetection

  /** Steps a worker still has before it, its exit included. */
  function WorkerWeight(w: Worker): nat {
    match w
    case Exited => 0
    case Idle => 1
    case Matching(left) => 2 + 2 * |left|
    case Adding(_, left) => 3 + 2 * |left|
    case ReadNotebook(found) => 3 + |found|
    case AddingNotebook(rest) => 2 + |rest|
    case CheckingModel(_) => 3
    case AddingModel(_) => 2
  }

  function ReportWeight(classify: Classify, r: Report): nat {
    WorkerWeight(Start(classify(r)))
  }

  function WorkersWeight(ws: seq<Worker>): nat {
    if ws == [] then 0 else WorkerWeight(ws[0]) + WorkersWeight(ws[1..])
  }

  /** The work in a list of reports; a report not yet sent costs `extra` more. */
  function ReportsWeight(classify: Classify, rs: seq<Report>, extra: nat): nat {
    if rs == [] then 0 else ReportWeight(classify, rs[0]) + extra + ReportsWeight(classify, rs[1..], extra)
  }

  /** A bound on the steps left. */
  function Measure(classify: Classify, s: State): nat {
    (if s.ctxDone then 0 else 1) + (if s.closed then 0 else 1) +
    ReportsWeight(classify, s.unsent, 1) + ReportsWeight(classify, s.channel, 0) + WorkersWeight(s.workers)
  }

  lemma {:induction false} PutWeight(ws: seq<Worker>, w: nat, worker: Worker)
    requires w < |ws|
    ensures WorkersWeight(ws[w := worker]) + WorkerWeight(ws[w]) == WorkersWeight(ws) + WorkerWeight(worker)
  {
    var ws' := ws[w := worker];
    if w == 0 {
      assert ws'[1..] == ws[1..];
    } else {
      assert ws'[1..] == ws[1..][w - 1 := worker];
      PutWeight(ws[1..], w - 1, worker);
    }
  }

  lemma {:induction false} SentWeight(classify: Classify, rs: seq<Report>, r: Report)
    ensures ReportsWeight(classify, rs + [r], 0) == ReportsWeight(classify, rs, 0) + ReportWeight(classify, r)
  {
    if rs == [] {
      assert [r][1..] == [];
      assert rs + [r] == [r];
    } else {
      SentWeight(classify, rs[1..], r);
      assert (rs + [r])[1..] == rs[1..] + [r];
    }
  }

  lemma WorkerStepWeight(classify: Classify, s: State, a: Action, s': State)
    requires Next(classify, s, a, s') && ByWorker(a) && !a.Take?
    requires a.w < |s.workers| == |s'.workers|
    ensures WorkerWeight(s'.workers[a.w]) < WorkerWeight(s.workers[a.w])
  {
  }

  /** Every step uses up work. */
  lemma StepsAreProgress(classify: Classify, s: State, a: Action, s': State)
    requires Next(classify, s, a, s')
    ensures Measure(classify, s') < Measure(classify, s)
  {
    match a
    case Cancel =>
    case StopWalk =>
    case Close =>
    case Send => SentWeight(classify, s.channel, s.unsent[0]);
    case Take(w) => PutWeight(s.workers, w, Start(classify(s.channel[0])));
    case _ =>
      WorkerStepWeight(classify, s, a, s');
      PutWeight(s.workers, a.w, s'.workers[a.w]);
  }

  /** Termination: no run has more steps than the work in its reports and workers. */
  lemma {:induction false} RunsAreBounded(classify: Classify, tr: seq<State>)
    requires StepsThrough(classify, tr)
    ensures |tr| - 1 + Measure(classify, tr[|tr| - 1]) <= Measure(classify, tr[0])
  {
    var n := |tr| - 1;
    if n > 0 {
      var front := tr[..n];
      forall i | 0 <= i < n - 1
        ensures StepAt(classify, front, i)
      {
        assert StepAt(classify, tr, i);
      }
      RunsAreBounded(classify, front);
      assert StepAt(classify, tr, n - 1);
      var a :| Next(classify, tr[n - 1], a, tr[n]);
      StepsAreProgress(classify, tr[n - 1], a, tr[n]);
    }
  }

  /** The walk is over, the channel closed and every worker gone: wg.Wait returns. */
  ghost predicate Ended(s: State) {
    s.unsent == [] && s.closed && Finished(s)
  }

  ghost predicate CanProgress(s: State) {
    exists a: Action :: !a.Cancel? && Enabled(s, a)
  }

  lemma BusyWorkerMoves(s: State, w: nat)
    requires w < |s.workers| && !s.workers[w].Idle? && !s.workers[w].Exited?
    ensures CanProgress(s)
  {
    match s.workers[w]
    case Matching(left) =>
      if left == multiset{} {
        assert Enabled(s, EndMatching(w));
      } else {
        var f :| f in left;
        assert Enabled(s, CheckRoom(w, f));
      }
    case Adding(_, _) => assert Enabled(s, AddFramework(w));
    case ReadNotebook(_) => assert Enabled(s, CountNotebook(w));
    case AddingNotebook(rest) =>
      assert Enabled(s, if rest == [] then EndNotebook(w) else AddFromNotebook(w));
    case CheckingModel(_) => assert Enabled(s, CheckModelRoom(w));
    case AddingModel(_) => assert Enabled(s, AddModel(w));
  }

  lemma IdleWorkerMoves(s: State, w: nat)
    requires w < |s.workers| && s.workers[w].Idle? && (s.channel != [] || s.closed)
    ensures CanProgress(s)
  {
    assert Enabled(s, if s.channel == [] then Leave(w) else if s.ctxDone then Quit(w) else Take(w));
  }

  lemma WalkMoves(s: State)
    requires s.workers != [] && s.unsent != [] && (!s.ctxDone ==> DrainedOnExit(s))
    requires forall w :: 0 <= w < |s.workers| ==> s.workers[w].Idle? || s.workers[w].Exited?
    ensures CanProgress(s)
  {
    if s.ctxDone {
      assert Enabled(s, StopWalk);
    } else if |s.channel| < CHANNEL_CAPACITY {
      assert Enabled(s, Send);
    } else {
      assert s.workers[0].Idle?;
      IdleWorkerMoves(s, 0);
    }
  }

  lemma {:induction false} WorkersStay(classify: Classify, tr: seq<State>, i: nat)
    requires StepsThrough(classify, tr) && i < |tr|
    ensures |tr[i].workers| == |tr[0].workers|
  {
    if i > 0 {
      WorkersStay(classify, tr, i - 1);
      assert StepAt(classify, tr, i - 1);
    }
  }

  /** Deadlock freedom: until the scan has ended, some step other than a cancellation is possible,
      whatever the channel holds and however many workers have already left. */
  lemma NeverStuck(classify: Classify, reports: seq<Report>, workerCount: nat, tr: seq<State>, i: nat)
    requires IsRun(classify, reports, workerCount, tr) && i < |tr| && !Ended(tr[i])
    ensures CanProgress(tr[i])
  {
    var s := tr[i];
    if w :| 0 <= w < |s.workers| && !s.workers[w].Idle? && !s.workers[w].Exited? {
      BusyWorkerMoves(s, w);
    } else if s.unsent != [] {
      WorkersStay(classify, tr, i);
      if !s.ctxDone {
        RunDrains(classify, reports, workerCount, tr, i);
      }
      WalkMoves(s);
    } else if !s.closed {
      assert Enabled(s, Close);
    } else {
      var w :| 0 <= w < |s.workers| && !s.workers[w].Exited?;
      IdleWorkerMoves(s, w);
    }
  }

  lemma RunExtends(classify: Classify, reports: seq<Report>, workerCount: nat, tr: seq<State>, next: State)
    requires IsRun(classify, reports, workerCount, tr) && Step(classify, tr[|tr| - 1], next)
    ensures IsRun(classify, reports, workerCount, tr + [next])
  {
    var longer := tr + [next];
    forall i | 0 <= i < |longer| - 1
      ensures StepAt(classify, longer, i)
    {
      if i < |tr| - 1 {
        assert StepAt(classify, tr, i);
      }
    }
  }

  /** Every run can be continued to its end, without a cancellation of its own. */
  lemma {:induction false} CanAlwaysEnd(classify: Classify, reports: seq<Report>, workerCount: nat, tr: seq<State>)
    returns (whole: seq<State>)
    requires IsRun(classify, reports, workerCount, tr)
    ensures IsRun(classify, reports, workerCount, whole) && tr <= whole
    ensures Ended(whole[|whole| - 1]) && whole[|whole| - 1].ctxDone == tr[|tr| - 1].ctxDone
    decreases Measure(classify, tr[|tr| - 1])
  {
    var s := tr[|tr| - 1];
    if Ended(s) {
      whole := tr;
    } else {
      var next := ProgressOnce(classify, reports, workerCount, tr);
      whole := CanAlwaysEnd(classify, reports, workerCount, tr + [next]);
    }
  }

  lemma ProgressOnce(classify: Classify, reports: seq<Report>, workerCount: nat, tr: seq<State>) returns (next: State)
    requires IsRun(classify, reports, workerCount, tr) && !Ended(tr[|tr| - 1])
    ensures IsRun(classify, reports, workerCount, tr + [next])
    ensures next.ctxDone == tr[|tr| - 1].ctxDone && Measure(classify, next) < Measure(classify, tr[|tr| - 1])
  {
    var s := tr[|tr| - 1];
    NeverStuck(classify, reports, workerCount, tr, |tr| - 1);
    var a: Action :| !a.Cancel? && Enabled(s, a);
    next := Apply(classify, s, a);
    assert Next(classify, s, a, next);
    StepsAreProgress(classify, s, a, next);
    RunExtends(classify, reports, workerCount, tr, next);
  }

}
