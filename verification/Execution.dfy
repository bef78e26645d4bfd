/** Running stages one after another, and the parts of internal/pipeline/executor.go that the
    sequential and the parallel executor share. */
module Execution {
  import opened Graphs
  import opened Options
  import opened Pipelines
  import opened Topological

  datatype Status = Pending | Running | Success | Failed | Skipped | Canceled

  datatype StageResult = StageResult(name: Name, status: Status, artifacts: map<string, string>)

  /** A runner's two return values: the stage result and whether the error is non-nil. */
  datatype Outcome = Outcome(result: StageResult, err: bool)

  type Completed = map<Name, StageResult>

  /** A stage runner is an arbitrary function of the stage and the earlier results it is handed. */
  type Runner = (Stage, Completed) -> Outcome

  datatype Config = Config(
    stages: seq<Stage>,
    failFast: bool,
    dryRun: bool,
    registry: map<string, Runner>,
    maxWorkers: nat)

  ghost predicate ValidConfig(c: Config) {
    WellFormed(c.stages) && c.maxWorkers >= 1
  }

  function StageNamed(stages: seq<Stage>, name: Name): Option<Stage> {
    if stages == [] then None
    else if stages[0].name == name then Some(stages[0])
    else StageNamed(stages[1..], name)
  }

  lemma {:induction false} NamedStageExists(stages: seq<Stage>, name: Name)
    requires name in Names(stages)
    ensures StageNamed(stages, name).Some?
    ensures StageNamed(stages, name).value in stages && StageNamed(stages, name).value.name == name
  {
    if stages[0].name != name {
      var i :| 0 <= i < |stages| && stages[i].name == name;
      assert stages[1..][i - 1] == stages[i];
      NamedStageExists(stages[1..], name);
    }
  }

  /** Pipeline.GetStage. */
  method GetStage(stages: seq<Stage>, name: Name) returns (stage: Option<Stage>)
    ensures stage == StageNamed(stages, name)
  {
    for i := 0 to |stages|
      invariant StageNamed(stages, name) == StageNamed(stages[i..], name)
    {
      assert stages[i..][1..] == stages[i + 1..];
      if stages[i].name == name {
        return Some(stages[i]);
      }
    }
    stage := None;
  }

  /** executeStage: a dry run skips, a kind without a runner fails, otherwise the runner decides. */
  function ExecuteStage(c: Config, s: Stage, completed: Completed): Outcome {
    if c.dryRun then Outcome(StageResult(s.name, Skipped, map[]), false)
    else if s.kind !in c.registry then Outcome(StageResult(s.name, Failed, map[]), true)
    else c.registry[s.kind](s, completed)
  }

  function Execute(c: Config, name: Name, completed: Completed): Outcome {
    match StageNamed(c.stages, name)
    case Some(s) => ExecuteStage(c, s, completed)
    case None => Outcome(StageResult(name, Failed, map[]), true)
  }

  predicate ShouldContinue(cond: ContinueCondition, status: Status) {
    match cond
    case Always => true
    case OnFailure => status == Failed
    case OnSuccess => status == Success
    case Unset => status == Success
    case Unknown(_) => status == Success
  }

  /** A stage's status is the one its continue condition asks for: any for Always, Failed for
      OnFailure, Success for all others. */
  ghost predicate AsAsked(cond: ContinueCondition, status: Status) {
    && (cond == OnFailure ==> status == Failed)
    && (cond != OnFailure && cond != Always ==> status == Success)
  }

  ghost predicate HasStatus(results: seq<StageResult>, status: Status) {
    exists r :: r in results && r.status == status
  }

  ghost function OverallStatus(results: seq<StageResult>): Status {
    if HasStatus(results, Canceled) then Canceled
    else if HasStatus(results, Failed) then Failed
    else Success
  }

  method DetermineOverallStatus(results: seq<StageResult>) returns (status: Status)
    ensures status == OverallStatus(results)
    ensures status == Canceled <==> HasStatus(results, Canceled)
    ensures status == Failed <==> HasStatus(results, Failed) && !HasStatus(results, Canceled)
    ensures status == Success <==> !HasStatus(results, Failed) && !HasStatus(results, Canceled)
  {
    var hasFailure, hasCanceled := false, false;
    for i := 0 to |results|
      invariant hasFailure <==> HasStatus(results[..i], Failed)
      invariant hasCanceled <==> HasStatus(results[..i], Canceled)
    {
      assert results[..i + 1] == results[..i] + [results[i]];
      assert results[i] in results[..i + 1];
      match results[i].status {
        case Failed => hasFailure := true;
        case Canceled => hasCanceled := true;
        case _ =>
      }
    }
    assert results[..|results|] == results;
    status := if hasCanceled then Canceled else if hasFailure then Failed else Success;
  }

  /** The `completed` map after running `order` front to back. */
  function CompletedAfter(c: Config, order: seq<Name>): Completed {
    if order == [] then map[]
    else
      var front := CompletedAfter(c, order[..|order| - 1]);
      front[order[|order| - 1] := Execute(c, order[|order| - 1], front).result]
  }

  /** What stage `k` of `order` returns when the stages before it have run. */
  function OutcomeAt(c: Config, order: seq<Name>, k: nat): Outcome
    requires k < |order|
  {
    Execute(c, order[k], CompletedAfter(c, order[..k]))
  }

  function ResultsOf(c: Config, order: seq<Name>): seq<StageResult> {
    seq(|order|, k requires 0 <= k < |order| => OutcomeAt(c, order, k).result)
  }

  /** Fail-fast ends the run after stage `k`: it returned an error or may not be continued from. */
  predicate StopsAfter(c: Config, order: seq<Name>, k: nat)
    requires k < |order|
  {
    var o := OutcomeAt(c, order, k);
    c.failFast && (o.err || !ShouldContinue(ConditionOf(c, order[k]), o.result.status))
  }

  function ConditionOf(c: Config, name: Name): ContinueCondition {
    match StageNamed(c.stages, name)
    case Some(s) => s.continueOn
    case None => Unset
  }

  datatype RunError = PipelineCanceled | StageFailed(name: Name) | ConditionNotMet(name: Name)

  /** Stage `k` of the order lets a fail-fast run go on. */
  ghost predicate Passes(c: Config, order: seq<Name>, k: nat)
    requires k < |order|
  {
    var o := OutcomeAt(c, order, k);
    !o.err && AsAsked(ConditionOf(c, order[k]), o.result.status)
  }

  /** Every stage before stage `n` was started under a live context, and was let pass. */
  ghost predicate Undisturbed(c: Config, order: seq<Name>, canceledAt: nat -> bool, n: nat)
    requires n <= |order|
  {
    forall k :: 0 <= k < n ==> !canceledAt(k) && (c.failFast ==> Passes(c, order, k))
  }

  /** Why a run that has run the first `ran` stages of the order ends with this error, or without. */
  ghost predicate EndsWith(c: Config, order: seq<Name>, canceledAt: nat -> bool, ran: nat, error: Option<RunError>) {
    ran <= |order| &&
    match error
    case None => ran == |order| && Undisturbed(c, order, canceledAt, ran)
    case Some(PipelineCanceled) => ran < |order| && canceledAt(ran) && Undisturbed(c, order, canceledAt, ran)
    case Some(StageFailed(n)) =>
      && c.failFast && ran > 0 && n == order[ran - 1] && OutcomeAt(c, order, ran - 1).err
      && !canceledAt(ran - 1) && Undisturbed(c, order, canceledAt, ran - 1)
    case Some(ConditionNotMet(n)) =>
      && c.failFast && ran > 0 && n == order[ran - 1] && !OutcomeAt(c, order, ran - 1).err
      && !AsAsked(ConditionOf(c, n), OutcomeAt(c, order, ran - 1).result.status)
      && !canceledAt(ran - 1) && Undisturbed(c, order, canceledAt, ran - 1)
  }

  /** There is only one way for a run to end. */
  lemma EndsOneWay(c: Config, order: seq<Name>, canceledAt: nat -> bool, ran: nat, error: Option<RunError>,
                   ran': nat, error': Option<RunError>)
    requires EndsWith(c, order, canceledAt, ran, error) && EndsWith(c, order, canceledAt, ran', error')
    ensures ran == ran' && error == error'
  {
  }

  lemma PrefixOutcome(c: Config, order: seq<Name>, n: nat, k: nat)
    requires k < n <= |order|
    ensures OutcomeAt(c, order[..n], k) == OutcomeAt(c, order, k)
  {
    assert order[..n][..k] == order[..k];
  }

  lemma ResultsExtend(c: Config, order: seq<Name>, n: nat)
    requires n < |order|
    ensures ResultsOf(c, order[..n + 1]) == ResultsOf(c, order[..n]) + [OutcomeAt(c, order, n).result]
    ensures CompletedAfter(c, order[..n + 1]) ==
            CompletedAfter(c, order[..n])[order[n] := OutcomeAt(c, order, n).result]
  {
    forall k | 0 <= k < n + 1 ensures OutcomeAt(c, order[..n + 1], k) == OutcomeAt(c, order, k) {
      PrefixOutcome(c, order, n + 1, k);
    }
    forall k | 0 <= k < n ensures OutcomeAt(c, order[..n], k) == OutcomeAt(c, order, k) {
      PrefixOutcome(c, order, n, k);
    }
    assert order[..n + 1][..n] == order[..n];
  }

  /** The state one call of the executor updates: the `completed` map and `result.Stages`. */
  class Run {
    var completed: Completed
    var results: seq<StageResult>

    constructor ()
      ensures completed == map[] && results == []
    {
      completed, results := map[], [];
    }

    /** executeSequential. `canceledAt(k)` is what polling the context before stage `k` says.
        The stages run are a prefix of the order; every one but the last continued. */
    method ExecuteSequential(c: Config, order: seq<Name>, canceledAt: nat -> bool)
      returns (error: Option<RunError>)
      requires completed == map[] && results == [] && Elements(order) <= Names(c.stages)
      modifies this
      ensures |results| <= |order|
      ensures results == ResultsOf(c, order[..|results|])
      ensures completed == CompletedAfter(c, order[..|results|])
      ensures forall k :: 0 <= k < |results| ==> !canceledAt(k)
      ensures forall k :: 0 <= k < |results| - 1 ==> !StopsAfter(c, order, k)
      ensures error == None ==>
                |results| == |order| && (order != [] ==> !StopsAfter(c, order, |order| - 1))
      ensures error == Some(PipelineCanceled) ==>
                && |results| < |order| && canceledAt(|results|)
                && (results != [] ==> !StopsAfter(c, order, |results| - 1))
      ensures error.Some? && error.value != PipelineCanceled ==>
                && results != [] && StopsAfter(c, order, |results| - 1)
                && error.value == (if OutcomeAt(c, order, |results| - 1).err
                                   then StageFailed(order[|results| - 1])
                                   else ConditionNotMet(order[|results| - 1]))
      ensures EndsWith(c, order, canceledAt, |results|, error)
    {
      for n := 0 to |order|
        invariant |results| == n && results == ResultsOf(c, order[..n])
        invariant completed == CompletedAfter(c, order[..n])
        invariant forall k :: 0 <= k < n ==> !canceledAt(k) && !StopsAfter(c, order, k)
        invariant Undisturbed(c, order, canceledAt, n)
      {
        if canceledAt(n) {
          return Some(PipelineCanceled);
        }
        assert order[n] in Elements(order);
        NamedStageExists(c.stages, order[n]);
        var stage := GetStage(c.stages, order[n]);
        var outcome := ExecuteStage(c, stage.value, completed);
        ResultsExtend(c, order, n);
        results := results + [outcome.result];
        completed := completed[order[n] := outcome.result];
        if outcome.err {
          if c.failFast {
            return Some(StageFailed(order[n]));
          }
        } else if !ShouldContinue(stage.value.continueOn, outcome.result.status) && c.failFast {
          return Some(ConditionNotMet(order[n]));
        }
      }
      assert order[..|order|] == order;
      error := None;
    }
  }

  datatype PipelineError = Invalid(reason: ValidationError) | NoRunner | NotSortable | RunFailed(error: RunError)

  ghost predicate AllKindsRegistered(c: Config) {
    forall s :: s in c.stages ==> s.kind in c.registry
  }

  ghost predicate Acceptable(c: Config) {
    c.stages != [] && WellFormed(c.stages) && AllKindsRegistered(c)
  }

  /** Why a pipeline is not run at all. */
  ghost predicate Refused(c: Config, error: PipelineError) {
    match error
    case Invalid(reason) => Reason(c.stages, reason)
    case NoRunner => c.stages != [] && WellFormed(c.stages) && !AllKindsRegistered(c)
    case _ => false
  }

  /** DefaultExecutor.Validate. */
  method ValidateConfig(c: Config) returns (error: Option<PipelineError>)
    ensures error == None <==> Acceptable(c)
    ensures error.Some? ==> Refused(c, error.value)
  {
    var invalid := Validate(c.stages);
    if invalid.Some? {
      return Some(Invalid(invalid.value));
    }
    for i := 0 to |c.stages|
      invariant forall j :: 0 <= j < i ==> c.stages[j].kind in c.registry
    {
      if c.stages[i].kind !in c.registry {
        assert c.stages[i] in c.stages;
        return Some(NoRunner);
      }
    }
    error := None;
  }

  /** Execute for a sequential pipeline. The sort after validation never fails; an acceptable pipeline
      runs along a topological order and ends as that order, the runners and the context decide. No
      status is set for a pipeline that is refused. */
  method ExecutePipeline(c: Config, canceledAt: nat -> bool)
    returns (run: Run, order: seq<Name>, status: Option<Status>, error: Option<PipelineError>)
    ensures fresh(run)
    ensures Acceptable(c) ==>
              && (error.Some? ==> error.value.RunFailed?)
              && IsTopologicalOrder(c.stages, order) && |run.results| <= |order|
              && run.results == ResultsOf(c, order[..|run.results|])
              && run.completed == CompletedAfter(c, order[..|run.results|])
              && EndsWith(c, order, canceledAt, |run.results|,
                          if error.Some? then Some(error.value.error) else None)
              && status == Some(if error.Some? then Failed else OverallStatus(run.results))
    ensures !Acceptable(c) ==> error.Some? && Refused(c, error.value) && run.results == [] && status == None
    ensures Acceptable(c) && (forall k :: 0 <= k < |c.stages| ==> !canceledAt(k)) ==>
              (error.None? <==> !c.failFast || forall k :: 0 <= k < |order| ==> Passes(c, order, k))
  {
    run := new Run();
    order, status := [], None;
    error := ValidateConfig(c);
    if error.Some? {
      return;
    }
    var sorted := TopologicalSort(c.stages);
    if sorted.None? {
      status := Some(Failed);
      error := Some(NotSortable);
      return;
    }
    order := sorted.value;
    var runError := run.ExecuteSequential(c, order, canceledAt);
    ghost var live := forall k :: 0 <= k < |c.stages| ==> !canceledAt(k);
    if live {
      EndsCleanExactly(c, order, canceledAt, |run.results|, runError);
    }
    if runError.Some? {
      status := Some(Failed);
      error := Some(RunFailed(runError.value));
      return;
    }
    assert order[..|order|] == order;
    var overall := DetermineOverallStatus(run.results);
    status := Some(overall);
    error := None;
  }

  /** Under a live context a run ends without error exactly if every stage lets it go on. */
  lemma EndsCleanExactly(c: Config, order: seq<Name>, canceledAt: nat -> bool, ran: nat, error: Option<RunError>)
    requires EndsWith(c, order, canceledAt, ran, error) && forall k :: 0 <= k < |order| ==> !canceledAt(k)
    ensures error.None? <==> !c.failFast || forall k :: 0 <= k < |order| ==> Passes(c, order, k)
  {
    if error.Some? {
      assert !Passes(c, order, ran - 1);
    }
  }

  /** If every stage says Always, a fail-fast run ends only by an error or a cancellation. */
  lemma AlwaysGoesOn(c: Config, order: seq<Name>, canceledAt: nat -> bool, ran: nat, error: Option<RunError>)
    requires EndsWith(c, order, canceledAt, ran, error)
    requires forall k :: 0 <= k < |order| ==> ConditionOf(c, order[k]) == Always
    ensures !(error.Some? && error.value.ConditionNotMet?)
    ensures error.None? || canceledAt(ran) || (ran > 0 && OutcomeAt(c, order, ran - 1).err)
  {
  }

  // ---- Dry runs ----

  lemma DryRunOutcome(c: Config, name: Name, completed: Completed)
    requires c.dryRun && name in Names(c.stages)
    ensures Execute(c, name, completed) == Outcome(StageResult(name, Skipped, map[]), false)
  {
    NamedStageExists(c.stages, name);
  }

  /** A dry run skips every stage, whatever runners there are. */
  lemma DryRunSkips(c: Config, order: seq<Name>, k: nat)
    requires c.dryRun && Elements(order) <= Names(c.stages) && k < |order|
    ensures ResultsOf(c, order)[k] == StageResult(order[k], Skipped, map[]) && !OutcomeAt(c, order, k).err
  {
    assert order[k] in Elements(order);
    DryRunOutcome(c, order[k], CompletedAfter(c, order[..k]));
  }

  /** So under fail-fast it stops behind the first stage that does not say Always. */
  lemma DryRunStops(c: Config, order: seq<Name>, canceledAt: nat -> bool, ran: nat, error: Option<RunError>)
    requires c.dryRun && c.failFast && Elements(order) <= Names(c.stages)
    requires EndsWith(c, order, canceledAt, ran, error) && forall k :: 0 <= k < |order| ==> !canceledAt(k)
    ensures error == None <==> forall k :: 0 <= k < |order| ==> ConditionOf(c, order[k]) == Always
    ensures error.Some? ==>
              && ran > 0 && error.value == ConditionNotMet(order[ran - 1])
              && ConditionOf(c, order[ran - 1]) != Always
              && forall k :: 0 <= k < ran - 1 ==> ConditionOf(c, order[k]) == Always
  {
    forall k | 0 <= k < |order|
      ensures Passes(c, order, k) <==> ConditionOf(c, order[k]) == Always
      ensures !OutcomeAt(c, order, k).err
    {
      DryRunSkips(c, order, k);
    }
  }
}
