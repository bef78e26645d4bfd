/** Findings, the controls they violate and the assessment of a control, from
    internal/compliance/mapper.go. */
module Mapper {
  import opened Identifiers
  import opened CweIndex

  const MAX_FINDINGS := 100000

  datatype Severity = Critical | High | Medium | Low | Info | Unknown(name: string)

  datatype Finding = Finding(id: string, rule: string, description: string, severity: Severity)

  /** A finding with the ids found in its text; the order of each list is that of a Go map. */
  datatype EnrichedFinding = EnrichedFinding(
    finding: Finding, cweIds: seq<string>, controlIds: seq<string>, cveIds: seq<string>)

  datatype Control = Control(framework: string, id: string, cweMappings: seq<string>)
  {
    function Key(): string { framework + ":" + id }
  }

  datatype Status = NotAssessed | Compliant | Partial | NonCompliant

  datatype Assessment = Assessment(
    control: Control, status: Status, findings: seq<string>, findingCount: nat, criticalCount: nat, highCount: nat)

  // ---- Enrichment ----

  function CwesOf(f: Finding): set<string> {
    {Extract(Cwe, f.rule), Extract(Cwe, f.description)} - {""}
  }

  function CvesOf(f: Finding): set<string> {
    {Extract(Cve, f.rule), Extract(Cve, f.id), Extract(Cve, f.description)} - {""}
  }

  /** A finding's ids are the first ones written in its texts: in rule and description for weaknesses,
      in the finding's own id too for vulnerabilities. */
  lemma IdsOfFinding(f: Finding, w: string)
    ensures w in CwesOf(f) <==> FirstId(Cwe, f.rule, w) || FirstId(Cwe, f.description, w)
    ensures w in CvesOf(f) <==> FirstId(Cve, f.rule, w) || FirstId(Cve, f.id, w) || FirstId(Cve, f.description, w)
  {
    ExtractExactly(Cwe, f.rule, w);
    ExtractExactly(Cwe, f.description, w);
    ExtractExactly(Cve, f.rule, w);
    ExtractExactly(Cve, f.id, w);
    ExtractExactly(Cve, f.description, w);
    assert !IsId(Cwe, "") && !IsId(Cve, "");
  }

  /** The keys of the controls that the index gives to some of the weaknesses. */
  function KeysOf(history: seq<Mapping>, cweIds: set<string>): set<string> {
    set c, r | c in cweIds && r in RefsIn(history, Normalize(c)) :: r.Key()
  }

  /** `s` lists the members of `all` once each. */
  ghost predicate Lists<T(!new)>(s: seq<T>, all: set<T>) {
    (forall x :: x in s <==> x in all) && forall i, j :: 0 <= i < j < |s| ==> s[i] != s[j]
  }

  ghost predicate Enriches(history: seq<Mapping>, f: Finding, e: EnrichedFinding) {
    e.finding == f && Lists(e.cweIds, CwesOf(f)) && Lists(e.controlIds, KeysOf(history, CwesOf(f))) &&
    Lists(e.cveIds, CvesOf(f))
  }

  /** Ranging over a Go map: any order. */
  method Listed(all: set<string>) returns (s: seq<string>)
    ensures Lists(s, all)
  {
    s := [];
    var rest := all;
    while rest != {}
      invariant rest <= all && Lists(s, all - rest)
    {
      var x :| x in rest;
      s, rest := s + [x], rest - {x};
    }
  }

  method ExtractCWEsFromFinding(f: Finding) returns (ids: seq<string>)
    ensures Lists(ids, CwesOf(f))
  {
    var cweSet: set<string> := {};
    var cwe := ExtractCWEFromString(f.rule);
    if cwe != "" {
      cweSet := cweSet + {cwe};
    }
    cwe := ExtractCWEFromString(f.description);
    if cwe != "" {
      cweSet := cweSet + {cwe};
    }
    assert cweSet == CwesOf(f);
    ids := Listed(cweSet);
  }

  method ExtractCVEsFromFinding(f: Finding) returns (ids: seq<string>)
    ensures Lists(ids, CvesOf(f))
  {
    var cveSet: set<string> := {};
    var cve := ExtractCVEFromString(f.rule);
    if cve != "" {
      cveSet := cveSet + {cve};
    }
    cve := ExtractCVEFromString(f.id);
    if cve != "" {
      cveSet := cveSet + {cve};
    }
    cve := ExtractCVEFromString(f.description);
    if cve != "" {
      cveSet := cveSet + {cve};
    }
    assert cveSet == CvesOf(f);
    ids := Listed(cveSet);
  }

  function Members(s: seq<string>): set<string> {
    set x | x in s
  }

  method MapCWEsToControls(index: CWEMapper, cweIds: seq<string>) returns (ids: seq<string>)
    requires index.Valid()
    ensures Lists(ids, KeysOf(index.history, Members(cweIds)))
  {
    var controlSet: set<string> := {};
    for i := 0 to |cweIds|
      invariant controlSet == KeysOf(index.history, Members(cweIds[..i]))
    {
      var refs := index.GetControls(cweIds[i]);
      controlSet := AddKeys(controlSet, refs);
      KeysOfOneMore(index.history, cweIds, i, refs);
    }
    assert cweIds[..|cweIds|] == cweIds;
    ids := Listed(controlSet);
  }

  function KeySet(refs: seq<ControlRef>): set<string> {
    set r | r in refs :: r.Key()
  }

  method AddKeys(before: set<string>, refs: seq<ControlRef>) returns (keys: set<string>)
    ensures keys == before + KeySet(refs)
  {
    keys := before;
    for j := 0 to |refs|
      invariant keys == before + KeySet(refs[..j])
    {
      keys := keys + {refs[j].Key()};
      assert refs[..j + 1] == refs[..j] + [refs[j]];
    }
    assert refs[..|refs|] == refs;
  }

  lemma KeysOfOneMore(history: seq<Mapping>, cweIds: seq<string>, i: nat, refs: seq<ControlRef>)
    requires i < |cweIds| && refs == RefsIn(history, Normalize(cweIds[i]))
    ensures KeysOf(history, Members(cweIds[..i + 1])) == KeysOf(history, Members(cweIds[..i])) + KeySet(refs)
  {
    assert cweIds[..i + 1] == cweIds[..i] + [cweIds[i]];
  }

  datatype Enrichment = Enriched(findings: seq<EnrichedFinding>) | LimitExceeded | Cancelled

  /** `enriched` holds the first `n` findings with their ids. */
  ghost predicate EnrichedTo(history: seq<Mapping>, findings: seq<Finding>, n: nat, enriched: seq<EnrichedFinding>) {
    |enriched| == n <= |findings| && forall i :: 0 <= i < n ==> Enriches(history, findings[i], enriched[i])
  }

  ghost predicate AllEnriched(history: seq<Mapping>, findings: seq<Finding>, enriched: seq<EnrichedFinding>) {
    EnrichedTo(history, findings, |findings|, enriched)
  }

  /** `cancelled(i)` says whether the context is done when the loop comes to finding `i`. */
  method Enrich(index: CWEMapper, findings: seq<Finding>, cancelled: nat -> bool) returns (r: Enrichment)
    requires index.Valid()
    ensures r.LimitExceeded? <==> |findings| > MAX_FINDINGS
    ensures r.Cancelled? <==> |findings| <= MAX_FINDINGS && exists i :: 0 <= i < |findings| && cancelled(i)
    ensures r.Enriched? ==> AllEnriched(index.history, findings, r.findings)
  {
    if |findings| == 0 {
      return Enriched([]);
    }
    if |findings| > MAX_FINDINGS {
      return LimitExceeded;
    }
    var result: seq<EnrichedFinding> := [];
    for i := 0 to |findings|
      invariant EnrichedTo(index.history, findings, i, result)
      invariant forall j :: 0 <= j < i ==> !cancelled(j)
    {
      if cancelled(i) {
        return Cancelled;
      }
      var e := EnrichOne(index, findings[i]);
      result := result + [e];
    }
    return Enriched(result);
  }

  method EnrichOne(index: CWEMapper, f: Finding) returns (e: EnrichedFinding)
    requires index.Valid()
    ensures Enriches(index.history, f, e)
  {
    e := EnrichedFinding(f, [], [], []);
    var cweIds := ExtractCWEsFromFinding(f);
    assert Members(cweIds) == CwesOf(f);
    if |cweIds| > 0 {
      var controlIds := MapCWEsToControls(index, cweIds);
      e := e.(cweIds := cweIds, controlIds := controlIds);
    } else {
      assert KeysOf(index.history, CwesOf(f)) == {};
    }
    var cveIds := ExtractCVEsFromFinding(f);
    if |cveIds| > 0 {
      e := e.(cveIds := cveIds);
    }
  }

  // ---- Assessment ----

  predicate Matches(ctrl: Control, e: EnrichedFinding) {
    ctrl.Key() in e.controlIds || ctrl.id in e.controlIds || exists c :: c in e.cweIds && c in ctrl.cweMappings
  }

  /** The first finding with its id that violates the control. */
  predicate IsFirstMatch(ctrl: Control, fs: seq<EnrichedFinding>, i: nat)
    requires i < |fs|
  {
    Matches(ctrl, fs[i]) &&
    forall j :: 0 <= j < i && fs[j].finding.id == fs[i].finding.id ==> !Matches(ctrl, fs[j])
  }

  /** The naive search: the positions of the first matches among the first `n` findings. */
  function FirstMatches(ctrl: Control, fs: seq<EnrichedFinding>, n: nat): (at: seq<nat>)
    requires n <= |fs|
    ensures forall k :: 0 <= k < |at| ==> at[k] < n
  {
    if n == 0 then []
    else FirstMatches(ctrl, fs, n - 1) + if IsFirstMatch(ctrl, fs, n - 1) then [n - 1] else []
  }

  function IdsAt(fs: seq<EnrichedFinding>, at: seq<nat>): (ids: seq<string>)
    requires forall k :: 0 <= k < |at| ==> at[k] < |fs|
    ensures |ids| == |at| && forall k :: 0 <= k < |at| ==> ids[k] == fs[at[k]].finding.id
  {
    if at == [] then [] else IdsAt(fs, at[..|at| - 1]) + [fs[at[|at| - 1]].finding.id]
  }

  function CountAt(fs: seq<EnrichedFinding>, at: seq<nat>, severity: Severity): nat
    requires forall k :: 0 <= k < |at| ==> at[k] < |fs|
  {
    if at == [] then 0
    else CountAt(fs, at[..|at| - 1], severity) + if fs[at[|at| - 1]].finding.severity == severity then 1 else 0
  }

  function StatusFor(count: nat, critical: nat, high: nat): Status {
    if count == 0 then Compliant else if critical > 0 || high > 0 then NonCompliant else Partial
  }

  function Assess(ctrl: Control, fs: seq<EnrichedFinding>): Assessment {
    var at := FirstMatches(ctrl, fs, |fs|);
    var critical, high := CountAt(fs, at, Critical), CountAt(fs, at, High);
    Assessment(ctrl, StatusFor(|at|, critical, high), IdsAt(fs, at), |at|, critical, high)
  }

  method FindingMatches(ctrl: Control, cweSet: set<string>, e: EnrichedFinding) returns (matched: bool)
    requires cweSet == Members(ctrl.cweMappings)
    ensures matched == Matches(ctrl, e)
  {
    matched := false;
    var controlKey := ctrl.Key();
    for k := 0 to |e.controlIds|
      invariant !matched
      invariant forall j :: 0 <= j < k ==> e.controlIds[j] != controlKey && e.controlIds[j] != ctrl.id
    {
      if e.controlIds[k] == controlKey || e.controlIds[k] == ctrl.id {
        return true;
      }
    }
    for k := 0 to |e.cweIds|
      invariant !matched
      invariant forall j :: 0 <= j < k ==> e.cweIds[j] !in cweSet
    {
      if e.cweIds[k] in cweSet {
        return true;
      }
    }
  }

  function MatchedIds(ctrl: Control, fs: seq<EnrichedFinding>, n: nat): set<string>
    requires n <= |fs|
  {
    set j | 0 <= j < n && Matches(ctrl, fs[j]) :: fs[j].finding.id
  }

  lemma OneMoreFinding(ctrl: Control, fs: seq<EnrichedFinding>, i: nat)
    requires i < |fs|
    ensures IsFirstMatch(ctrl, fs, i) <==> Matches(ctrl, fs[i]) && fs[i].finding.id !in MatchedIds(ctrl, fs, i)
    ensures MatchedIds(ctrl, fs, i + 1) ==
            MatchedIds(ctrl, fs, i) + if Matches(ctrl, fs[i]) then {fs[i].finding.id} else {}
  {
  }

  /** What the loop knows after `n` findings. */
  ghost predicate Tallied(ctrl: Control, fs: seq<EnrichedFinding>, n: nat, ids: seq<string>, critical: nat, high: nat)
    requires n <= |fs|
  {
    var at := FirstMatches(ctrl, fs, n);
    ids == IdsAt(fs, at) && critical == CountAt(fs, at, Critical) && high == CountAt(fs, at, High)
  }

  lemma TallyOneMore(ctrl: Control, fs: seq<EnrichedFinding>, i: nat, ids: seq<string>, critical: nat, high: nat)
    requires i < |fs| && Tallied(ctrl, fs, i, ids, critical, high)
    ensures var f := fs[i].finding;
            if IsFirstMatch(ctrl, fs, i) then
              Tallied(ctrl, fs, i + 1, ids + [f.id], critical + (if f.severity == Critical then 1 else 0),
                      high + if f.severity == High then 1 else 0)
            else Tallied(ctrl, fs, i + 1, ids, critical, high)
  {
    var before := FirstMatches(ctrl, fs, i);
    assert (before + [i])[..|before|] == before;
    assert before + [] == before;
  }

  method AssessControl(ctrl: Control, findings: seq<EnrichedFinding>) returns (assessment: Assessment)
    ensures assessment == Assess(ctrl, findings)
  {
    var matchedSet: set<string> := {};
    var matchedFindings: seq<string> := [];
    var criticalCount, highCount := 0, 0;
    var cweSet := Members(ctrl.cweMappings);
    for i := 0 to |findings|
      invariant matchedSet == MatchedIds(ctrl, findings, i)
      invariant Tallied(ctrl, findings, i, matchedFindings, criticalCount, highCount)
    {
      var f := findings[i].finding;
      OneMoreFinding(ctrl, findings, i);
      TallyOneMore(ctrl, findings, i, matchedFindings, criticalCount, highCount);
      if f.id in matchedSet {
        continue;
      }
      var matched := FindingMatches(ctrl, cweSet, findings[i]);
      if matched {
        matchedSet := matchedSet + {f.id};
        matchedFindings := matchedFindings + [f.id];
        match f.severity
        case Critical => criticalCount := criticalCount + 1;
        case High => highCount := highCount + 1;
        case _ =>
      }
    }
    var status;
    if |matchedFindings| == 0 {
      status := Compliant;
    } else if criticalCount > 0 || highCount > 0 {
      status := NonCompliant;
    } else {
      status := Partial;
    }
    assessment := Assessment(ctrl, status, matchedFindings, |matchedFindings|, criticalCount, highCount);
  }

  // ---- What an assessment says ----

  lemma {:induction false} FirstMatchesAscend(ctrl: Control, fs: seq<EnrichedFinding>, n: nat)
    requires n <= |fs|
    ensures FirstMatchesOnly(ctrl, fs, FirstMatches(ctrl, fs, n))
  {
    if n > 0 {
      FirstMatchesAscend(ctrl, fs, n - 1);
      var before := FirstMatches(ctrl, fs, n - 1);
      assert before + [] == before;
    }
  }

  ghost predicate FirstMatchesOnly(ctrl: Control, fs: seq<EnrichedFinding>, at: seq<nat>) {
    (forall k :: 0 <= k < |at| ==> at[k] < |fs| && IsFirstMatch(ctrl, fs, at[k])) &&
    (forall j, k :: 0 <= j < k < |at| ==> at[j] < at[k])
  }

  lemma {:induction false} FirstMatchesComplete(ctrl: Control, fs: seq<EnrichedFinding>, n: nat, i: nat)
    requires i < n <= |fs|
    ensures i in FirstMatches(ctrl, fs, n) <==> IsFirstMatch(ctrl, fs, i)
  {
    if i < n - 1 {
      FirstMatchesComplete(ctrl, fs, n - 1, i);
    }
  }

  /** A matching finding has a first match with its id. */
  lemma {:induction false} HasFirstMatch(ctrl: Control, fs: seq<EnrichedFinding>, i: nat) returns (j: nat)
    requires i < |fs| && Matches(ctrl, fs[i])
    ensures j <= i && fs[j].finding.id == fs[i].finding.id && IsFirstMatch(ctrl, fs, j)
  {
    if IsFirstMatch(ctrl, fs, i) {
      j := i;
    } else {
      var earlier :| 0 <= earlier < i && fs[earlier].finding.id == fs[i].finding.id && Matches(ctrl, fs[earlier]);
      j := HasFirstMatch(ctrl, fs, earlier);
    }
  }

  ghost predicate IdMatches(ctrl: Control, fs: seq<EnrichedFinding>, id: string) {
    exists i :: 0 <= i < |fs| && Matches(ctrl, fs[i]) && fs[i].finding.id == id
  }

  /** The reported ids are distinct and are those of the matching findings. */
  lemma ReportedIds(ctrl: Control, fs: seq<EnrichedFinding>)
    ensures var ids := Assess(ctrl, fs).findings;
            (forall j, k :: 0 <= j < k < |ids| ==> ids[j] != ids[k]) &&
            (forall id :: id in ids <==> IdMatches(ctrl, fs, id))
  {
    var at, ids := FirstMatches(ctrl, fs, |fs|), Assess(ctrl, fs).findings;
    FirstMatchesAscend(ctrl, fs, |fs|);
    forall id | IdMatches(ctrl, fs, id)
      ensures id in ids
    {
      var i :| 0 <= i < |fs| && Matches(ctrl, fs[i]) && fs[i].finding.id == id;
      var j := HasFirstMatch(ctrl, fs, i);
      FirstMatchesComplete(ctrl, fs, |fs|, j);
      var k :| 0 <= k < |at| && at[k] == j;
      assert ids[k] == id;
    }
  }

  lemma {:induction false} CountsFit(fs: seq<EnrichedFinding>, at: seq<nat>)
    requires forall k :: 0 <= k < |at| ==> at[k] < |fs|
    ensures CountAt(fs, at, Critical) + CountAt(fs, at, High) <= |at|
    ensures CountAt(fs, at, Critical) + CountAt(fs, at, High) > 0 <==> exists i :: i in at && Severe(fs[i].finding)
  {
    if at != [] {
      CountsFit(fs, at[..|at| - 1]);
    }
  }

  predicate Severe(f: Finding) {
    f.severity == Critical || f.severity == High
  }

  lemma CountsAddUp(ctrl: Control, fs: seq<EnrichedFinding>)
    ensures var a := Assess(ctrl, fs);
            a.criticalCount + a.highCount <= a.findingCount == |a.findings|
  {
    CountsFit(fs, FirstMatches(ctrl, fs, |fs|));
  }

  /** The listed positions that hold findings of this severity. */
  function WithSeverity(fs: seq<EnrichedFinding>, at: seq<nat>, severity: Severity): set<nat> {
    set i | i in at && i < |fs| && fs[i].finding.severity == severity
  }

  lemma OneMoreWith(fs: seq<EnrichedFinding>, front: seq<nat>, last: nat, severity: Severity)
    requires last !in front && last < |fs|
    ensures |WithSeverity(fs, front + [last], severity)| ==
            |WithSeverity(fs, front, severity)| + if fs[last].finding.severity == severity then 1 else 0
  {
    var some, more := WithSeverity(fs, front, severity), WithSeverity(fs, front + [last], severity);
    assert forall i :: i in front + [last] <==> i in front || i == last;
    if fs[last].finding.severity == severity {
      assert more == some + {last};
    } else {
      assert more == some;
    }
  }

  lemma {:induction false} CountAtIsSize(fs: seq<EnrichedFinding>, at: seq<nat>, severity: Severity)
    requires forall k :: 0 <= k < |at| ==> at[k] < |fs|
    requires forall j, k :: 0 <= j < k < |at| ==> at[j] < at[k]
    ensures CountAt(fs, at, severity) == |WithSeverity(fs, at, severity)|
  {
    if at != [] {
      var front, last := at[..|at| - 1], at[|at| - 1];
      CountAtIsSize(fs, front, severity);
      assert at == front + [last];
      OneMoreWith(fs, front, last, severity);
    }
  }

  /** The findings listed are the first matches in their order, and the counts are how many of those are
      critical and how many high. */
  lemma AssessedExactly(ctrl: Control, fs: seq<EnrichedFinding>) returns (at: seq<nat>)
    ensures forall j, k :: 0 <= j < k < |at| ==> at[j] < at[k]
    ensures forall i :: i in at <==> 0 <= i < |fs| && IsFirstMatch(ctrl, fs, i)
    ensures var a := Assess(ctrl, fs);
            && a.control == ctrl && a.findingCount == |a.findings| == |at|
            && (forall k :: 0 <= k < |at| ==> at[k] in at && a.findings[k] == fs[at[k]].finding.id)
            && a.criticalCount ==
               |set i | 0 <= i < |fs| && IsFirstMatch(ctrl, fs, i) && fs[i].finding.severity == Critical|
            && a.highCount ==
               |set i | 0 <= i < |fs| && IsFirstMatch(ctrl, fs, i) && fs[i].finding.severity == High|
  {
    at := FirstMatches(ctrl, fs, |fs|);
    FirstMatchesAscend(ctrl, fs, |fs|);
    forall i ensures i in at <==> 0 <= i < |fs| && IsFirstMatch(ctrl, fs, i) {
      if 0 <= i < |fs| {
        FirstMatchesComplete(ctrl, fs, |fs|, i);
      }
    }
    CountAtIsSize(fs, at, Critical);
    CountAtIsSize(fs, at, High);
    assert WithSeverity(fs, at, Critical) ==
           set i | 0 <= i < |fs| && IsFirstMatch(ctrl, fs, i) && fs[i].finding.severity == Critical;
    assert WithSeverity(fs, at, High) ==
           set i | 0 <= i < |fs| && IsFirstMatch(ctrl, fs, i) && fs[i].finding.severity == High;
  }

  lemma CompliantWithoutMatch(ctrl: Control, fs: seq<EnrichedFinding>)
    ensures Assess(ctrl, fs).status == Compliant <==> forall i :: 0 <= i < |fs| ==> !Matches(ctrl, fs[i])
  {
    FirstMatchesAscend(ctrl, fs, |fs|);
    var at := FirstMatches(ctrl, fs, |fs|);
    if i :| 0 <= i < |fs| && Matches(ctrl, fs[i]) {
      var j := HasFirstMatch(ctrl, fs, i);
      FirstMatchesComplete(ctrl, fs, |fs|, j);
    } else if at != [] {
      assert false;
    }
  }

  /** Non-compliance needs a severe first match: a severe finding behind a mild one with the same id
      is not counted. */
  lemma NonCompliantExactly(ctrl: Control, fs: seq<EnrichedFinding>)
    ensures Assess(ctrl, fs).status == NonCompliant <==>
            exists i :: 0 <= i < |fs| && Severe(fs[i].finding) && IsFirstMatch(ctrl, fs, i)
  {
    CountsFit(fs, FirstMatches(ctrl, fs, |fs|));
    forall i: nat | i < |fs|
      ensures i in FirstMatches(ctrl, fs, |fs|) <==> IsFirstMatch(ctrl, fs, i)
    {
      FirstMatchesComplete(ctrl, fs, |fs|, i);
    }
  }

  ghost predicate DistinctIds(fs: seq<EnrichedFinding>) {
    forall i, j :: 0 <= i < j < |fs| ==> fs[i].finding.id != fs[j].finding.id
  }

  /** The same findings, in any order. */
  ghost predicate SameFindings(fs: seq<EnrichedFinding>, gs: seq<EnrichedFinding>) {
    forall e :: e in fs <==> e in gs
  }

  /** With distinct ids one severe matching finding is enough. */
  lemma NonCompliantWithDistinctIds(ctrl: Control, fs: seq<EnrichedFinding>)
    requires DistinctIds(fs)
    ensures Assess(ctrl, fs).status == NonCompliant <==>
            exists e :: e in fs && Severe(e.finding) && Matches(ctrl, e)
  {
    NonCompliantExactly(ctrl, fs);
    if e :| e in fs && Severe(e.finding) && Matches(ctrl, e) {
      var i :| 0 <= i < |fs| && fs[i] == e;
      assert IsFirstMatch(ctrl, fs, i);
    }
  }

  lemma CompliantForAll(ctrl: Control, fs: seq<EnrichedFinding>)
    ensures Assess(ctrl, fs).status == Compliant <==> forall e :: e in fs ==> !Matches(ctrl, e)
  {
    CompliantWithoutMatch(ctrl, fs);
  }

  ghost predicate SevereMatch(ctrl: Control, e: EnrichedFinding) {
    Severe(e.finding) && Matches(ctrl, e)
  }

  /** Some finding with this id matches, and all that do are severe. */
  ghost predicate OnlySevere(ctrl: Control, fs: seq<EnrichedFinding>, id: string) {
    && (exists e :: e in fs && Matches(ctrl, e) && e.finding.id == id)
    && forall e :: e in fs && Matches(ctrl, e) && e.finding.id == id ==> Severe(e.finding)
  }

  /** No severe finding matches, or one cannot be hidden by a mild one of its id. */
  ghost predicate Settled(ctrl: Control, fs: seq<EnrichedFinding>) {
    (forall e :: e in fs ==> !SevereMatch(ctrl, e)) || exists id :: OnlySevere(ctrl, fs, id)
  }

  /** Then the status depends only on which findings there are. */
  lemma SettledStatus(ctrl: Control, fs: seq<EnrichedFinding>)
    requires Settled(ctrl, fs)
    ensures Assess(ctrl, fs).status == NonCompliant <==> exists e :: e in fs && SevereMatch(ctrl, e)
  {
    NonCompliantExactly(ctrl, fs);
    if i :| 0 <= i < |fs| && Severe(fs[i].finding) && IsFirstMatch(ctrl, fs, i) {
      assert fs[i] in fs && SevereMatch(ctrl, fs[i]);
    }
    if id :| OnlySevere(ctrl, fs, id) {
      var e :| e in fs && Matches(ctrl, e) && e.finding.id == id;
      var i :| 0 <= i < |fs| && fs[i] == e;
      var j := HasFirstMatch(ctrl, fs, i);
      assert fs[j] in fs && SevereMatch(ctrl, fs[j]);
    }
  }

  lemma SettledForSame(ctrl: Control, fs: seq<EnrichedFinding>, gs: seq<EnrichedFinding>)
    requires SameFindings(fs, gs) && Settled(ctrl, fs)
    ensures Settled(ctrl, gs) && Assess(ctrl, gs).status == Assess(ctrl, fs).status
  {
    if id :| OnlySevere(ctrl, fs, id) {
      assert OnlySevere(ctrl, gs, id);
    }
    SettledStatus(ctrl, fs);
    SettledStatus(ctrl, gs);
    CompliantForAll(ctrl, fs);
    CompliantForAll(ctrl, gs);
  }

  /** The severe findings in their order, or the others. */
  function Part(fs: seq<EnrichedFinding>, severe: bool): seq<EnrichedFinding> {
    if fs == [] then []
    else (if Severe(fs[0].finding) == severe then [fs[0]] else []) + Part(fs[1..], severe)
  }

  lemma {:induction false} PartsMakeAll(fs: seq<EnrichedFinding>)
    ensures multiset(Part(fs, true)) + multiset(Part(fs, false)) == multiset(fs)
  {
    if fs != [] {
      PartsMakeAll(fs[1..]);
      assert fs == [fs[0]] + fs[1..];
    }
  }

  lemma {:induction false} PartHolds(fs: seq<EnrichedFinding>, severe: bool, e: EnrichedFinding)
    ensures e in Part(fs, severe) <==> e in fs && Severe(e.finding) == severe
  {
    if fs != [] {
      PartHolds(fs[1..], severe, e);
      assert e in fs <==> e == fs[0] || e in fs[1..];
    }
  }

  /** With the severe findings in front every severe match counts. */
  lemma SevereFirst(ctrl: Control, fs: seq<EnrichedFinding>, e: EnrichedFinding)
    requires e in fs && SevereMatch(ctrl, e)
    ensures Assess(ctrl, Part(fs, true) + Part(fs, false)).status == NonCompliant
  {
    var front, gs := Part(fs, true), Part(fs, true) + Part(fs, false);
    PartHolds(fs, true, e);
    var i :| 0 <= i < |front| && front[i] == e;
    assert gs[i] == e;
    var j := HasFirstMatch(ctrl, gs, i);
    assert gs[j] == front[j] && front[j] in front;
    PartHolds(fs, true, gs[j]);
    NonCompliantExactly(ctrl, gs);
  }

  /** With the mild findings in front none does, if every matching id has a mild match. */
  lemma MildFirst(ctrl: Control, fs: seq<EnrichedFinding>)
    requires forall id :: !OnlySevere(ctrl, fs, id)
    ensures Assess(ctrl, Part(fs, false) + Part(fs, true)).status != NonCompliant
  {
    var front, gs := Part(fs, false), Part(fs, false) + Part(fs, true);
    forall i | 0 <= i < |gs| && Severe(gs[i].finding)
      ensures !IsFirstMatch(ctrl, gs, i)
    {
      NotFirst(ctrl, fs, i);
    }
    NonCompliantExactly(ctrl, gs);
  }

  lemma NotFirst(ctrl: Control, fs: seq<EnrichedFinding>, i: nat)
    requires forall id :: !OnlySevere(ctrl, fs, id)
    requires var gs := Part(fs, false) + Part(fs, true); i < |gs| && Severe(gs[i].finding)
    ensures !IsFirstMatch(ctrl, Part(fs, false) + Part(fs, true), i)
  {
    var front, gs := Part(fs, false), Part(fs, false) + Part(fs, true);
    var e := gs[i];
    PartHolds(fs, false, e);
    PartHolds(fs, true, e);
    assert i >= |front|;
    if Matches(ctrl, e) {
      assert !OnlySevere(ctrl, fs, e.finding.id) && e in fs;
      var mild :| mild in fs && Matches(ctrl, mild) && mild.finding.id == e.finding.id && !Severe(mild.finding);
      PartHolds(fs, false, mild);
      var j :| 0 <= j < |front| && front[j] == mild;
      assert gs[j] == mild;
    }
  }

  lemma SamePermuted(fs: seq<EnrichedFinding>, gs: seq<EnrichedFinding>)
    requires multiset(gs) == multiset(fs)
    ensures SameFindings(fs, gs)
  {
    forall e
      ensures e in fs <==> e in gs
    {
      assert e in fs <==> e in multiset(fs);
      assert e in gs <==> e in multiset(gs);
    }
  }

  ghost predicate OrderFree(ctrl: Control, fs: seq<EnrichedFinding>) {
    forall gs :: multiset(gs) == multiset(fs) ==> Assess(ctrl, gs).status == Assess(ctrl, fs).status
  }

  lemma SettledIsFree(ctrl: Control, fs: seq<EnrichedFinding>)
    requires Settled(ctrl, fs)
    ensures OrderFree(ctrl, fs)
  {
    forall gs | multiset(gs) == multiset(fs)
      ensures Assess(ctrl, gs).status == Assess(ctrl, fs).status
    {
      SamePermuted(fs, gs);
      SettledForSame(ctrl, fs, gs);
    }
  }

  lemma BothOrders(fs: seq<EnrichedFinding>)
    ensures multiset(Part(fs, true) + Part(fs, false)) == multiset(fs)
    ensures multiset(Part(fs, false) + Part(fs, true)) == multiset(fs)
  {
    PartsMakeAll(fs);
  }

  lemma OrderMatters(ctrl: Control, fs: seq<EnrichedFinding>, e: EnrichedFinding)
    requires e in fs && SevereMatch(ctrl, e) && forall id :: !OnlySevere(ctrl, fs, id)
    ensures !OrderFree(ctrl, fs)
  {
    SevereFirst(ctrl, fs, e);
    MildFirst(ctrl, fs);
    BothOrders(fs);
  }

  /** The order of the findings does not change the status exactly when no severe finding matches, or
      some id has matching findings and all of them are severe. */
  lemma OrderFreeExactly(ctrl: Control, fs: seq<EnrichedFinding>)
    ensures OrderFree(ctrl, fs) <==> Settled(ctrl, fs)
  {
    if Settled(ctrl, fs) {
      SettledIsFree(ctrl, fs);
    } else {
      var e :| e in fs && SevereMatch(ctrl, e);
      OrderMatters(ctrl, fs, e);
    }
  }

  /** In particular when the ids are distinct. */
  lemma OrderIsIrrelevant(ctrl: Control, fs: seq<EnrichedFinding>, gs: seq<EnrichedFinding>)
    requires DistinctIds(fs) && SameFindings(fs, gs)
    ensures Assess(ctrl, fs).status == Assess(ctrl, gs).status
  {
    if e :| e in fs && SevereMatch(ctrl, e) {
      assert OnlySevere(ctrl, fs, e.finding.id);
    }
    SettledForSame(ctrl, fs, gs);
  }

  lemma DuplicateIdHidesSeverity()
    ensures var ctrl := Control("soc2", "CC6.1", ["CWE-89"]);
            var mild := EnrichedFinding(Finding("F-1", "", "CWE-89", Low), ["CWE-89"], [], []);
            var severe := EnrichedFinding(Finding("F-1", "", "CWE-89", Critical), ["CWE-89"], [], []);
            Assess(ctrl, [mild, severe]).status == Partial && Assess(ctrl, [severe, mild]).status == NonCompliant
  {
    var ctrl := Control("soc2", "CC6.1", ["CWE-89"]);
    var mild := EnrichedFinding(Finding("F-1", "", "CWE-89", Low), ["CWE-89"], [], []);
    var severe := EnrichedFinding(Finding("F-1", "", "CWE-89", Critical), ["CWE-89"], [], []);
    assert "CWE-89" in mild.cweIds && "CWE-89" in severe.cweIds && "CWE-89" in ctrl.cweMappings;
    assert Matches(ctrl, mild) && Matches(ctrl, severe);
    NonCompliantExactly(ctrl, [mild, severe]);
    CompliantWithoutMatch(ctrl, [mild, severe]);
    NonCompliantExactly(ctrl, [severe, mild]);
    assert IsFirstMatch(ctrl, [severe, mild], 0);
    assert Matches(ctrl, [mild, severe][0]);
  }

  function Badness(s: Status): nat {
    match s
    case NotAssessed => 0
    case Compliant => 1
    case Partial => 2
    case NonCompliant => 3
  }

  /** More findings never improve a status. */
  lemma AppendingNeverHelps(ctrl: Control, fs: seq<EnrichedFinding>, more: seq<EnrichedFinding>)
    ensures Badness(Assess(ctrl, fs + more).status) >= Badness(Assess(ctrl, fs).status)
  {
    var all := fs + more;
    assert forall i :: 0 <= i < |fs| ==> all[i] == fs[i];
    NonCompliantExactly(ctrl, fs);
    NonCompliantExactly(ctrl, all);
    CompliantWithoutMatch(ctrl, fs);
    CompliantWithoutMatch(ctrl, all);
    if i :| 0 <= i < |fs| && Severe(fs[i].finding) && IsFirstMatch(ctrl, fs, i) {
      assert IsFirstMatch(ctrl, all, i);
    }
    if i :| 0 <= i < |fs| && Matches(ctrl, fs[i]) {
      assert Matches(ctrl, all[i]);
    }
  }

  // ---- From findings to statuses ----

  /** The index gives the weakness to a control with this key. */
  ghost predicate KeyedTo(history: seq<Mapping>, cwe: string, key: string) {
    exists r :: r in RefsIn(history, cwe) && r.Key() == key
  }

  /** The finding names a weakness that the control lists, or that is indexed to a control whose key
      reads like this one's key or bare id. */
  ghost predicate ViolatesByKey(history: seq<Mapping>, ctrl: Control, f: Finding) {
    exists cwe :: cwe in CwesOf(f) &&
      (cwe in ctrl.cweMappings || KeyedTo(history, cwe, ctrl.Key()) || KeyedTo(history, cwe, ctrl.id))
  }

  lemma ExtractedAreNormal(f: Finding, cwe: string)
    requires cwe in CwesOf(f)
    ensures Normalize(cwe) == cwe
  {
    NormalizeSettles(f.rule);
    NormalizeSettles(f.description);
  }

  lemma KeysOfExtracted(history: seq<Mapping>, f: Finding, key: string)
    ensures key in KeysOf(history, CwesOf(f)) <==> exists cwe :: cwe in CwesOf(f) && KeyedTo(history, cwe, key)
  {
    forall cwe | cwe in CwesOf(f)
      ensures Normalize(cwe) == cwe
    {
      ExtractedAreNormal(f, cwe);
    }
    if cwe :| cwe in CwesOf(f) && KeyedTo(history, cwe, key) {
      var r :| r in RefsIn(history, cwe) && r.Key() == key;
      assert r in RefsIn(history, Normalize(cwe));
    }
  }

  lemma MatchesByKey(history: seq<Mapping>, ctrl: Control, f: Finding, e: EnrichedFinding)
    requires Enriches(history, f, e)
    ensures Matches(ctrl, e) <==> ViolatesByKey(history, ctrl, f)
  {
    KeysOfExtracted(history, f, ctrl.Key());
    KeysOfExtracted(history, f, ctrl.id);
  }

  /** From raw findings to statuses, whatever the names are. */
  lemma CompliantByKey(history: seq<Mapping>, ctrl: Control, findings: seq<Finding>, enriched: seq<EnrichedFinding>)
    requires AllEnriched(history, findings, enriched)
    ensures Assess(ctrl, enriched).status == Compliant <==>
            forall i :: 0 <= i < |findings| ==> !ViolatesByKey(history, ctrl, findings[i])
  {
    CompliantWithoutMatch(ctrl, enriched);
    forall i | 0 <= i < |findings|
      ensures Matches(ctrl, enriched[i]) <==> ViolatesByKey(history, ctrl, findings[i])
    {
      MatchesByKey(history, ctrl, findings[i], enriched[i]);
    }
  }

  ghost predicate IndexedTo(history: seq<Mapping>, cwe: string, ctrl: Control) {
    ControlRef(ctrl.framework, ctrl.id) in RefsIn(history, cwe)
  }

  ghost predicate Violates(history: seq<Mapping>, ctrl: Control, f: Finding) {
    exists cwe :: cwe in CwesOf(f) && (cwe in ctrl.cweMappings || IndexedTo(history, cwe, ctrl))
  }

  /** The control's framework and id hold no colon, so that its key has just one. */
  predicate PlainNames(ctrl: Control) {
    ':' !in ctrl.framework && ':' !in ctrl.id
  }

  lemma KeysMatchExactly(ctrl: Control, r: ControlRef)
    requires PlainNames(ctrl)
    ensures r.Key() == ctrl.Key() <==> r == ControlRef(ctrl.framework, ctrl.id)
    ensures r.Key() != ctrl.id
  {
    if r.Key() == ctrl.Key() {
      KeyOfOneColon(r.framework, r.controlId, ctrl.framework, ctrl.id);
    }
    assert r.Key()[|r.framework|] == ':';
  }

  lemma KeyedExactly(history: seq<Mapping>, ctrl: Control, cwe: string)
    requires PlainNames(ctrl)
    ensures KeyedTo(history, cwe, ctrl.Key()) <==> IndexedTo(history, cwe, ctrl)
    ensures !KeyedTo(history, cwe, ctrl.id)
  {
    forall r | r in RefsIn(history, cwe)
      ensures r.Key() == ctrl.Key() <==> r == ControlRef(ctrl.framework, ctrl.id)
      ensures r.Key() != ctrl.id
    {
      KeysMatchExactly(ctrl, r);
    }
    assert ControlRef(ctrl.framework, ctrl.id).Key() == ctrl.Key();
  }

  lemma ViolatesExactly(history: seq<Mapping>, ctrl: Control, f: Finding)
    requires PlainNames(ctrl)
    ensures ViolatesByKey(history, ctrl, f) <==> Violates(history, ctrl, f)
  {
    forall cwe | cwe in CwesOf(f)
      ensures KeyedTo(history, cwe, ctrl.Key()) <==> IndexedTo(history, cwe, ctrl)
      ensures !KeyedTo(history, cwe, ctrl.id)
    {
      KeyedExactly(history, ctrl, cwe);
    }
  }

  /** The assessment of these findings says what it should: compliant exactly when no finding names a
      weakness listed by the control or indexed to it. */
  ghost predicate Correct(history: seq<Mapping>, ctrl: Control, findings: seq<Finding>,
                          enriched: seq<EnrichedFinding>) {
    Assess(ctrl, enriched).status == Compliant <==>
      forall i :: 0 <= i < |findings| ==> !Violates(history, ctrl, findings[i])
  }

  /** A control without colons is assessed correctly, whatever the index holds. */
  lemma CompliantExactly(history: seq<Mapping>, ctrl: Control, findings: seq<Finding>, enriched: seq<EnrichedFinding>)
    requires PlainNames(ctrl) && AllEnriched(history, findings, enriched)
    ensures Correct(history, ctrl, findings, enriched)
  {
    CompliantByKey(history, ctrl, findings, enriched);
    forall i | 0 <= i < |findings|
      ensures ViolatesByKey(history, ctrl, findings[i]) <==> Violates(history, ctrl, findings[i])
    {
      ViolatesExactly(history, ctrl, findings[i]);
    }
  }

  // ---- What colons do ----

  /** A finding whose rule is a CWE id and that has no other text. */
  function Naming(cwe: string): Finding {
    Finding("", cwe, "", Low)
  }

  lemma NamesJustThat(cwe: string)
    requires Extract(Cwe, cwe) == cwe != ""
    ensures CwesOf(Naming(cwe)) == {cwe}
  {
    assert Extract(Cwe, "") == "";
  }

  /** The weakness is indexed to another control whose key reads like this one's key or id: the control
      comes out as violated although nothing it lists or is indexed to was found. */
  lemma Misread(ctrl: Control, cwe: string, r: ControlRef, e: EnrichedFinding)
    requires Extract(Cwe, cwe) == cwe != "" && cwe !in ctrl.cweMappings
    requires (r.Key() == ctrl.Key() || r.Key() == ctrl.id) && r != ControlRef(ctrl.framework, ctrl.id)
    requires Enriches([Mapping(cwe, r)], Naming(cwe), e)
    ensures !Violates([Mapping(cwe, r)], ctrl, Naming(cwe))
    ensures Assess(ctrl, [e]).status == Partial
  {
    var history := [Mapping(cwe, r)];
    NamesJustThat(cwe);
    assert history[..0] == [];
    assert RefsIn(history, cwe) == [r];
    assert KeyedTo(history, cwe, r.Key());
    MatchesByKey(history, ctrl, Naming(cwe), e);
    assert Matches(ctrl, [e][0]);
    CompliantWithoutMatch(ctrl, [e]);
    NonCompliantExactly(ctrl, [e]);
  }

  lemma {:induction false} CanList(all: set<string>) returns (s: seq<string>)
    ensures Lists(s, all)
  {
    s := [];
    if all != {} {
      var x :| x in all;
      s := CanList(all - {x});
      s := s + [x];
    }
  }

  lemma CanEnrich(history: seq<Mapping>, f: Finding) returns (e: EnrichedFinding)
    ensures Enriches(history, f, e)
  {
    var cweIds := CanList(CwesOf(f));
    var controlIds := CanList(KeysOf(history, CwesOf(f)));
    var cveIds := CanList(CvesOf(f));
    e := EnrichedFinding(f, cweIds, controlIds, cveIds);
  }

  function Ones(n: nat): (s: string)
    ensures |s| == n && forall i :: 0 <= i < n ==> s[i] == '1'
  {
    seq(n, i => '1')
  }

  lemma NumberIsId(n: nat)
    requires n > 0
    ensures Extract(Cwe, "CWE-" + Ones(n)) == "CWE-" + Ones(n)
  {
    var id := "CWE-" + Ones(n);
    assert id[0..4] == "CWE-";
    DigitsReach(id, 4, |id|);
    LeftmostIsExtracted(Cwe, id, 0);
    assert id[0..|id|] == id;
  }

  function Longest(ss: seq<string>): (n: nat)
    ensures forall s :: s in ss ==> |s| <= n
  {
    if ss == [] then 0
    else
      var n := Longest(ss[1..]);
      assert forall s :: s in ss ==> s == ss[0] || s in ss[1..];
      if |ss[0]| > n then |ss[0]| else n
  }

  /** Some CWE id is in none of the lists. */
  lemma UnlistedId(listed: seq<string>) returns (cwe: string)
    ensures Extract(Cwe, cwe) == cwe != "" && cwe !in listed
  {
    var n := Longest(listed) + 1;
    cwe := "CWE-" + Ones(n);
    NumberIsId(n);
  }

  /** A colon in the control's id or framework lets another control's key read like it. */
  lemma OtherReading(ctrl: Control) returns (r: ControlRef)
    requires !PlainNames(ctrl)
    ensures (r.Key() == ctrl.Key() || r.Key() == ctrl.id) && r != ControlRef(ctrl.framework, ctrl.id)
  {
    if ':' in ctrl.id {
      var a, b := SplitAtColon(ctrl.id);
      r := ControlRef(a, b);
      assert |b| < |ctrl.id|;
    } else {
      var a, b := SplitAtColon(ctrl.framework);
      r := ControlRef(a, b + ":" + ctrl.id);
      assert a + ":" + (b + ":" + ctrl.id) == (a + ":" + b) + ":" + ctrl.id;
      assert |a| < |ctrl.framework|;
    }
  }

  /** Whatever the index and the findings, the control is assessed correctly. */
  ghost predicate AlwaysCorrect(ctrl: Control) {
    forall history, findings, enriched ::
      AllEnriched(history, findings, enriched) ==> Correct(history, ctrl, findings, enriched)
  }

  lemma ColonMisleads(ctrl: Control)
    requires !PlainNames(ctrl)
    ensures !AlwaysCorrect(ctrl)
  {
    var r := OtherReading(ctrl);
    var cwe := UnlistedId(ctrl.cweMappings);
    var history := [Mapping(cwe, r)];
    var e := CanEnrich(history, Naming(cwe));
    Misread(ctrl, cwe, r, e);
    assert AllEnriched(history, [Naming(cwe)], [e]);
    assert !Correct(history, ctrl, [Naming(cwe)], [e]);
  }

  /** A control is always assessed correctly exactly when its framework and id hold no colon. The
      controls that ship with the program hold none. */
  lemma CorrectExactly(ctrl: Control)
    ensures AlwaysCorrect(ctrl) <==> PlainNames(ctrl)
  {
    if PlainNames(ctrl) {
      forall history, findings, enriched | AllEnriched(history, findings, enriched)
        ensures Correct(history, ctrl, findings, enriched)
      {
        CompliantExactly(history, ctrl, findings, enriched);
      }
    } else {
      ColonMisleads(ctrl);
    }
  }

  lemma SampleIds()
    ensures Extract(Cwe, "CWE-89") == "CWE-89" && Extract(Cwe, "") == ""
    ensures Extract(Cve, "CWE-89") == "" && Extract(Cve, "") == ""
  {
    var id := "CWE-89";
    assert id[0..4] == "CWE-" && DigitsEnd(id, 6) == 6;
    assert DigitsEnd(id, 5) == 6 && DigitsEnd(id, 4) == 6;
    LeftmostIsExtracted(Cwe, id, 0);
    assert id[0..6] == id;
  }

  lemma SampleKeys()
    ensures KeysOf([Mapping("CWE-89", ControlRef("a", "b"))], {"CWE-89"}) == {"a:b"}
  {
    var ref := ControlRef("a", "b");
    assert ref.Key() == "a:b";
  }

  /** The smallest such control: its id reads like the key of another. */
  lemma ColonsConfuse()
    ensures var history := [Mapping("CWE-89", ControlRef("a", "b"))];
            var ctrl := Control("soc2", "a:b", []);
            var e := EnrichedFinding(Naming("CWE-89"), ["CWE-89"], ["a:b"], []);
            && Enriches(history, Naming("CWE-89"), e) && !Violates(history, ctrl, Naming("CWE-89"))
            && Assess(ctrl, [e]).status == Partial
  {
    var ref := ControlRef("a", "b");
    var e := EnrichedFinding(Naming("CWE-89"), ["CWE-89"], ["a:b"], []);
    SampleIds();
    SampleKeys();
    assert CwesOf(Naming("CWE-89")) == {"CWE-89"} && CvesOf(Naming("CWE-89")) == {};
    assert ref.Key() == "a:b";
    Misread(Control("soc2", "a:b", []), "CWE-89", ref, e);
  }
}
