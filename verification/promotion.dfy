/**
 * The promotion allow path: the stressed-replay gate with its rounded degradation, the replay summary that records
 * it, the evidence packet, and the decision record that may promote only on top of all three. f64 values are exact
 * reals.
 */
module Promotion {
  import opened Wrappers
  import opened Text
  import opened Comparators
  import opened Reals
  import opened JsonCanonical

  datatype PromotionError =
    BaselineUnavailable | InvalidSummary | InvalidPacket | PlaceholderRejected | ReplayGateDenied | InvalidDecision

  datatype Scenario = Baseline | StressedExecution | DelayedExit

  datatype Outcome = Allow | Deny

  datatype Parameters = Parameters(slippage: real, fillRate: real, exitDelay: int)

  datatype ScenarioResult = ScenarioResult(
    scenario: Scenario, netPnl: real, degradation: Option<real>, outcome: Outcome, reasonCode: string,
    parameters: Parameters)

  datatype Summary = Summary(
    runId: string, outcome: Outcome, reasonCode: string, baseline: real, stressed: real, delayedExit: real,
    degradation: real, tolerance: real, scenarios: seq<ScenarioResult>)

  datatype GateEvaluation = GateEvaluation(degradation: real, outcome: Outcome, reasonCode: string)

  // ---------- the rounded gate ----------

  /** f64::round: to the nearest integer, halves away from zero. */
  function RoundHalfAway(x: real): int {
    if x >= 0.0 then (x + 0.5).Floor else -(-x + 0.5).Floor
  }

  function Degradation(baseline: real, stressed: real): real
    requires baseline > 0.0
  {
    var raw := (stressed - baseline) / baseline * 100.0;
    RoundHalfAway(raw * 1_000_000_000.0) as real / 1_000_000_000.0
  }

  function EvaluateGate(baseline: real, stressed: real): Result<GateEvaluation, PromotionError> {
    if baseline <= 0.0 then Failure(BaselineUnavailable)
    else
      var degradation := Degradation(baseline, stressed);
      Success(if degradation < -5.0
              then GateEvaluation(degradation, Deny, "counterfactual_replay_tolerance_breached")
              else GateEvaluation(degradation, Allow, "counterfactual_replay_tolerance_satisfied"))
  }

  lemma RoundNearest(x: real)
    ensures -0.5 <= x - RoundHalfAway(x) as real <= 0.5
    ensures x - RoundHalfAway(x) as real == 0.5 ==> x < 0.0
    ensures x - RoundHalfAway(x) as real == -0.5 ==> x > 0.0
  {
  }

  /** Rounding reaches an integer at or below n, for n below zero, from half a step above it. */
  lemma RoundsBelow(x: real, n: int)
    requires n < 0
    ensures RoundHalfAway(x) < n <==> x <= n as real - 0.5
  {
    RoundNearest(x);
    var r := RoundHalfAway(x);
    if r < n {
      assert r as real <= n as real - 1.0;
    } else {
      assert r as real >= n as real;
    }
  }

  /**
   * The gate allows exactly when the stressed P&L exceeds 95% of the baseline less five parts in 10^12 of it: the
   * slack is the half step of the rounding.
   */
  lemma GateAllowsIff(baseline: real, stressed: real)
    requires baseline > 0.0
    ensures EvaluateGate(baseline, stressed).Success?
    ensures EvaluateGate(baseline, stressed).value.outcome == Allow <==>
            stressed > baseline * (0.95 - 0.000_000_000_005)
  {
    var ratio := (stressed - baseline) / baseline;
    var scaled := ratio * 100.0 * 1_000_000_000.0;
    RoundsBelow(scaled, -5_000_000_000);
    DegradationAgainstLimit(RoundHalfAway(scaled));
    assert ratio * baseline == stressed - baseline;
    SignKept(ratio + 0.05 + 0.000_000_000_005, baseline);
    assert (ratio + 0.05 + 0.000_000_000_005) * baseline == stressed - baseline * (0.95 - 0.000_000_000_005);
  }

  lemma DegradationAgainstLimit(nanos: int)
    ensures nanos as real / 1_000_000_000.0 < -5.0 <==> nanos < -5_000_000_000
  {
  }

  // ---------- the replay summary ----------

  /** f64::EPSILON, two to the minus 52. */
  const EPSILON: real := 1.0 / 4_503_599_627_370_496.0

  const NANO: real := 0.000_000_001

  predicate Near(x: real, y: real, tolerance: real) {
    -tolerance <= x - y <= tolerance
  }

  predicate KnownReplayReason(code: string) {
    code in {"counterfactual_replay_run_started", "counterfactual_replay_run_completed",
             "counterfactual_replay_run_read",
             "counterfactual_replay_run_listed", "counterfactual_replay_invalid_payload",
             "counterfactual_replay_unauthorized_role",
             "counterfactual_replay_run_not_found", "counterfactual_replay_scenario_incomplete",
             "counterfactual_replay_tolerance_satisfied", "counterfactual_replay_tolerance_breached",
             "counterfactual_replay_baseline_unavailable", "counterfactual_replay_placeholder_rejected",
             "counterfactual_replay_dependency_unavailable", "counterfactual_replay_state_unavailable",
             "counterfactual_replay_persistence_unavailable"}
  }

  function FixedParameters(scenario: Scenario): Parameters {
    match scenario
    case Baseline => Parameters(1.0, 1.0, 0)
    case StressedExecution => Parameters(2.0, 0.5, 0)
    case DelayedExit => Parameters(1.0, 1.0, 60)
  }

  predicate AtFixedParameters(r: ScenarioResult) {
    var fixed := FixedParameters(r.scenario);
    && r.parameters.slippage > 0.0 && Near(r.parameters.slippage, fixed.slippage, EPSILON)
    && 0.0 < r.parameters.fillRate <= 1.0 && Near(r.parameters.fillRate, fixed.fillRate, EPSILON)
    && r.parameters.exitDelay >= 0 && r.parameters.exitDelay == fixed.exitDelay
  }

  predicate WellReported(r: ScenarioResult) {
    AtFixedParameters(r) && KnownReplayReason(r.reasonCode)
  }

  /** What the summary says of each scenario is what the scenario says. */
  predicate AgreesWithSummary(s: Summary, r: ScenarioResult) {
    match r.scenario
    case Baseline => Near(r.netPnl, s.baseline, NANO)
    case StressedExecution =>
      Near(r.netPnl, s.stressed, NANO) && r.outcome == s.outcome && Normalize(r.reasonCode) == Normalize(s.reasonCode)
    case DelayedExit => Near(r.netPnl, s.delayedExit, NANO)
  }

  ghost predicate OnlyAt(scenarios: seq<ScenarioResult>, kind: Scenario, i: nat) {
    i < |scenarios| && forall j :: 0 <= j < |scenarios| ==> (scenarios[j].scenario == kind <==> j == i)
  }

  ghost predicate OccursOnce(scenarios: seq<ScenarioResult>, kind: Scenario) {
    exists i: nat :: OnlyAt(scenarios, kind, i)
  }

  ghost predicate EachOnce(scenarios: seq<ScenarioResult>) {
    |scenarios| == 3 && forall kind: Scenario :: OccursOnce(scenarios, kind)
  }

  predicate GateAgrees(s: Summary) {
    var gate := EvaluateGate(s.baseline, s.stressed);
    && gate.Success?
    && Near(gate.value.degradation, s.degradation, NANO) && gate.value.outcome == s.outcome
    && Normalize(gate.value.reasonCode) == Normalize(s.reasonCode)
  }

  /** Each scenario once, at its fixed parameters, with a gate outcome recomputed from the two P&Ls. */
  ghost predicate SoundSummary(s: Summary) {
    && Normalize(s.runId) != "" && KnownReplayReason(s.reasonCode) && Near(s.tolerance, -5.0, EPSILON)
    && GateAgrees(s) && EachOnce(s.scenarios)
    && (forall r :: r in s.scenarios ==> WellReported(r))
    && (forall r :: r in s.scenarios ==> AgreesWithSummary(s, r))
  }

  method FindScenario(scenarios: seq<ScenarioResult>, kind: Scenario)
    returns (first: Option<ScenarioResult>, count: nat)
    ensures count == 0 <==> first.None?
    ensures first.Some? ==> first.value in scenarios && first.value.scenario == kind
    ensures first.None? ==> forall r :: r in scenarios ==> r.scenario != kind
    ensures count == 1 <==> OccursOnce(scenarios, kind)
  {
    first, count := None, 0;
    ghost var at: nat := 0;
    for i := 0 to |scenarios|
      invariant count == 0 <==> first.None?
      invariant count == 0 ==> forall j :: 0 <= j < i ==> scenarios[j].scenario != kind
      invariant count > 0 ==> at < i && scenarios[at].scenario == kind && first == Some(scenarios[at])
      invariant count == 1 ==> forall j :: 0 <= j < i ==> (scenarios[j].scenario == kind <==> j == at)
      invariant count > 1 ==> exists j, k :: 0 <= j < k < i && scenarios[j].scenario == kind
                                             && scenarios[k].scenario == kind
    {
      if scenarios[i].scenario == kind {
        if count == 0 {
          first, at := Some(scenarios[i]), i;
        }
        count := count + 1;
      }
    }
    if count == 1 {
      assert OnlyAt(scenarios, kind, at);
    } else if count > 1 {
      var j, k :| 0 <= j < k < |scenarios| && scenarios[j].scenario == kind && scenarios[k].scenario == kind;
      assert forall i: nat :: OnlyAt(scenarios, kind, i) ==> j == i && k == i;
    } else {
      forall i: nat | i < |scenarios| ensures !OnlyAt(scenarios, kind, i) {
        assert scenarios[i].scenario != kind;
      }
    }
  }

  method EachAtFixedParameters(scenarios: seq<ScenarioResult>) returns (each: bool)
    ensures each <==> forall r :: r in scenarios ==> WellReported(r)
  {
    each := true;
    for i := 0 to |scenarios|
      invariant each <==> forall r :: r in scenarios[..i] ==> WellReported(r)
    {
      assert scenarios[..i + 1] == scenarios[..i] + [scenarios[i]];
      if !WellReported(scenarios[i]) {
        each := false;
      }
    }
    assert scenarios[..|scenarios|] == scenarios;
  }

  method ScenariosAgree(s: Summary) returns (agree: bool)
    ensures agree <==> EachOnce(s.scenarios) && forall r :: r in s.scenarios ==> AgreesWithSummary(s, r)
  {
    var baseline, baselines := FindScenario(s.scenarios, Baseline);
    var stressed, stresseds := FindScenario(s.scenarios, StressedExecution);
    var delayed, delays := FindScenario(s.scenarios, DelayedExit);
    OnceByKind(s.scenarios);
    if baselines != 1 || stresseds != 1 || delays != 1 || |s.scenarios| != 3 {
      return false;
    }
    FoundAreAll(s, baseline.value, stressed.value, delayed.value);
    return AgreesWithSummary(s, baseline.value) && AgreesWithSummary(s, stressed.value)
           && AgreesWithSummary(s, delayed.value);
  }

  method ValidateReplaySummary(s: Summary) returns (r: Result<(), PromotionError>)
    ensures r.Success? <==> SoundSummary(s)
    ensures r.Failure? ==> r.error == if s.baseline <= 0.0 then BaselineUnavailable else InvalidSummary
  {
    var gate := EvaluateGate(s.baseline, s.stressed);
    if gate.Failure? {
      return Failure(gate.error);
    }
    var agree := ScenariosAgree(s);
    var each := EachAtFixedParameters(s.scenarios);
    if agree && each && GateAgrees(s) && Normalize(s.runId) != "" && KnownReplayReason(s.reasonCode)
       && Near(s.tolerance, -5.0, EPSILON) {
      return Success(());
    }
    return Failure(InvalidSummary);
  }

  lemma OnceByKind(scenarios: seq<ScenarioResult>)
    ensures (forall kind: Scenario :: OccursOnce(scenarios, kind))
       <==> && OccursOnce(scenarios, Baseline) && OccursOnce(scenarios, StressedExecution)
            && OccursOnce(scenarios, DelayedExit)
  {
    if && OccursOnce(scenarios, Baseline) && OccursOnce(scenarios, StressedExecution)
       && OccursOnce(scenarios, DelayedExit) {
      forall kind: Scenario ensures OccursOnce(scenarios, kind) {
        match kind
        case Baseline =>
        case StressedExecution =>
        case DelayedExit =>
      }
    }
  }

  /** When each scenario occurs once, checking the three that were found checks them all. */
  lemma FoundAreAll(s: Summary, b: ScenarioResult, x: ScenarioResult, d: ScenarioResult)
    requires b in s.scenarios && b.scenario == Baseline && x in s.scenarios && x.scenario == StressedExecution
    requires d in s.scenarios && d.scenario == DelayedExit
    requires OccursOnce(s.scenarios, Baseline) && OccursOnce(s.scenarios, StressedExecution)
    requires OccursOnce(s.scenarios, DelayedExit)
    ensures (forall r :: r in s.scenarios ==> AgreesWithSummary(s, r))
       <==> AgreesWithSummary(s, b) && AgreesWithSummary(s, x) && AgreesWithSummary(s, d)
  {
    forall r | r in s.scenarios ensures r == b || r == x || r == d {
      match r.scenario
      case Baseline => SameScenario(s.scenarios, r, b);
      case StressedExecution => SameScenario(s.scenarios, r, x);
      case DelayedExit => SameScenario(s.scenarios, r, d);
    }
  }

  lemma SameScenario(scenarios: seq<ScenarioResult>, r: ScenarioResult, t: ScenarioResult)
    requires r in scenarios && t in scenarios && r.scenario == t.scenario && OccursOnce(scenarios, r.scenario)
    ensures r == t
  {
    var i: nat :| OnlyAt(scenarios, r.scenario, i);
    var j :| 0 <= j < |scenarios| && scenarios[j] == r;
    var k :| 0 <= k < |scenarios| && scenarios[k] == t;
    assert j == i && k == i;
  }

  /** A sound summary allows exactly above the rounded five-percent line. */
  lemma SoundSummaryAllowsIff(s: Summary)
    requires SoundSummary(s)
    ensures s.baseline > 0.0
    ensures s.outcome == Allow <==> s.stressed > s.baseline * (0.95 - 0.000_000_000_005)
    ensures -NANO <= s.degradation - Degradation(s.baseline, s.stressed) <= NANO
  {
    GateAllowsIff(s.baseline, s.stressed);
  }

  // ---------- the evidence packet ----------

  datatype Action = Promote | Pause | Retire

  datatype State = Allowed | Denied

  datatype ThresholdOutcome = ThresholdOutcome(
    metricKey: string, comparator: Comparator, threshold: real, observed: real, passed: bool, reasonCode: string)

  datatype Decision = Decision(
    decisionId: string, candidateId: string, validationRunId: string, action: Action, state: State, reasonCode: string,
    observedMetrics: Json, evidencePacket: Json, thresholdResults: seq<ThresholdOutcome>, missingFields: seq<string>,
    gateEvaluation: Json, shadowReadiness: Option<Json>, actorId: string, correlationId: string, decidedAt: string,
    approvalRequestId: Option<string>, approvalReference: Option<string>)

  /** Outside code: the RFC 3339 UTC reader, and the reader of a replay summary out of JSON. */
  datatype Env = Env(instant: string -> Option<int>, decode: Json -> Option<Summary>)

  const SUMMARY_FIELD := "counterfactual_replay_summary"

  const REQUIRED_FIELDS := ["data_quality_report", "purged_cpcv_results", "calibration_report", SUMMARY_FIELD]

  function FieldValue(fields: seq<Field>, key: string): Option<Json> {
    if fields == [] then None else if fields[0].key == key then Some(fields[0].value) else FieldValue(fields[1..], key)
  }

  function Member(j: Json, key: string): Option<Json> {
    if j.Object? then FieldValue(j.fields, key) else None
  }

  /** Absent, null, blank text, or an empty object or array. */
  predicate IsMissing(value: Option<Json>) {
    match value
    case None => true
    case Some(Null) => true
    case Some(Str(text)) => Blank(text)
    case Some(Object(fields)) => fields == []
    case Some(Array(items)) => items == []
    case Some(_) => false
  }

  method ValidateEvidencePacket(action: Action, packet: Json) returns (r: Result<seq<string>, PromotionError>)
    ensures r.Success? <==> packet.Object?
    ensures r.Success? && action != Promote ==> r.value == []
    ensures r.Success? && action == Promote ==>
              forall key :: key in r.value <==> key in REQUIRED_FIELDS && IsMissing(Member(packet, key))
  {
    if !packet.Object? {
      return Failure(InvalidPacket);
    }
    if action != Promote {
      return Success([]);
    }
    var missing: seq<string> := [];
    for i := 0 to |REQUIRED_FIELDS|
      invariant forall key :: key in missing <==> key in REQUIRED_FIELDS[..i] && IsMissing(Member(packet, key))
    {
      var key := REQUIRED_FIELDS[i];
      assert REQUIRED_FIELDS[..i + 1] == REQUIRED_FIELDS[..i] + [key];
      if IsMissing(Member(packet, key)) {
        missing := missing + [key];
      }
    }
    assert REQUIRED_FIELDS[..|REQUIRED_FIELDS|] == REQUIRED_FIELDS;
    return Success(missing);
  }

  predicate IsPlaceholder(summary: Json) {
    var status := Member(summary, "status");
    status.Some? && status.value.Str? && Normalize(status.value.text) == "deferred_to_story_6_6"
  }

  /** The summary reads back, is sound, and its gate allows. */
  ghost predicate AllowsPromotion(env: Env, summary: Json) {
    && !IsPlaceholder(summary) && env.decode(summary).Some?
    && SoundSummary(env.decode(summary).value) && env.decode(summary).value.outcome == Allow
  }

  method ValidateSummaryForAllowPath(env: Env, summary: Json) returns (r: Result<(), PromotionError>)
    ensures r.Success? <==> AllowsPromotion(env, summary)
    ensures IsPlaceholder(summary) ==> r == Failure(PlaceholderRejected)
  {
    if IsPlaceholder(summary) {
      return Failure(PlaceholderRejected);
    }
    var parsed := env.decode(summary);
    if parsed.None? {
      return Failure(InvalidSummary);
    }
    var sound := ValidateReplaySummary(parsed.value);
    if sound.Failure? {
      return sound;
    }
    if parsed.value.outcome != Allow {
      return Failure(ReplayGateDenied);
    }
    return Success(());
  }

  // ---------- the decision record ----------

  predicate KnownDecisionReason(code: string) {
    code in {"promotion_decision_started", "promotion_decision_allowed", "promotion_decision_denied",
             "promotion_decision_read",
             "promotion_decision_listed", "promotion_decision_invalid_payload", "promotion_decision_unauthorized_role",
             "promotion_decision_not_found", "promotion_decision_unsupported_action",
             "promotion_decision_missing_evidence",
             "promotion_decision_threshold_failed", "promotion_decision_gate_denied",
             "promotion_decision_replay_gate_denied",
             "promotion_decision_approval_required", "promotion_decision_approval_invalid_state",
             "promotion_decision_dependency_unavailable", "promotion_decision_state_unavailable",
             "promotion_decision_persistence_unavailable"}
  }

  predicate ValidThresholdOutcome(t: ThresholdOutcome) {
    Normalize(t.metricKey) != "" && t.reasonCode in {"promotion_threshold_passed", "promotion_threshold_failed"}
  }

  /** The checks every record passes, whatever it decides. */
  predicate WellFormedDecision(env: Env, d: Decision) {
    && !Blank(d.decisionId) && !Blank(d.candidateId) && !Blank(d.validationRunId) && !Blank(d.reasonCode)
    && !Blank(d.actorId) && !Blank(d.correlationId) && !Blank(d.decidedAt)
    && env.instant(d.decidedAt).Some? && KnownDecisionReason(d.reasonCode)
    && d.observedMetrics.Object? && d.evidencePacket.Object? && d.gateEvaluation.Object?
    && (d.shadowReadiness.Some? ==> d.shadowReadiness.value.Object?)
    && (d.approvalReference.Some? ==> d.approvalRequestId.Some?)
    && forall t :: t in d.thresholdResults ==> ValidThresholdOutcome(t)
  }

  /** What an allowed promotion rests on. */
  ghost predicate Backed(env: Env, d: Decision) {
    && d.approvalReference.Some? && d.approvalRequestId.Some?
    && (forall t :: t in d.thresholdResults ==> t.passed)
    && d.missingFields == [] && (forall key :: key in REQUIRED_FIELDS ==> !IsMissing(Member(d.evidencePacket, key)))
    && Member(d.evidencePacket, SUMMARY_FIELD).Some?
    && AllowsPromotion(env, Member(d.evidencePacket, SUMMARY_FIELD).value)
  }

  method AllPassed(results: seq<ThresholdOutcome>) returns (passed: bool)
    ensures passed <==> forall t :: t in results ==> t.passed
  {
    for i := 0 to |results|
      invariant forall t :: t in results[..i] ==> t.passed
    {
      assert results[..i + 1] == results[..i] + [results[i]];
      if !results[i].passed {
        return false;
      }
    }
    assert results[..|results|] == results;
    return true;
  }

  /** Every gap of the packet is listed among the record's missing fields. */
  method GapsListed(missing: seq<string>, listed: seq<string>) returns (all: bool)
    ensures all <==> forall key :: key in missing ==> key in listed
  {
    for i := 0 to |missing|
      invariant forall key :: key in missing[..i] ==> key in listed
    {
      assert missing[..i + 1] == missing[..i] + [missing[i]];
      if missing[i] !in listed {
        return false;
      }
    }
    assert missing[..|missing|] == missing;
    return true;
  }

  /** A promotion lists the gaps of its packet. */
  ghost predicate GapsDeclared(d: Decision) {
    d.action == Promote ==> forall key :: key in REQUIRED_FIELDS && IsMissing(Member(d.evidencePacket, key)) ==>
                                            key in d.missingFields
  }

  ghost predicate AllowedIsClean(d: Decision) {
    d.state == Allowed ==> d.missingFields == [] && forall t :: t in d.thresholdResults ==> t.passed
  }

  /** An allowed promotion is approved, and a replay summary in its packet allows. */
  ghost predicate AllowPathHolds(env: Env, d: Decision) {
    d.action == Promote && d.state == Allowed ==>
      && d.approvalReference.Some?
      && var summary := Member(d.evidencePacket, SUMMARY_FIELD); summary.Some? ==> AllowsPromotion(env, summary.value)
  }

  /** What the validator enforces, by action and state. */
  ghost predicate ValidDecision(env: Env, d: Decision) {
    WellFormedDecision(env, d) && GapsDeclared(d) && AllowedIsClean(d) && AllowPathHolds(env, d)
  }

  method CheckGaps(d: Decision) returns (declared: bool)
    requires d.evidencePacket.Object?
    ensures declared <==> GapsDeclared(d)
  {
    if d.action != Promote {
      return true;
    }
    var missing := ValidateEvidencePacket(d.action, d.evidencePacket);
    declared := GapsListed(missing.value, d.missingFields);
  }

  method CheckAllowPath(env: Env, d: Decision) returns (holds: bool)
    ensures holds <==> AllowPathHolds(env, d)
  {
    if d.action != Promote || d.state != Allowed {
      return true;
    }
    if d.approvalReference.None? {
      return false;
    }
    var summary := Member(d.evidencePacket, SUMMARY_FIELD);
    if summary.None? {
      return true;
    }
    var allows := ValidateSummaryForAllowPath(env, summary.value);
    return allows.Success?;
  }

  method ValidatePromotionDecision(env: Env, d: Decision) returns (r: Result<(), PromotionError>)
    ensures r.Success? <==> ValidDecision(env, d)
  {
    if !WellFormedDecision(env, d) {
      return Failure(InvalidDecision);
    }
    var declared := CheckGaps(d);
    var holds := CheckAllowPath(env, d);
    var passed := AllPassed(d.thresholdResults);
    var clean := d.state == Allowed ==> passed && d.missingFields == [];
    return if declared && holds && clean then Success(()) else Failure(InvalidDecision);
  }

  /** A record may allow a promotion exactly when it is well formed and backed. */
  lemma AllowedPromotionIffBacked(env: Env, d: Decision)
    requires d.action == Promote && d.state == Allowed
    ensures ValidDecision(env, d) <==> WellFormedDecision(env, d) && Backed(env, d)
  {
    assert SUMMARY_FIELD == REQUIRED_FIELDS[3] && SUMMARY_FIELD in REQUIRED_FIELDS;
  }

  /**
   * Twice the slippage and half the fills under stress; a minute's delay in the delayed exit; the market as it was
   * otherwise.
   */
  predicate RunsAsPrescribed(r: ScenarioResult) {
    && Near(r.parameters.slippage, if r.scenario == StressedExecution then 2.0 else 1.0, EPSILON)
    && Near(r.parameters.fillRate, if r.scenario == StressedExecution then 0.5 else 1.0, EPSILON)
    && r.parameters.exitDelay == if r.scenario == DelayedExit then 60 else 0
  }

  /** An allowed promotion's replay is sound, and its stressed P&L is above the rounded five-percent line. */
  lemma AllowedPromotionSurvivesStress(env: Env, d: Decision) returns (s: Summary)
    requires d.action == Promote && d.state == Allowed && ValidDecision(env, d)
    ensures Member(d.evidencePacket, SUMMARY_FIELD).Some?
            && env.decode(Member(d.evidencePacket, SUMMARY_FIELD).value) == Some(s)
    ensures SoundSummary(s) && s.baseline > 0.0 && s.stressed > s.baseline * (0.95 - 0.000_000_000_005)
    ensures forall kind: Scenario :: OccursOnce(s.scenarios, kind)
    ensures forall r :: r in s.scenarios ==> RunsAsPrescribed(r)
  {
    AllowedPromotionIffBacked(env, d);
    s := env.decode(Member(d.evidencePacket, SUMMARY_FIELD).value).value;
    SoundSummaryAllowsIff(s);
  }

  predicate MeetsThreshold(t: ThresholdOutcome) {
    Compare(t.comparator, t.observed, t.threshold)
  }

  /** The validator takes `passed` as given: the comparator and the numbers beside it decide nothing. */
  lemma ThresholdNumbersAreTrusted(env: Env, d: Decision, i: nat, comparator: Comparator, threshold: real,
                                   observed: real)
    requires i < |d.thresholdResults|
    ensures var t := d.thresholdResults[i].(comparator := comparator, threshold := threshold, observed := observed);
            ValidDecision(env, d) <==> ValidDecision(env, d.(thresholdResults := d.thresholdResults[i := t]))
  {
    var t := d.thresholdResults[i].(comparator := comparator, threshold := threshold, observed := observed);
    var results := d.thresholdResults[i := t];
    SameJudgement(d.thresholdResults, results);
    SameJudgement(results, d.thresholdResults);
  }

  lemma SameJudgement(from: seq<ThresholdOutcome>, to: seq<ThresholdOutcome>)
    requires |from| == |to|
    requires forall i :: 0 <= i < |from| ==> from[i].metricKey == to[i].metricKey && from[i].passed == to[i].passed
                                             && from[i].reasonCode == to[i].reasonCode
    ensures (forall t :: t in from ==> t.passed) ==> forall t :: t in to ==> t.passed
    ensures (forall t :: t in from ==> ValidThresholdOutcome(t)) ==> forall t :: t in to ==> ValidThresholdOutcome(t)
  {
    forall t | t in to ensures (forall u :: u in from ==> u.passed) ==> t.passed
      ensures (forall u :: u in from ==> ValidThresholdOutcome(u)) ==> ValidThresholdOutcome(t)
    {
      var i :| 0 <= i < |to| && to[i] == t;
      assert from[i] in from;
    }
  }

  // ---------- a promotion allowed below its threshold ----------

  const SATISFIED := "counterfactual_replay_tolerance_satisfied"

  function ExampleScenario(scenario: Scenario, netPnl: real): ScenarioResult {
    ScenarioResult(scenario, netPnl, None, Allow, SATISFIED, FixedParameters(scenario))
  }

  function ExampleSummary(): Summary {
    Summary("1", Allow, SATISFIED, 100.0, 96.0, 99.0, Degradation(100.0, 96.0), -5.0,
            [ExampleScenario(Baseline, 100.0), ExampleScenario(StressedExecution, 96.0),
             ExampleScenario(DelayedExit, 99.0)])
  }

  lemma ExampleScenariosOnce()
    ensures EachOnce(ExampleSummary().scenarios)
  {
    var scenarios := ExampleSummary().scenarios;
    assert OnlyAt(scenarios, Baseline, 0) && OnlyAt(scenarios, StressedExecution, 1);
    assert OnlyAt(scenarios, DelayedExit, 2);
    OnceByKind(scenarios);
  }

  lemma ExampleGateAgrees()
    ensures GateAgrees(ExampleSummary())
  {
    GateAllowsIff(100.0, 96.0);
  }

  lemma ExampleIsSound()
    ensures SoundSummary(ExampleSummary())
  {
    ExampleScenariosOnce();
    ExampleGateAgrees();
    NotBlank("1", 0);
    NormalizeKeepsBlank("1");
    assert KnownReplayReason(SATISFIED);
    var scenarios := ExampleSummary().scenarios;
    forall r | r in scenarios ensures WellReported(r) && AgreesWithSummary(ExampleSummary(), r) {
      assert r == scenarios[0] || r == scenarios[1] || r == scenarios[2];
    }
  }

  function ExamplePacket(encoded: Json): Json {
    Object([Field("data_quality_report", Bool(true)), Field("purged_cpcv_results", Bool(true)),
            Field("calibration_report", Bool(true)), Field(SUMMARY_FIELD, encoded)])
  }

  function ExampleOutcome(): ThresholdOutcome {
    ThresholdOutcome("sharpe", Gte, 1.0, 0.0, true, "promotion_threshold_passed")
  }

  function ExampleDecision(decidedAt: string, encoded: Json): Decision {
    Decision("1", "1", "1", Promote, Allowed, "promotion_decision_allowed", Object([]), ExamplePacket(encoded),
             [ExampleOutcome()], [], Object([]), None, "1", "1", decidedAt, Some("1"), Some("1"))
  }

  lemma ExamplePacketIsComplete(encoded: Json)
    requires !IsMissing(Some(encoded))
    ensures forall key :: key in REQUIRED_FIELDS ==> !IsMissing(Member(ExamplePacket(encoded), key))
    ensures Member(ExamplePacket(encoded), SUMMARY_FIELD) == Some(encoded)
  {
    var fields := ExamplePacket(encoded).fields;
    forall i | 0 <= i < 4 ensures fields[i].key == REQUIRED_FIELDS[i] {
    }
    FieldAt(fields, 0);
    FieldAt(fields, 1);
    FieldAt(fields, 2);
    FieldAt(fields, 3);
  }

  lemma {:induction false} FieldAt(fields: seq<Field>, i: nat)
    requires i < |fields| && forall j :: 0 <= j < i ==> fields[j].key != fields[i].key
    ensures FieldValue(fields, fields[i].key) == Some(fields[i].value)
  {
    if i > 0 {
      FieldAt(fields[1..], i - 1);
    }
  }

  lemma ExampleIsWellFormed(env: Env, decidedAt: string, encoded: Json)
    requires !Blank(decidedAt) && env.instant(decidedAt).Some?
    ensures WellFormedDecision(env, ExampleDecision(decidedAt, encoded))
  {
    NotBlank("1", 0);
    NotBlank("promotion_decision_allowed", 0);
    NotBlank("sharpe", 0);
    NormalizeKeepsBlank("sharpe");
    assert KnownDecisionReason("promotion_decision_allowed");
  }

  lemma ExampleIsBacked(env: Env, decidedAt: string, encoded: Json)
    requires !IsMissing(Some(encoded)) && !IsPlaceholder(encoded) && env.decode(encoded) == Some(ExampleSummary())
    ensures Backed(env, ExampleDecision(decidedAt, encoded))
  {
    ExamplePacketIsComplete(encoded);
    ExampleAllows(env, encoded);
  }

  lemma ExampleAllows(env: Env, encoded: Json)
    requires !IsPlaceholder(encoded) && env.decode(encoded) == Some(ExampleSummary())
    ensures AllowsPromotion(env, encoded)
  {
    ExampleIsSound();
  }

  /**
   * A promotion is allowed on a Sharpe ratio of zero that was to be at least one and is marked as passed, at any time
   * and with any JSON that reads as the example summary.
   */
  lemma AllowedBelowThreshold(env: Env, decidedAt: string, encoded: Json) returns (d: Decision, t: ThresholdOutcome)
    requires !Blank(decidedAt) && env.instant(decidedAt).Some?
    requires !IsMissing(Some(encoded)) && !IsPlaceholder(encoded) && env.decode(encoded) == Some(ExampleSummary())
    ensures d.action == Promote && d.state == Allowed && ValidDecision(env, d)
    ensures t in d.thresholdResults && t.passed && !MeetsThreshold(t)
  {
    d, t := ExampleDecision(decidedAt, encoded), ExampleOutcome();
    ExampleIsWellFormed(env, decidedAt, encoded);
    ExampleIsBacked(env, decidedAt, encoded);
    AllowedPromotionIffBacked(env, d);
  }

  // ---------- the gate, the packet and the record read off their fields ----------

  /**
   * The gate refuses a baseline that is not positive; otherwise it reports the degradation in percent to half a nano,
   * and the word that goes with its outcome.
   */
  lemma GateReads(baseline: real, stressed: real)
    ensures EvaluateGate(baseline, stressed).Success? <==> baseline > 0.0
    ensures baseline <= 0.0 ==> EvaluateGate(baseline, stressed) == Failure(BaselineUnavailable)
    ensures baseline > 0.0 ==>
              var gate := EvaluateGate(baseline, stressed).value;
              && -0.000_000_000_5 <= gate.degradation - (stressed - baseline) / baseline * 100.0 <= 0.000_000_000_5
              && (gate.outcome == Allow <==> gate.degradation >= -5.0)
              && gate.reasonCode == if gate.outcome == Allow then "counterfactual_replay_tolerance_satisfied"
                                    else "counterfactual_replay_tolerance_breached"
  {
    if baseline > 0.0 {
      var percent := (stressed - baseline) / baseline * 100.0;
      RoundNearest(percent * 1_000_000_000.0);
      NanosApart(percent, RoundHalfAway(percent * 1_000_000_000.0));
    }
  }

  lemma NanosApart(x: real, n: int)
    requires -0.5 <= x * 1_000_000_000.0 - n as real <= 0.5
    ensures -0.000_000_000_5 <= n as real / 1_000_000_000.0 - x <= 0.000_000_000_5
  {
  }

  /** A field is missing exactly when the packet lacks it or holds null, blank text, or nothing under its key. */
  lemma MissingIff(fields: seq<Field>, key: string)
    requires DistinctKeys(fields)
    ensures IsMissing(Member(Object(fields), key)) <==>
            forall f :: f in fields && f.key == key ==>
                          f.value in {Null, Object([]), Array([])} || (f.value.Str? && Trim(f.value.text) == "")
  {
    FieldFound(fields, key);
    if FieldValue(fields, key).Some? {
      forall f | f in fields && f.key == key ensures f.value == FieldValue(fields, key).value {
        DistinctMembers(fields, f, Field(key, FieldValue(fields, key).value));
      }
    }
  }

  lemma {:induction false} FieldFound(fields: seq<Field>, key: string)
    ensures FieldValue(fields, key).Some? ==> Field(key, FieldValue(fields, key).value) in fields
    ensures FieldValue(fields, key).None? ==> forall f :: f in fields ==> f.key != key
  {
    if fields != [] {
      FieldFound(fields[1..], key);
      assert fields == [fields[0]] + fields[1..];
    }
  }

  /** The packet has something under this key. */
  ghost predicate Provides(fields: seq<Field>, key: string) {
    exists f :: f in fields && f.key == key && f.value !in {Null, Object([]), Array([])}
                && (f.value.Str? ==> Trim(f.value.text) != "")
  }

  lemma ProvidedIff(fields: seq<Field>, key: string)
    requires DistinctKeys(fields)
    ensures Provides(fields, key) <==> !IsMissing(Member(Object(fields), key))
  {
    MissingIff(fields, key);
  }

  /**
   * A record is accepted exactly when its ids, reason, actor and time are given, its metrics, packet and gate are
   * objects, and its thresholds are named and of a known reason; a promotion lists what its packet does not provide of
   * four fields; an allowed record misses nothing and has every threshold passed; and an allowed promotion is approved
   * on a replay summary that allows, if its packet has one.
   */
  lemma DecisionReads(env: Env, d: Decision, fields: seq<Field>)
    requires d.evidencePacket == Object(fields) && DistinctKeys(fields)
    ensures ValidDecision(env, d) <==>
            && Trim(d.decisionId) != "" && Trim(d.candidateId) != "" && Trim(d.validationRunId) != ""
            && Trim(d.actorId) != "" && Trim(d.correlationId) != "" && Trim(d.decidedAt) != ""
            && Trim(d.reasonCode) != "" && KnownDecisionReason(d.reasonCode) && env.instant(d.decidedAt).Some?
            && d.observedMetrics.Object? && d.gateEvaluation.Object?
            && (d.shadowReadiness == None || d.shadowReadiness.value.Object?)
            && (d.approvalReference == None || d.approvalRequestId != None)
            && (forall t :: t in d.thresholdResults ==>
                              Normalize(t.metricKey) != "" && (t.reasonCode == "promotion_threshold_passed"
                                                               || t.reasonCode == "promotion_threshold_failed"))
            && (d.action == Promote ==>
                  forall key :: key in {"data_quality_report", "purged_cpcv_results", "calibration_report",
                                        "counterfactual_replay_summary"}
                                ==> Provides(fields, key) || key in d.missingFields)
            && (d.state == Allowed ==> d.missingFields == [] && forall t :: t in d.thresholdResults ==> t.passed)
            && (d.action == Promote && d.state == Allowed ==>
                  && d.approvalReference != None
                  && forall f :: f in fields && f.key == "counterfactual_replay_summary" ==>
                                   AllowsPromotion(env, f.value))
  {
    FormReads(env, d);
    GapsRead(d, fields);
    AllowPathReads(env, d, fields);
  }

  lemma FormReads(env: Env, d: Decision)
    ensures WellFormedDecision(env, d) <==>
            && Trim(d.decisionId) != "" && Trim(d.candidateId) != "" && Trim(d.validationRunId) != ""
            && Trim(d.actorId) != "" && Trim(d.correlationId) != "" && Trim(d.decidedAt) != ""
            && Trim(d.reasonCode) != "" && KnownDecisionReason(d.reasonCode) && env.instant(d.decidedAt).Some?
            && d.observedMetrics.Object? && d.gateEvaluation.Object? && d.evidencePacket.Object?
            && (d.shadowReadiness == None || d.shadowReadiness.value.Object?)
            && (d.approvalReference == None || d.approvalRequestId != None)
            && (forall t :: t in d.thresholdResults ==>
                              Normalize(t.metricKey) != "" && (t.reasonCode == "promotion_threshold_passed"
                                                               || t.reasonCode == "promotion_threshold_failed"))
  {
  }

  lemma GapsRead(d: Decision, fields: seq<Field>)
    requires d.evidencePacket == Object(fields) && DistinctKeys(fields)
    ensures GapsDeclared(d) <==>
            (d.action == Promote ==>
               forall key :: key in {"data_quality_report", "purged_cpcv_results", "calibration_report",
                                     "counterfactual_replay_summary"}
                             ==> Provides(fields, key) || key in d.missingFields)
  {
    forall key ensures Provides(fields, key) <==> !IsMissing(Member(Object(fields), key)) {
      ProvidedIff(fields, key);
    }
    RequiredAre();
  }

  lemma RequiredAre()
    ensures forall key :: key in REQUIRED_FIELDS <==>
                          key in {"data_quality_report", "purged_cpcv_results", "calibration_report",
                                  "counterfactual_replay_summary"}
  {
    assert REQUIRED_FIELDS[0] == "data_quality_report" && REQUIRED_FIELDS[1] == "purged_cpcv_results";
    assert REQUIRED_FIELDS[2] == "calibration_report" && REQUIRED_FIELDS[3] == "counterfactual_replay_summary";
  }

  lemma AllowPathReads(env: Env, d: Decision, fields: seq<Field>)
    requires d.evidencePacket == Object(fields) && DistinctKeys(fields)
    ensures AllowPathHolds(env, d) <==>
            (d.action == Promote && d.state == Allowed ==>
               && d.approvalReference != None
               && forall f :: f in fields && f.key == "counterfactual_replay_summary" ==> AllowsPromotion(env, f.value))
  {
    SummaryFieldIs(fields);
  }

  lemma SummaryFieldIs(fields: seq<Field>)
    requires DistinctKeys(fields)
    ensures Member(Object(fields), SUMMARY_FIELD).Some? <==>
            exists f :: f in fields && f.key == "counterfactual_replay_summary"
    ensures forall f :: f in fields && f.key == "counterfactual_replay_summary" ==>
                          Member(Object(fields), SUMMARY_FIELD) == Some(f.value)
  {
    FieldFound(fields, SUMMARY_FIELD);
    forall f | f in fields && f.key == SUMMARY_FIELD ensures Member(Object(fields), SUMMARY_FIELD) == Some(f.value) {
      DistinctMembers(fields, f, Field(SUMMARY_FIELD, FieldValue(fields, SUMMARY_FIELD).value));
    }
  }

  /** The figures a scenario is run at, to the machine's precision around one. */
  predicate RunAt(r: ScenarioResult, slippage: real, fillRate: real, exitDelay: int) {
    && r.parameters.slippage > 0.0 && 0.0 < r.parameters.fillRate <= 1.0 && r.parameters.exitDelay == exitDelay
    && -1.0 / 4_503_599_627_370_496.0 <= r.parameters.slippage - slippage <= 1.0 / 4_503_599_627_370_496.0
    && -1.0 / 4_503_599_627_370_496.0 <= r.parameters.fillRate - fillRate <= 1.0 / 4_503_599_627_370_496.0
  }

  predicate WithinNano(x: real, y: real) {
    -0.000_000_001 <= x - y <= 0.000_000_001
  }

  /** The scenarios of a summary in which each occurs once are three results, one of each. */
  lemma ScenariosAre(s: Summary) returns (b: ScenarioResult, x: ScenarioResult, d: ScenarioResult)
    requires EachOnce(s.scenarios)
    ensures b.scenario == Baseline && x.scenario == StressedExecution && d.scenario == DelayedExit
    ensures forall r :: r in s.scenarios <==> r in {b, x, d}
  {
    assert OccursOnce(s.scenarios, Baseline) && OccursOnce(s.scenarios, StressedExecution);
    assert OccursOnce(s.scenarios, DelayedExit);
    var i: nat :| OnlyAt(s.scenarios, Baseline, i);
    var j: nat :| OnlyAt(s.scenarios, StressedExecution, j);
    var k: nat :| OnlyAt(s.scenarios, DelayedExit, k);
    b, x, d := s.scenarios[i], s.scenarios[j], s.scenarios[k];
    forall r | r in s.scenarios ensures r in {b, x, d} {
      match r.scenario
      case Baseline => SameScenario(s.scenarios, r, b);
      case StressedExecution => SameScenario(s.scenarios, r, x);
      case DelayedExit => SameScenario(s.scenarios, r, d);
    }
  }

  /**
   * A summary with one result of each scenario is sound exactly when its run and reason are given, its tolerance is
   * five percent, its outcome, degradation and reason are those of the gate, the scenarios ran at one and one, two and
   * a half, and one and one with a minute's delay, and their figures are the summary's.
   */
  lemma SummarySoundIff(s: Summary) returns (b: ScenarioResult, x: ScenarioResult, d: ScenarioResult)
    requires EachOnce(s.scenarios)
    ensures b.scenario == Baseline && x.scenario == StressedExecution && d.scenario == DelayedExit
    ensures forall r :: r in s.scenarios <==> r in {b, x, d}
    ensures SoundSummary(s) <==>
            && Normalize(s.runId) != "" && KnownReplayReason(s.reasonCode)
            && -1.0 / 4_503_599_627_370_496.0 <= s.tolerance + 5.0 <= 1.0 / 4_503_599_627_370_496.0
            && s.baseline > 0.0 && (s.outcome == Allow <==> s.stressed > s.baseline * (0.95 - 0.000_000_000_005))
            && WithinNano(EvaluateGate(s.baseline, s.stressed).value.degradation, s.degradation)
            && Normalize(s.reasonCode) == Normalize(if s.outcome == Allow
                                                    then "counterfactual_replay_tolerance_satisfied"
                                                    else "counterfactual_replay_tolerance_breached")
            && RunAt(b, 1.0, 1.0, 0) && RunAt(x, 2.0, 0.5, 0) && RunAt(d, 1.0, 1.0, 60)
            && KnownReplayReason(b.reasonCode) && KnownReplayReason(x.reasonCode) && KnownReplayReason(d.reasonCode)
            && WithinNano(b.netPnl, s.baseline) && WithinNano(x.netPnl, s.stressed)
            && WithinNano(d.netPnl, s.delayedExit)
            && x.outcome == s.outcome && Normalize(x.reasonCode) == Normalize(s.reasonCode)
  {
    b, x, d := ScenariosAre(s);
    GateAgreesReads(s);
    ThreeSoundIff(s, b, x, d);
    AllOfThree(s.scenarios, (r: ScenarioResult) => WellReported(r) && AgreesWithSummary(s, r), b, x, d);
  }

  lemma AllOfThree(scenarios: seq<ScenarioResult>, good: ScenarioResult -> bool, b: ScenarioResult, x: ScenarioResult,
                   d: ScenarioResult)
    requires forall r :: r in scenarios <==> r in {b, x, d}
    ensures (forall r :: r in scenarios ==> good(r)) <==> good(b) && good(x) && good(d)
  {
    assert b in scenarios && x in scenarios && d in scenarios;
  }

  lemma ThreeSoundIff(s: Summary, b: ScenarioResult, x: ScenarioResult, d: ScenarioResult)
    requires b.scenario == Baseline && x.scenario == StressedExecution && d.scenario == DelayedExit
    ensures (forall r :: r in [b, x, d] ==> WellReported(r) && AgreesWithSummary(s, r)) <==>
            && RunAt(b, 1.0, 1.0, 0) && RunAt(x, 2.0, 0.5, 0) && RunAt(d, 1.0, 1.0, 60)
            && KnownReplayReason(b.reasonCode) && KnownReplayReason(x.reasonCode) && KnownReplayReason(d.reasonCode)
            && WithinNano(b.netPnl, s.baseline) && WithinNano(x.netPnl, s.stressed)
            && WithinNano(d.netPnl, s.delayedExit)
            && x.outcome == s.outcome && Normalize(x.reasonCode) == Normalize(s.reasonCode)
  {
    ScenarioReads(s, b);
    ScenarioReads(s, x);
    ScenarioReads(s, d);
    AllOfThree([b, x, d], (r: ScenarioResult) => WellReported(r) && AgreesWithSummary(s, r), b, x, d);
  }

  lemma GateAgreesReads(s: Summary)
    ensures GateAgrees(s) <==>
            && s.baseline > 0.0 && (s.outcome == Allow <==> s.stressed > s.baseline * (0.95 - 0.000_000_000_005))
            && WithinNano(EvaluateGate(s.baseline, s.stressed).value.degradation, s.degradation)
            && Normalize(s.reasonCode) == Normalize(if s.outcome == Allow
                                                    then "counterfactual_replay_tolerance_satisfied"
                                                    else "counterfactual_replay_tolerance_breached")
  {
    if s.baseline > 0.0 {
      GateAllowsIff(s.baseline, s.stressed);
    }
  }

  lemma ScenarioReads(s: Summary, r: ScenarioResult)
    ensures WellReported(r) <==>
            && KnownReplayReason(r.reasonCode)
            && match r.scenario
               case Baseline => RunAt(r, 1.0, 1.0, 0)
               case StressedExecution => RunAt(r, 2.0, 0.5, 0)
               case DelayedExit => RunAt(r, 1.0, 1.0, 60)
    ensures AgreesWithSummary(s, r) <==>
            match r.scenario
            case Baseline => WithinNano(r.netPnl, s.baseline)
            case StressedExecution => && WithinNano(r.netPnl, s.stressed) && r.outcome == s.outcome
                                      && Normalize(r.reasonCode) == Normalize(s.reasonCode)
            case DelayedExit => WithinNano(r.netPnl, s.delayedExit)
  {
  }

  /** A replay summary allows exactly when it is not marked as deferred, reads, is sound, and its outcome allows. */
  lemma AllowsIff(env: Env, summary: Json)
    ensures AllowsPromotion(env, summary) <==>
            && env.decode(summary).Some? && SoundSummary(env.decode(summary).value)
            && env.decode(summary).value.outcome == Allow
            && (Member(summary, "status").Some? && Member(summary, "status").value.Str? ==>
                  Normalize(Member(summary, "status").value.text) != "deferred_to_story_6_6")
  {
  }
}
