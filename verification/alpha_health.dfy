/**
 * Alpha health: a metric record measured against thresholds, and the deallocation trigger that reads the breaches.
 * f64 values are exact reals; every error carries the one invalid-payload code.
 */
module AlphaHealth {
  import opened Wrappers
  import opened Text
  import opened StableSort
  import opened Comparators
  import opened Timestamps

  datatype MetricKey = RollingSharpe | RollingHitRate | RollingDrawdown | StabilityScore

  datatype Window = OneHour | TwentyFourHours | ThirtyDays

  datatype HealthError = InvalidPayload

  datatype WindowMetrics = WindowMetrics(window: Window, netPnl: real, sharpe: real, hitRate: real, drawdown: real,
                                         stability: real)

  datatype MetricRecord = MetricRecord(
    metricId: string, alphaId: string, sharpe: real, hitRate: real, drawdown: real, stability: real,
    windows: seq<WindowMetrics>, reasonCode: string, actorId: string, correlationId: string, recordedAt: string)

  /** A threshold definition; a deallocation policy has the same three fields. */
  datatype Threshold = Threshold(metricKey: MetricKey, comparator: Comparator, value: real)

  datatype Breach = Breach(
    breachId: string, metricId: string, alphaId: string, metricKey: MetricKey, comparator: Comparator, observed: real,
    threshold: real,
    breachReason: string, reasonCode: string, actorId: string, correlationId: string, breachedAt: string)

  datatype Evaluation = Evaluation(triggered: bool, criteria: seq<string>, breach: Option<Breach>)

  /** Outside code: the RFC 3339 UTC reader, in unix nanoseconds, and the display text of a number. */
  datatype Env = Env(nanos: string -> Option<int>, number: real -> string)

  // ---------- metrics ----------

  function MetricText(m: MetricKey): string {
    match m
    case RollingSharpe => "rolling_sharpe"
    case RollingHitRate => "rolling_hit_rate"
    case RollingDrawdown => "rolling_drawdown"
    case StabilityScore => "stability_score"
  }

  predicate IsFloor(m: MetricKey) {
    m != RollingDrawdown
  }

  predicate IsBreached(m: MetricKey, observed: real, threshold: real) {
    if IsFloor(m) then observed < threshold else observed > threshold
  }

  predicate ValidThreshold(t: Threshold) {
    t.comparator == if IsFloor(t.metricKey) then Lt else Gt
  }

  function Observed(record: MetricRecord, m: MetricKey): real {
    match m
    case RollingSharpe => record.sharpe
    case RollingHitRate => record.hitRate
    case RollingDrawdown => record.drawdown
    case StabilityScore => record.stability
  }

  function MetricOf(t: Threshold): MetricKey {
    t.metricKey
  }

  function ThresholdOrder(): (Threshold, Threshold) -> bool {
    Then(By((t: Threshold) => MetricText(t.metricKey), TextLeq),
         By((t: Threshold) => t.value, (x: real, y: real) => x <= y))
  }

  /** Alphabetical place of a metric. */
  function MetricRank(m: MetricKey): nat {
    match m
    case RollingDrawdown => 0
    case RollingHitRate => 1
    case RollingSharpe => 2
    case StabilityScore => 3
  }

  lemma MetricAlphabet(m: MetricKey, n: MetricKey, x: string)
    ensures TextLeq(MetricText(m) + x, MetricText(n) + x) <==> MetricRank(m) <= MetricRank(n)
  {
    if m == n {
      TextLeqReflexive(MetricText(m) + x);
    } else if m != StabilityScore && n != StabilityScore {
      RollingTail(m, x);
      RollingTail(n, x);
      TextLeqSharedPrefix("rolling_", RollingText(m) + x, RollingText(n) + x);
    }
  }

  function RollingText(m: MetricKey): string
    requires m != StabilityScore
  {
    match m
    case RollingSharpe => "sharpe"
    case RollingHitRate => "hit_rate"
    case RollingDrawdown => "drawdown"
  }

  lemma RollingTail(m: MetricKey, x: string)
    requires m != StabilityScore
    ensures MetricText(m) + x == "rolling_" + (RollingText(m) + x)
  {
    RollingSplits(m);
    Regroup("rolling_", RollingText(m), x);
  }

  lemma RollingSplits(m: MetricKey)
    requires m != StabilityScore
    ensures MetricText(m) == "rolling_" + RollingText(m)
  {
  }

  // ---------- records ----------

  predicate KnownReason(code: string) {
    code in {"alpha_health_metric_recorded", "alpha_health_metric_read", "alpha_health_metric_listed",
             "alpha_health_threshold_breach_detected", "alpha_health_threshold_breach_read",
             "alpha_health_threshold_breach_listed",
             "alpha_health_threshold_satisfied", "alpha_health_invalid_payload", "alpha_health_unauthorized_role",
             "alpha_health_metric_not_found", "alpha_health_breach_not_found", "alpha_health_dependency_unavailable",
             "alpha_health_state_unavailable", "alpha_health_persistence_unavailable"}
  }

  /** Exactly one entry for each of the three windows. */
  predicate ValidWindows(windows: seq<WindowMetrics>) {
    && |windows| == 3
    && (forall i, j :: 0 <= i < j < |windows| ==> windows[i].window != windows[j].window)
    && (forall required: Window :: HasWindow(windows, required))
  }

  predicate HasWindow(windows: seq<WindowMetrics>, required: Window) {
    exists i :: 0 <= i < |windows| && windows[i].window == required
  }

  function WindowOrder(w: WindowMetrics): int {
    match w.window
    case OneHour => 0
    case TwentyFourHours => 1
    case ThirtyDays => 2
  }

  predicate ValidRecord(env: Env, r: MetricRecord) {
    && !Blank(r.metricId) && !Blank(r.alphaId) && !Blank(r.actorId) && !Blank(r.correlationId) && !Blank(r.recordedAt)
    && env.nanos(r.recordedAt).Some? && !Blank(r.reasonCode) && KnownReason(r.reasonCode)
    && ValidWindows(r.windows)
  }

  function CanonicalRecord(r: MetricRecord): MetricRecord {
    r.(metricId := Normalize(r.metricId), alphaId := Normalize(r.alphaId), reasonCode := Normalize(r.reasonCode),
    windows := Sort(By(WindowOrder, (x: int, y: int) => x <= y), r.windows),
    actorId := Trim(r.actorId), correlationId := Trim(r.correlationId), recordedAt := Trim(r.recordedAt))
  }

  predicate ValidBreach(env: Env, b: Breach) {
    && !Blank(b.breachId) && !Blank(b.metricId) && !Blank(b.alphaId) && !Blank(b.breachReason) && !Blank(b.reasonCode)
    && !Blank(b.actorId) && !Blank(b.correlationId) && !Blank(b.breachedAt) && env.nanos(b.breachedAt).Some?
    && KnownReason(b.reasonCode) && ValidThreshold(Threshold(b.metricKey, b.comparator, b.threshold))
  }

  function CanonicalBreach(b: Breach): Breach {
    b.(breachId := Normalize(b.breachId), metricId := Normalize(b.metricId), alphaId := Normalize(b.alphaId),
    breachReason := Trim(b.breachReason), reasonCode := Normalize(b.reasonCode),
    actorId := Trim(b.actorId), correlationId := Trim(b.correlationId), breachedAt := Trim(b.breachedAt))
  }

  function CanonicalizeBreach(env: Env, b: Breach): Result<Breach, HealthError> {
    if ValidBreach(env, CanonicalBreach(b)) then Success(CanonicalBreach(b)) else Failure(InvalidPayload)
  }

  lemma CanonicalBreachIdempotent(b: Breach)
    ensures CanonicalBreach(CanonicalBreach(b)) == CanonicalBreach(b)
  {
    NormalizeIdempotent(b.breachId);
    NormalizeIdempotent(b.metricId);
    NormalizeIdempotent(b.alphaId);
    NormalizeIdempotent(b.reasonCode);
    TrimIdempotent(b.breachReason);
    TrimIdempotent(b.actorId);
    TrimIdempotent(b.correlationId);
    TrimIdempotent(b.breachedAt);
  }

  lemma TrimIdempotent(s: string)
    ensures Trim(Trim(s)) == Trim(s)
  {
    TrimIsTrimmed(s);
    TrimmedIsFixed(Trim(s));
  }

  // ---------- measuring a record ----------

  function BreachIdOf(alphaId: string, m: MetricKey, nanos: int): string {
    alphaId + "::" + (MetricText(m) + ("::" + IntText(nanos)))
  }

  function ReasonText(env: Env, t: Threshold, observed: real): string {
    MetricText(t.metricKey) + " breached " + ComparatorText(t.comparator) + " " + env.number(t.value)
    + " with observed " + env.number(observed)
  }

  /** The breach a canonical record reports for a threshold it violates. */
  function BreachFor(env: Env, record: MetricRecord, t: Threshold): Breach
    requires env.nanos(record.recordedAt).Some?
  {
    Breach(BreachIdOf(record.alphaId, t.metricKey, env.nanos(record.recordedAt).value), record.metricId,
           record.alphaId, t.metricKey,
           t.comparator, Observed(record, t.metricKey), t.value,
           Trim(ReasonText(env, t, Observed(record, t.metricKey))),
           "alpha_health_threshold_breach_detected", record.actorId, record.correlationId, record.recordedAt)
  }

  predicate Violates(record: MetricRecord, t: Threshold) {
    IsBreached(t.metricKey, Observed(record, t.metricKey), t.value)
  }

  /** One breach for each violated threshold and no others, in alphabetical order of the metrics. */
  ghost predicate IsReport(env: Env, record: MetricRecord, thresholds: seq<Threshold>, breaches: seq<Breach>) {
    && env.nanos(record.recordedAt).Some?
    && (forall i, j :: 0 <= i < j < |breaches| ==>
                         MetricRank(breaches[i].metricKey) < MetricRank(breaches[j].metricKey))
    && (forall b :: b in breaches <==> exists t :: t in thresholds && Violates(record, t)
                                                   && b == BreachFor(env, record, t))
  }

  /** Drawdown is broken from above, every other metric from below. */
  predicate Breaks(given: MetricRecord, t: Threshold) {
    if t.metricKey == RollingDrawdown then Observed(given, t.metricKey) > t.value
    else Observed(given, t.metricKey) < t.value
  }

  /** The breach carries the record's observation and identity. */
  predicate SpeaksOf(given: MetricRecord, b: Breach) {
    && b.observed == Observed(given, b.metricKey) && Breaks(given, Threshold(b.metricKey, b.comparator, b.threshold))
    && b.alphaId == Normalize(given.alphaId) && b.metricId == Normalize(given.metricId)
    && b.breachedAt == Trim(given.recordedAt)
  }

  predicate Reported(breaches: seq<Breach>, t: Threshold) {
    exists b :: b in breaches && b.metricKey == t.metricKey && b.comparator == t.comparator && b.threshold == t.value
  }

  lemma FreshBreachSpeaks(env: Env, given: MetricRecord, record: MetricRecord, t: Threshold)
    requires record == CanonicalRecord(given) && env.nanos(record.recordedAt).Some?
    ensures Violates(record, t) <==> Breaks(given, t)
    ensures Violates(record, t) ==> SpeaksOf(given, BreachFor(env, record, t))
  {
  }

  /**
   * Read against the record as given, every breach speaks of it, and a threshold is reported exactly when the record
   * breaks it.
   */
  lemma ReportSpeaksOfRecord(env: Env, given: MetricRecord, thresholds: seq<Threshold>, breaches: seq<Breach>)
    requires IsReport(env, CanonicalRecord(given), thresholds, breaches)
    ensures forall b :: b in breaches ==> SpeaksOf(given, b)
    ensures forall t :: t in thresholds ==> (Reported(breaches, t) <==> Breaks(given, t))
  {
    ReportSpeaks(env, given, CanonicalRecord(given), thresholds, breaches);
  }

  lemma ReportSpeaks(env: Env, given: MetricRecord, record: MetricRecord, thresholds: seq<Threshold>,
                     breaches: seq<Breach>)
    requires IsReport(env, record, thresholds, breaches) && record == CanonicalRecord(given)
    ensures forall b :: b in breaches ==> SpeaksOf(given, b)
    ensures forall t :: t in thresholds ==> (Reported(breaches, t) <==> Breaks(given, t))
  {
    forall b | b in breaches ensures SpeaksOf(given, b) {
      var t :| t in thresholds && Violates(record, t) && b == BreachFor(env, record, t);
      FreshBreachSpeaks(env, given, record, t);
    }
    forall t | t in thresholds ensures Reported(breaches, t) <==> Breaks(given, t) {
      FreshBreachSpeaks(env, given, record, t);
      if Violates(record, t) {
        assert BreachFor(env, record, t) in breaches;
      }
      if Reported(breaches, t) {
        var b :| b in breaches && b.metricKey == t.metricKey && b.comparator == t.comparator && b.threshold == t.value;
        assert SpeaksOf(given, b);
      }
    }
  }

  // ---------- the report read off the record's own fields ----------

  predicate ReportedMetric(breaches: seq<Breach>, m: MetricKey) {
    exists b :: b in breaches && b.metricKey == m
  }

  lemma ReportedMetricIff(env: Env, given: MetricRecord, thresholds: seq<Threshold>, breaches: seq<Breach>,
                          m: MetricKey)
    requires IsReport(env, CanonicalRecord(given), thresholds, breaches)
    ensures ReportedMetric(breaches, m) <==>
            exists t :: t in thresholds && t.metricKey == m && Violates(CanonicalRecord(given), t)
  {
    var record := CanonicalRecord(given);
    if t :| t in thresholds && t.metricKey == m && Violates(record, t) {
      assert BreachFor(env, record, t) in breaches;
    }
    if b :| b in breaches && b.metricKey == m {
      var t :| t in thresholds && Violates(record, t) && b == BreachFor(env, record, t);
    }
  }

  /** Some threshold for the metric lies above the figure, or, for the drawdown, below it. */
  predicate Broken(thresholds: seq<Threshold>, m: MetricKey, figure: real) {
    exists t :: t in thresholds && t.metricKey == m
                && if m == RollingDrawdown then figure > t.value else figure < t.value
  }

  lemma ReportedIffBroken(env: Env, given: MetricRecord, thresholds: seq<Threshold>, breaches: seq<Breach>,
                          m: MetricKey, figure: real)
    requires IsReport(env, CanonicalRecord(given), thresholds, breaches) && figure == Observed(given, m)
    ensures ReportedMetric(breaches, m) <==> Broken(thresholds, m, figure)
  {
    ReportedMetricIff(env, given, thresholds, breaches, m);
  }

  /** A metric is reported exactly when its own figure in the record breaks a threshold for it. */
  lemma MetricsRead(env: Env, given: MetricRecord, thresholds: seq<Threshold>, breaches: seq<Breach>)
    requires IsReport(env, CanonicalRecord(given), thresholds, breaches)
    ensures ReportedMetric(breaches, RollingSharpe) <==>
            exists t :: t in thresholds && t.metricKey == RollingSharpe && given.sharpe < t.value
    ensures ReportedMetric(breaches, RollingHitRate) <==>
            exists t :: t in thresholds && t.metricKey == RollingHitRate && given.hitRate < t.value
    ensures ReportedMetric(breaches, RollingDrawdown) <==>
            exists t :: t in thresholds && t.metricKey == RollingDrawdown && given.drawdown > t.value
    ensures ReportedMetric(breaches, StabilityScore) <==>
            exists t :: t in thresholds && t.metricKey == StabilityScore && given.stability < t.value
  {
    ReportedIffBroken(env, given, thresholds, breaches, RollingSharpe, given.sharpe);
    ReportedIffBroken(env, given, thresholds, breaches, RollingHitRate, given.hitRate);
    ReportedIffBroken(env, given, thresholds, breaches, RollingDrawdown, given.drawdown);
    ReportedIffBroken(env, given, thresholds, breaches, StabilityScore, given.stability);
  }

  /** Each breach carries its metric's figure, and an id and a reason written from the record and the threshold. */
  lemma BreachReads(env: Env, given: MetricRecord, thresholds: seq<Threshold>, breaches: seq<Breach>, b: Breach)
    returns (t: Threshold)
    requires IsReport(env, CanonicalRecord(given), thresholds, breaches) && b in breaches
    requires forall u :: u in thresholds ==> ValidThreshold(u)
    ensures t in thresholds && t.metricKey == b.metricKey && t.value == b.threshold
    ensures t.comparator == b.comparator == if b.metricKey == RollingDrawdown then Gt else Lt
    ensures b.observed == match b.metricKey
                          case RollingSharpe => given.sharpe
                          case RollingHitRate => given.hitRate
                          case RollingDrawdown => given.drawdown
                          case StabilityScore => given.stability
    ensures env.nanos(Trim(given.recordedAt)).Some?
    ensures var word := match b.metricKey
              case RollingSharpe => "rolling_sharpe"
              case RollingHitRate => "rolling_hit_rate"
              case RollingDrawdown => "rolling_drawdown"
              case StabilityScore => "stability_score";
            && b.breachId == Normalize(given.alphaId) + "::" + word + "::"
                             + IntText(env.nanos(Trim(given.recordedAt)).value)
            && b.breachReason
               == Trim(word + " breached " + (if b.metricKey == RollingDrawdown then "gt" else "lt") + " "
                       + env.number(b.threshold) + " with observed " + env.number(b.observed))
    ensures b.metricId == Normalize(given.metricId) && b.alphaId == Normalize(given.alphaId)
    ensures b.reasonCode == "alpha_health_threshold_breach_detected"
    ensures b.actorId == Trim(given.actorId) && b.correlationId == Trim(given.correlationId)
    ensures b.breachedAt == Trim(given.recordedAt)
  {
    var record := CanonicalRecord(given);
    t :| t in thresholds && Violates(record, t) && b == BreachFor(env, record, t);
    var id, nanos := Normalize(given.alphaId), IntText(env.nanos(record.recordedAt).value);
    Regroup(id + "::", MetricText(t.metricKey), "::" + nanos);
    Regroup(id + "::" + MetricText(t.metricKey), "::", nanos);
  }

  predicate Covers(windows: seq<WindowMetrics>, window: Window) {
    exists w :: w in windows && w.window == window
  }

  /** A record is accepted exactly when it is complete, timed, of a known reason, and has each window's figures once. */
  lemma RecordAcceptedIff(env: Env, r: MetricRecord)
    ensures ValidRecord(env, CanonicalRecord(r)) <==>
            && Trim(r.metricId) != "" && Trim(r.alphaId) != "" && Trim(r.actorId) != "" && Trim(r.correlationId) != ""
            && Trim(r.recordedAt) != "" && env.nanos(Trim(r.recordedAt)).Some? && KnownReason(Normalize(r.reasonCode))
            && |r.windows| == 3
            && Covers(r.windows, OneHour) && Covers(r.windows, TwentyFourHours) && Covers(r.windows, ThirtyDays)
  {
    NormalizeKeepsBlank(r.metricId);
    NormalizeKeepsBlank(r.alphaId);
    TrimIdempotent(r.actorId);
    TrimIdempotent(r.correlationId);
    TrimIdempotent(r.recordedAt);
    if KnownReason(Normalize(r.reasonCode)) {
      KnownIsNotBlank(Normalize(r.reasonCode));
    }
    SortContents(By(WindowOrder, (x: int, y: int) => x <= y), r.windows);
    WindowsCoverIff(CanonicalRecord(r).windows);
    SameWindowsCover(r.windows, CanonicalRecord(r).windows);
  }

  /** An accepted record keeps its three windows from the shortest to the longest. */
  lemma WindowsInOrder(env: Env, r: MetricRecord)
    requires ValidRecord(env, CanonicalRecord(r))
    ensures var windows := CanonicalRecord(r).windows;
            && multiset(windows) == multiset(r.windows) && |windows| == 3 && windows[0].window == OneHour
            && windows[1].window == TwentyFourHours && windows[2].window == ThirtyDays
  {
    var leq := By(WindowOrder, (x: int, y: int) => x <= y);
    SortContents(leq, r.windows);
    ByTotal(WindowOrder, (x: int, y: int) => x <= y);
    SortSorted(leq, r.windows);
    OrderedWindows(leq, CanonicalRecord(r).windows);
  }

  lemma OrderedWindows(leq: (WindowMetrics, WindowMetrics) -> bool, windows: seq<WindowMetrics>)
    requires Sorted(leq, windows) && ValidWindows(windows)
    requires forall v, w :: leq(v, w) <==> WindowOrder(v) <= WindowOrder(w)
    ensures windows[0].window == OneHour && windows[1].window == TwentyFourHours && windows[2].window == ThirtyDays
  {
    assert leq(windows[0], windows[1]) && leq(windows[1], windows[2]);
  }

  lemma SameWindowsCover(s: seq<WindowMetrics>, t: seq<WindowMetrics>)
    requires multiset(s) == multiset(t)
    ensures |s| == |t| && forall window: Window :: Covers(s, window) <==> Covers(t, window)
  {
    assert |s| == |multiset(s)| && |t| == |multiset(t)|;
    forall w ensures w in s <==> w in t {
      assert w in s <==> w in multiset(s);
    }
  }

  lemma WindowsCoverIff(windows: seq<WindowMetrics>)
    ensures ValidWindows(windows) <==>
            |windows| == 3
            && Covers(windows, OneHour) && Covers(windows, TwentyFourHours) && Covers(windows, ThirtyDays)
  {
    forall window: Window ensures HasWindow(windows, window) <==> Covers(windows, window) {
      if HasWindow(windows, window) {
        var i :| 0 <= i < |windows| && windows[i].window == window;
        assert windows[i] in windows;
      }
    }
    if |windows| == 3 && Covers(windows, OneHour) && Covers(windows, TwentyFourHours) && Covers(windows, ThirtyDays) {
      ThreeWindows(windows);
    }
  }

  lemma ThreeWindows(windows: seq<WindowMetrics>)
    requires |windows| == 3 && HasWindow(windows, OneHour) && HasWindow(windows, TwentyFourHours)
    requires HasWindow(windows, ThirtyDays)
    ensures ValidWindows(windows)
  {
    forall window: Window ensures HasWindow(windows, window) {
      match window
      case OneHour =>
      case TwentyFourHours =>
      case ThirtyDays =>
    }
  }

  // ---------- the loop over the thresholds ----------

  lemma ReportExtends(env: Env, record: MetricRecord, init: seq<Threshold>, t: Threshold, breaches: seq<Breach>)
    requires IsReport(env, record, init, breaches)
    requires forall u :: u in init ==> MetricRank(u.metricKey) < MetricRank(t.metricKey)
    ensures IsReport(env, record, init + [t],
                     if Violates(record, t) then breaches + [BreachFor(env, record, t)] else breaches)
  {
    var next := if Violates(record, t) then breaches + [BreachFor(env, record, t)] else breaches;
    forall i | 0 <= i < |breaches| ensures MetricRank(breaches[i].metricKey) < MetricRank(t.metricKey) {
      assert breaches[i] in breaches;
    }
    forall b ensures b in next <==> exists u :: u in init + [t] && Violates(record, u)
                                                && b == BreachFor(env, record, u) {
      if b in breaches {
        var u :| u in init && Violates(record, u) && b == BreachFor(env, record, u);
        assert u in init + [t];
      } else if Violates(record, t) && b == BreachFor(env, record, t) {
        assert t in init + [t];
      }
    }
  }

  lemma ReportOfSame(env: Env, record: MetricRecord, s: seq<Threshold>, t: seq<Threshold>, breaches: seq<Breach>)
    requires IsReport(env, record, s, breaches) && forall x :: x in s <==> x in t
    ensures IsReport(env, record, t, breaches)
  {
  }

  lemma ThresholdOrderTotal()
    ensures TotalPreorder(ThresholdOrder())
  {
    TextLeqOrder();
    var text, value, leq := (t: Threshold) => MetricText(t.metricKey), (t: Threshold) => t.value,
                            (x: real, y: real) => x <= y;
    ByTotal(text, TextLeq);
    ByTotal(value, leq);
    ThenTotal(By(text, TextLeq), By(value, leq));
  }

  lemma RankFollowsOrder(t: Threshold, u: Threshold)
    requires ThresholdOrder()(t, u)
    ensures MetricRank(t.metricKey) <= MetricRank(u.metricKey)
  {
    MetricAlphabet(t.metricKey, u.metricKey, "");
    assert MetricText(t.metricKey) + "" == MetricText(t.metricKey);
    assert MetricText(u.metricKey) + "" == MetricText(u.metricKey);
  }

  /** Identifier text that normalising leaves alone. */
  ghost predicate IsNormal(s: string) {
    Normalize(s) == s && !Blank(s)
  }

  lemma NormalParts(s: string)
    requires IsNormal(s)
    ensures s != "" && Trimmed(s) && Lower(s) == s
  {
    TrimIsTrimmed(s);
    assert Lower(Lower(Trim(s))) == Lower(Trim(s));
  }

  lemma NormalExtends(s: string, tail: string)
    requires IsNormal(s) && AllCanonical(tail) && tail != ""
    ensures IsNormal(s + tail)
  {
    NormalParts(s);
    assert Lower(tail) == tail;
    assert Lower(s + tail) == Lower(s) + Lower(tail);
    assert (s + tail)[0] == s[0] && (s + tail)[|s + tail| - 1] == tail[|tail| - 1];
    TrimmedIsFixed(s + tail);
    NotBlank(s + tail, 0);
  }

  lemma BreachIdIsNormal(alphaId: string, m: MetricKey, nanos: int)
    requires IsNormal(alphaId)
    ensures IsNormal(BreachIdOf(alphaId, m, nanos))
  {
    IntTextShape(nanos);
    NormalExtends(alphaId, "::");
    MetricTextCanonical(m);
    NormalExtends(alphaId + "::", MetricText(m));
    NormalExtends(alphaId + "::" + MetricText(m), "::" + IntText(nanos));
    Regroup(alphaId + "::", MetricText(m), "::" + IntText(nanos));
  }

  lemma Regroup(x: string, y: string, z: string)
    ensures x + (y + z) == x + y + z
  {
  }

  lemma MetricTextCanonical(m: MetricKey)
    ensures MetricText(m) != "" && AllCanonical(MetricText(m))
  {
  }

  /** The parts of a canonical record that a breach copies. */
  ghost predicate IsCanonical(env: Env, r: MetricRecord) {
    && IsNormal(r.metricId) && IsNormal(r.alphaId) && !Blank(r.actorId) && !Blank(r.correlationId)
    && !Blank(r.recordedAt)
    && Trim(r.actorId) == r.actorId && Trim(r.correlationId) == r.correlationId && Trim(r.recordedAt) == r.recordedAt
    && env.nanos(r.recordedAt).Some?
  }

  lemma CanonicalRecordIsCanonical(env: Env, r: MetricRecord)
    requires ValidRecord(env, CanonicalRecord(r))
    ensures IsCanonical(env, CanonicalRecord(r))
  {
    NormalizeIdempotent(r.metricId);
    NormalizeIdempotent(r.alphaId);
    TrimIdempotent(r.actorId);
    TrimIdempotent(r.correlationId);
    TrimIdempotent(r.recordedAt);
  }

  /** Canonicalising a freshly composed breach cannot fail, and trims its reason only. */
  lemma FreshBreachIsCanonical(env: Env, record: MetricRecord, t: Threshold, reason: string)
    requires IsCanonical(env, record) && ValidThreshold(t)
             && reason == ReasonText(env, t, Observed(record, t.metricKey))
    ensures CanonicalizeBreach(env, BreachFor(env, record, t).(breachReason := reason))
         == Success(BreachFor(env, record, t))
  {
    BreachIdIsNormal(record.alphaId, t.metricKey, env.nanos(record.recordedAt).value);
    ReasonNotBlank(env, t, Observed(record, t.metricKey));
    TrimIdempotent(reason);
    DetectedIsNormal();
  }

  lemma ReasonNotBlank(env: Env, t: Threshold, observed: real)
    ensures !Blank(ReasonText(env, t, observed))
  {
    var s := ReasonText(env, t, observed);
    assert s[0] == MetricText(t.metricKey)[0];
    NotBlank(s, 0);
  }

  lemma DetectedIsNormal()
    ensures IsNormal("alpha_health_threshold_breach_detected") && KnownReason("alpha_health_threshold_breach_detected")
  {
    var code := "alpha_health_threshold_breach_detected";
    assert Lower(code) == code;
    TrimmedIsFixed(code);
    NotBlank(code, 0);
  }

  // ---------- breaches in the code's order ----------

  function BreachOrder(): (Breach, Breach) -> bool {
    Then(Descending(By((b: Breach) => b.breachedAt, TextLeq)), By((b: Breach) => b.breachId, TextLeq))
  }

  lemma BreachOrderTotal()
    ensures TotalPreorder(BreachOrder())
  {
    TextLeqOrder();
    var time, id := (b: Breach) => b.breachedAt, (b: Breach) => b.breachId;
    ByTotal(time, TextLeq);
    DescendingTotal(By(time, TextLeq));
    ByTotal(id, TextLeq);
    ThenTotal(Descending(By(time, TextLeq)), By(id, TextLeq));
  }

  lemma AlphabeticalIds(alphaId: string, m: MetricKey, n: MetricKey, nanos: int)
    requires MetricRank(m) <= MetricRank(n)
    ensures TextLeq(BreachIdOf(alphaId, m, nanos), BreachIdOf(alphaId, n, nanos))
  {
    MetricAlphabet(m, n, "::" + IntText(nanos));
    TextLeqSharedPrefix(alphaId + "::", MetricText(m) + ("::" + IntText(nanos)),
                        MetricText(n) + ("::" + IntText(nanos)));
  }

  lemma FreshOrder(env: Env, record: MetricRecord, t: Threshold, u: Threshold)
    requires env.nanos(record.recordedAt).Some? && MetricRank(t.metricKey) <= MetricRank(u.metricKey)
    ensures BreachOrder()(BreachFor(env, record, t), BreachFor(env, record, u))
  {
    AlphabeticalIds(record.alphaId, t.metricKey, u.metricKey, env.nanos(record.recordedAt).value);
    TextLeqReflexive(record.recordedAt);
  }

  /** A report is already in the code's breach order. */
  lemma ReportIsSorted(env: Env, record: MetricRecord, thresholds: seq<Threshold>, breaches: seq<Breach>)
    requires IsReport(env, record, thresholds, breaches)
    ensures Sort(BreachOrder(), breaches) == breaches
  {
    forall i, j | 0 <= i < j < |breaches| ensures BreachOrder()(breaches[i], breaches[j]) {
      assert breaches[i] in breaches && breaches[j] in breaches;
      var t :| t in thresholds && Violates(record, t) && breaches[i] == BreachFor(env, record, t);
      var u :| u in thresholds && Violates(record, u) && breaches[j] == BreachFor(env, record, u);
      FreshOrder(env, record, t, u);
    }
    SortKeepsSorted(BreachOrder(), breaches);
  }

  /** The breach one threshold adds; canonicalising it cannot fail. */
  method MeasureThreshold(env: Env, record: MetricRecord, t: Threshold) returns (r: Option<Breach>)
    requires IsCanonical(env, record) && ValidThreshold(t)
    ensures r == if Violates(record, t) then Some(BreachFor(env, record, t)) else None
  {
    var observed := Observed(record, t.metricKey);
    if !IsBreached(t.metricKey, observed, t.value) {
      return None;
    }
    var reason := ReasonText(env, t, observed);
    var breach :=
      Breach(BreachIdOf(record.alphaId, t.metricKey, env.nanos(record.recordedAt).value), record.metricId,
             record.alphaId, t.metricKey, t.comparator, observed, t.value, reason,
             "alpha_health_threshold_breach_detected", record.actorId, record.correlationId, record.recordedAt);
    FreshBreachIsCanonical(env, record, t, reason);
    return Some(CanonicalizeBreach(env, breach).value);
  }

  lemma EarlierRankLower(canonical: seq<Threshold>, i: nat)
    requires Sorted(ThresholdOrder(), canonical) && i < |canonical|
    requires forall u :: u in canonical[..i] ==> u.metricKey != canonical[i].metricKey
    ensures forall u :: u in canonical[..i] ==> MetricRank(u.metricKey) < MetricRank(canonical[i].metricKey)
  {
    forall u | u in canonical[..i] ensures MetricRank(u.metricKey) < MetricRank(canonical[i].metricKey) {
      var j :| 0 <= j < i && canonical[j] == u;
      RankFollowsOrder(u, canonical[i]);
      RankInjective(u.metricKey, canonical[i].metricKey);
    }
  }

  method EvaluateAlphaHealthThresholds(env: Env, metricRecord: MetricRecord, thresholds: seq<Threshold>)
    returns (r: Result<seq<Breach>, HealthError>)
    ensures r.Success? <==>
            && thresholds != [] && ValidRecord(env, CanonicalRecord(metricRecord))
            && (forall t :: t in thresholds ==> ValidThreshold(t)) && DistinctBy(MetricOf, thresholds)
    ensures r.Success? ==> IsReport(env, CanonicalRecord(metricRecord), thresholds, r.value)
  {
    if thresholds == [] || !ValidRecord(env, CanonicalRecord(metricRecord))
       || (exists t :: t in thresholds && !ValidThreshold(t)) {
      return Failure(InvalidPayload);
    }
    CanonicalRecordIsCanonical(env, metricRecord);
    var canonical := Sort(ThresholdOrder(), thresholds);
    SortContents(ThresholdOrder(), thresholds);
    ThresholdOrderTotal();
    SortSorted(ThresholdOrder(), thresholds);
    var breaches := MeasureInOrder(env, CanonicalRecord(metricRecord), canonical);
    if breaches.Failure? {
      DistinctReversed(canonical, thresholds);
      return breaches;
    }
    DistinctPermutes(MetricOf, canonical, thresholds);
    ReportOfSame(env, CanonicalRecord(metricRecord), canonical, thresholds, breaches.value);
    ReportIsSorted(env, CanonicalRecord(metricRecord), thresholds, breaches.value);
    return Success(Sort(BreachOrder(), breaches.value));
  }

  lemma DistinctReversed(canonical: seq<Threshold>, thresholds: seq<Threshold>)
    requires multiset(canonical) == multiset(thresholds) && !DistinctBy(MetricOf, canonical)
    ensures !DistinctBy(MetricOf, thresholds)
  {
    if DistinctBy(MetricOf, thresholds) {
      DistinctPermutes(MetricOf, thresholds, canonical);
    }
  }

  /** Thresholds measured so far: distinct metrics, all seen, reported in order. */
  ghost predicate Measured(env: Env, record: MetricRecord, done: seq<Threshold>, seen: set<MetricKey>,
                           breaches: seq<Breach>) {
    && (forall m :: m in seen <==> exists t :: t in done && t.metricKey == m)
    && DistinctBy(MetricOf, done) && IsReport(env, record, done, breaches)
  }

  lemma MeasuredExtends(env: Env, record: MetricRecord, canonical: seq<Threshold>, i: nat, seen: set<MetricKey>,
                        breaches: seq<Breach>)
    requires Sorted(ThresholdOrder(), canonical) && i < |canonical|
             && Measured(env, record, canonical[..i], seen, breaches)
    requires canonical[i].metricKey !in seen
    ensures Measured(env, record, canonical[..i + 1], seen + {canonical[i].metricKey},
                     if Violates(record, canonical[i]) then breaches + [BreachFor(env, record, canonical[i])]
                     else breaches)
  {
    assert canonical[..i + 1] == canonical[..i] + [canonical[i]];
    assert forall u :: u in canonical[..i] ==> u.metricKey in seen;
    EarlierRankLower(canonical, i);
    ReportExtends(env, record, canonical[..i], canonical[i], breaches);
    DistinctExtends(canonical, i);
  }

  lemma DistinctExtends(canonical: seq<Threshold>, i: nat)
    requires i < |canonical| && DistinctBy(MetricOf, canonical[..i])
    requires forall u :: u in canonical[..i] ==> u.metricKey != canonical[i].metricKey
    ensures DistinctBy(MetricOf, canonical[..i + 1])
  {
    assert forall j :: 0 <= j < i ==> canonical[j] in canonical[..i];
  }

  /** The loop over the sorted thresholds, which stops at the first metric it has already seen. */
  method MeasureInOrder(env: Env, record: MetricRecord, canonical: seq<Threshold>)
    returns (r: Result<seq<Breach>, HealthError>)
    requires IsCanonical(env, record) && Sorted(ThresholdOrder(), canonical)
    requires forall t :: t in canonical ==> ValidThreshold(t)
    ensures r.Success? <==> DistinctBy(MetricOf, canonical)
    ensures r.Success? ==> IsReport(env, record, canonical, r.value)
  {
    var seen: set<MetricKey>, breaches: seq<Breach> := {}, [];
    for i := 0 to |canonical|
      invariant Measured(env, record, canonical[..i], seen, breaches)
    {
      if canonical[i].metricKey in seen {
        RepeatedKey(canonical, i);
        return Failure(InvalidPayload);
      }
      MeasuredExtends(env, record, canonical, i, seen, breaches);
      seen := seen + {canonical[i].metricKey};
      var breach := MeasureThreshold(env, record, canonical[i]);
      if breach.Some? {
        breaches := breaches + [breach.value];
      }
    }
    assert canonical[..|canonical|] == canonical;
    return Success(breaches);
  }

  lemma RepeatedKey(canonical: seq<Threshold>, i: nat)
    requires i < |canonical| && exists u :: u in canonical[..i] && u.metricKey == canonical[i].metricKey
    ensures !DistinctBy(MetricOf, canonical)
  {
    var u :| u in canonical[..i] && u.metricKey == canonical[i].metricKey;
    var j :| 0 <= j < i && canonical[j] == u;
    assert MetricOf(canonical[j]) == MetricOf(canonical[i]);
  }

  lemma RankInjective(m: MetricKey, n: MetricKey)
    ensures MetricRank(m) == MetricRank(n) ==> m == n
  {
  }

  // ---------- the deallocation trigger ----------

  function CanonicalBreaches(breaches: seq<Breach>): (r: seq<Breach>)
    ensures |r| == |breaches| && forall i :: 0 <= i < |r| ==> r[i] == CanonicalBreach(breaches[i])
  {
    seq(|breaches|, i requires 0 <= i < |breaches| => CanonicalBreach(breaches[i]))
  }

  /** Latest first by the text of the timestamp, then by id. */
  function InBreachOrder(breaches: seq<Breach>): seq<Breach> {
    Sort(BreachOrder(), CanonicalBreaches(breaches))
  }

  /** k is the first breach of its metric. */
  predicate Leads(ordered: seq<Breach>, k: nat) {
    k < |ordered| && forall j :: 0 <= j < k ==> ordered[j].metricKey != ordered[k].metricKey
  }

  /** k leads its metric and violates that metric's policy. */
  predicate Fires(policies: seq<Threshold>, ordered: seq<Breach>, k: nat) {
    && Leads(ordered, k)
    && exists p :: p in policies && p.metricKey == ordered[k].metricKey
                   && Compare(p.comparator, ordered[k].observed, p.value)
  }

  /** The first breach that fires decides; a metric's later breaches are never consulted. */
  ghost predicate Decides(policies: seq<Threshold>, ordered: seq<Breach>, e: Evaluation) {
    if e.triggered then
      exists k: nat ::
        && Fires(policies, ordered, k) && (forall j: nat :: j < k ==> !Fires(policies, ordered, j))
        && e.breach == Some(ordered[k]) && e.criteria == ["deallocation_threshold:" + MetricText(ordered[k].metricKey)]
    else
      e == Evaluation(false, [], None) && forall k: nat :: !Fires(policies, ordered, k)
  }

  lemma MetricTextInjective(m: MetricKey, n: MetricKey)
    requires MetricText(m) == MetricText(n)
    ensures m == n
  {
    assert MetricText(m)[0] == MetricText(n)[0];
    assert |MetricText(m)| == |MetricText(n)|;
    assert m.RollingSharpe? ==> MetricText(m)[8] == 's';
  }

  method FindPolicy(policies: seq<Threshold>, metricKey: string) returns (r: Option<Threshold>)
    ensures r.Some? ==> r.value in policies && MetricText(r.value.metricKey) == metricKey
    ensures r.None? ==> forall p :: p in policies ==> MetricText(p.metricKey) != metricKey
  {
    for i := 0 to |policies|
      invariant forall p :: p in policies[..i] ==> MetricText(p.metricKey) != metricKey
    {
      assert policies[..i + 1] == policies[..i] + [policies[i]];
      if MetricText(policies[i].metricKey) == metricKey {
        return Some(policies[i]);
      }
    }
    assert policies[..|policies|] == policies;
    return None;
  }

  method HasRepeatedMetric(policies: seq<Threshold>) returns (repeated: bool)
    ensures repeated <==> !DistinctBy(MetricOf, policies)
  {
    var seen: set<MetricKey> := {};
    for i := 0 to |policies|
      invariant forall m :: m in seen <==> exists t :: t in policies[..i] && t.metricKey == m
      invariant DistinctBy(MetricOf, policies[..i])
    {
      assert policies[..i + 1] == policies[..i] + [policies[i]];
      if policies[i].metricKey in seen {
        RepeatedKey(policies, i);
        return true;
      }
      assert forall j :: 0 <= j < i ==> policies[j] in policies[..i];
      seen := seen + {policies[i].metricKey};
    }
    assert policies[..|policies|] == policies;
    return false;
  }

  method EvaluateDeallocationTrigger(env: Env, breaches: seq<Breach>, policies: seq<Threshold>)
    returns (r: Result<Evaluation, HealthError>)
    ensures r.Success? <==>
            && policies != [] && (forall p :: p in policies ==> ValidThreshold(p)) && DistinctBy(MetricOf, policies)
            && (forall b :: b in breaches ==> CanonicalizeBreach(env, b).Success?)
    ensures r.Success? ==> Decides(policies, InBreachOrder(breaches), r.value)
    ensures r.Success? ==> (r.value.triggered <==> exists k: nat :: Fires(policies, InBreachOrder(breaches), k))
  {
    if policies == [] || exists p :: p in policies && !ValidThreshold(p) {
      return Failure(InvalidPayload);
    }
    var canonical := Sort(ThresholdOrder(), policies);
    SortContents(ThresholdOrder(), policies);
    var repeated := HasRepeatedMetric(canonical);
    if repeated {
      DistinctReversed(canonical, policies);
      return Failure(InvalidPayload);
    }
    DistinctPermutes(MetricOf, canonical, policies);
    if exists b :: b in breaches && CanonicalizeBreach(env, b).Failure? {
      return Failure(InvalidPayload);
    }
    var e := Trigger(canonical, InBreachOrder(breaches));
    DecidesForSame(canonical, policies, InBreachOrder(breaches), e);
    DecidesIff(policies, InBreachOrder(breaches), e);
    return Success(e);
  }

  method Trigger(policies: seq<Threshold>, ordered: seq<Breach>) returns (e: Evaluation)
    requires DistinctBy(MetricOf, policies)
    ensures Decides(policies, ordered, e)
  {
    var evaluated: set<string> := {};
    for k := 0 to |ordered|
      invariant forall text :: text in evaluated <==> exists j :: 0 <= j < k && MetricText(ordered[j].metricKey) == text
      invariant forall j: nat :: j < k ==> !Fires(policies, ordered, j)
    {
      var breach := ordered[k];
      var metricKey := MetricText(breach.metricKey);
      if metricKey in evaluated {
        NotLeading(ordered, k);
        continue;
      }
      LeadingWhenNew(ordered, k);
      evaluated := evaluated + {metricKey};
      var policy := FindPolicy(policies, metricKey);
      if policy.Some? {
        PolicyOfMetric(policies, policy.value, ordered, k);
        if Compare(policy.value.comparator, breach.observed, policy.value.value) {
          return Evaluation(true, ["deallocation_threshold:" + metricKey], Some(breach));
        }
      }
    }
    return Evaluation(false, [], None);
  }

  lemma LeadingWhenNew(ordered: seq<Breach>, k: nat)
    requires k < |ordered|
    requires !exists j :: 0 <= j < k && MetricText(ordered[j].metricKey) == MetricText(ordered[k].metricKey)
    ensures Leads(ordered, k)
  {
  }

  lemma NotLeading(ordered: seq<Breach>, k: nat)
    requires k < |ordered| && exists j :: 0 <= j < k
                                          && MetricText(ordered[j].metricKey) == MetricText(ordered[k].metricKey)
    ensures !Leads(ordered, k)
  {
    var j :| 0 <= j < k && MetricText(ordered[j].metricKey) == MetricText(ordered[k].metricKey);
    MetricTextInjective(ordered[j].metricKey, ordered[k].metricKey);
  }

  /** With one policy for each metric, the policy found is the one that counts. */
  lemma PolicyOfMetric(policies: seq<Threshold>, p: Threshold, ordered: seq<Breach>, k: nat)
    requires DistinctBy(MetricOf, policies) && p in policies
    requires Leads(ordered, k) && MetricText(p.metricKey) == MetricText(ordered[k].metricKey)
    ensures Fires(policies, ordered, k) <==> Compare(p.comparator, ordered[k].observed, p.value)
  {
    MetricTextInjective(p.metricKey, ordered[k].metricKey);
    forall q | q in policies && q.metricKey == p.metricKey ensures q == p {
      SamePolicy(policies, p, q);
    }
  }

  lemma SamePolicy(policies: seq<Threshold>, p: Threshold, q: Threshold)
    requires DistinctBy(MetricOf, policies) && p in policies && q in policies && p.metricKey == q.metricKey
    ensures p == q
  {
    var i :| 0 <= i < |policies| && policies[i] == p;
    var j :| 0 <= j < |policies| && policies[j] == q;
    assert MetricOf(policies[i]) == MetricOf(policies[j]);
  }

  lemma DecidesForSame(s: seq<Threshold>, t: seq<Threshold>, ordered: seq<Breach>, e: Evaluation)
    requires Decides(s, ordered, e) && forall p :: p in s <==> p in t
    ensures Decides(t, ordered, e)
  {
    forall k: nat ensures Fires(s, ordered, k) == Fires(t, ordered, k) {
    }
  }

  // ---------- the trigger fires exactly when some leading breach violates its policy ----------

  /** The first breach of a metric is below every other breach of that metric in the code's order. */
  lemma LeadingIsLeast(breaches: seq<Breach>, k: nat, j: nat)
    requires Leads(InBreachOrder(breaches), k) && j < |breaches|
             && CanonicalBreach(breaches[j]).metricKey == InBreachOrder(breaches)[k].metricKey
    ensures BreachOrder()(InBreachOrder(breaches)[k], CanonicalBreach(breaches[j]))
    ensures var b, c := InBreachOrder(breaches)[k], CanonicalBreach(breaches[j]);
            TextLeq(c.breachedAt, b.breachedAt)
            && (c.breachedAt == b.breachedAt ==> TextLeq(b.breachId, c.breachId))
  {
    TextLeqReflexive(InBreachOrder(breaches)[k].breachedAt);
    var ordered := InBreachOrder(breaches);
    BreachOrderTotal();
    SortSorted(BreachOrder(), CanonicalBreaches(breaches));
    SortContents(BreachOrder(), CanonicalBreaches(breaches));
    assert CanonicalBreaches(breaches)[j] in ordered;
    var i :| 0 <= i < |ordered| && ordered[i] == CanonicalBreach(breaches[j]);
    assert i >= k;
  }

  /** An evaluation fires exactly when some breach does. */
  lemma DecidesIff(policies: seq<Threshold>, ordered: seq<Breach>, e: Evaluation)
    requires Decides(policies, ordered, e)
    ensures e.triggered <==> exists k: nat :: Fires(policies, ordered, k)
  {
  }

  /** The drawdown violates a policy from above, every other metric from below. */
  predicate OutOfPolicy(policies: seq<Threshold>, b: Breach) {
    exists p :: p in policies && p.metricKey == b.metricKey
                && if b.metricKey == RollingDrawdown then b.observed > p.value else b.observed < p.value
  }

  /**
   * The trigger fires exactly when the first breach of some metric is out of that metric's policy; it answers such a
   * breach, canonical but with its figures as given, and the one criterion that names its metric.
   */
  lemma TriggerReads(breaches: seq<Breach>, policies: seq<Threshold>, e: Evaluation)
    requires Decides(policies, InBreachOrder(breaches), e) && forall p :: p in policies ==> ValidThreshold(p)
    ensures e.triggered <==> exists k: nat :: Leads(InBreachOrder(breaches), k)
                                              && OutOfPolicy(policies, InBreachOrder(breaches)[k])
    ensures !e.triggered ==> e.criteria == [] && e.breach == None
    ensures e.triggered ==>
              && e.breach.Some? && OutOfPolicy(policies, e.breach.value)
              && e.criteria == ["deallocation_threshold:" + match e.breach.value.metricKey
                                                            case RollingSharpe => "rolling_sharpe"
                                                            case RollingHitRate => "rolling_hit_rate"
                                                            case RollingDrawdown => "rolling_drawdown"
                                                            case StabilityScore => "stability_score"]
              && exists b :: b in breaches && Kept(b, e.breach.value)
  {
    var ordered := InBreachOrder(breaches);
    forall k: nat ensures Fires(policies, ordered, k) <==> Leads(ordered, k) && OutOfPolicy(policies, ordered[k]) {
      FiresOutOfPolicy(policies, ordered, k);
    }
    if e.triggered {
      var k: nat :| Fires(policies, ordered, k) && e.breach == Some(ordered[k]);
      LeaderIsGiven(breaches, k);
    }
  }

  lemma FiresOutOfPolicy(policies: seq<Threshold>, ordered: seq<Breach>, k: nat)
    requires forall p :: p in policies ==> ValidThreshold(p)
    ensures Fires(policies, ordered, k) <==> Leads(ordered, k) && OutOfPolicy(policies, ordered[k])
  {
  }

  /** c is b with its identifiers normalised and its texts trimmed. */
  predicate Kept(b: Breach, c: Breach) {
    c == Breach(Normalize(b.breachId), Normalize(b.metricId), Normalize(b.alphaId), b.metricKey, b.comparator,
                b.observed, b.threshold, Trim(b.breachReason), Normalize(b.reasonCode), Trim(b.actorId),
                Trim(b.correlationId), Trim(b.breachedAt))
  }

  lemma LeaderIsGiven(breaches: seq<Breach>, k: nat)
    requires Leads(InBreachOrder(breaches), k)
    ensures exists b :: b in breaches && Kept(b, InBreachOrder(breaches)[k])
  {
    var given := CanonicalBreaches(breaches);
    SortContents(BreachOrder(), given);
    assert InBreachOrder(breaches)[k] in given;
    var i :| 0 <= i < |given| && given[i] == InBreachOrder(breaches)[k];
    assert breaches[i] in breaches && Kept(breaches[i], given[i]);
  }

  /** A breach is accepted exactly when it is complete, timed, of a known reason, and compares as its metric demands. */
  lemma BreachAcceptedIff(env: Env, b: Breach)
    ensures CanonicalizeBreach(env, b).Success? <==>
            && Trim(b.breachId) != "" && Trim(b.metricId) != "" && Trim(b.alphaId) != "" && Trim(b.breachReason) != ""
            && Trim(b.actorId) != "" && Trim(b.correlationId) != "" && Trim(b.breachedAt) != ""
            && env.nanos(Trim(b.breachedAt)).Some? && KnownReason(Normalize(b.reasonCode))
            && b.comparator == if b.metricKey == RollingDrawdown then Gt else Lt
  {
    NormalizeKeepsBlank(b.breachId);
    NormalizeKeepsBlank(b.metricId);
    NormalizeKeepsBlank(b.alphaId);
    TrimIdempotent(b.breachReason);
    TrimIdempotent(b.actorId);
    TrimIdempotent(b.correlationId);
    TrimIdempotent(b.breachedAt);
    if KnownReason(Normalize(b.reasonCode)) {
      KnownIsNotBlank(Normalize(b.reasonCode));
    }
  }

  lemma KnownIsNotBlank(code: string)
    requires KnownReason(code)
    ensures !Blank(code)
  {
    NotBlank(code, 0);
  }

  // ---------- when the breach consulted is the latest of its metric ----------

  function BreachTime(env: Env, b: Breach): int {
    if env.nanos(b.breachedAt).Some? then env.nanos(b.breachedAt).value else 0
  }

  /** No breach of b's metric is later than b. */
  predicate LatestOfMetric(env: Env, given: seq<Breach>, b: Breach) {
    forall c :: c in given && c.metricKey == b.metricKey ==> BreachTime(env, c) <= BreachTime(env, b)
  }

  /** No breach of b's metric has a greater timestamp text than b. */
  predicate GreatestOfMetric(given: seq<Breach>, b: Breach) {
    forall c :: c in given && c.metricKey == b.metricKey ==> TextLeq(c.breachedAt, b.breachedAt)
  }

  /** The breaches of a metric whose texts are greatest are its latest. */
  ghost predicate GreatestAreLatest(env: Env, given: seq<Breach>, m: MetricKey) {
    forall b :: b in given && b.metricKey == m && GreatestOfMetric(given, b) ==> LatestOfMetric(env, given, b)
  }

  /**
   * The breach the trigger consults for a metric is one of its latest exactly when its breaches with the greatest text
   * are.
   */
  lemma ConsultedIsLatestIff(env: Env, breaches: seq<Breach>, k: nat)
    requires Leads(InBreachOrder(breaches), k)
    ensures LatestOfMetric(env, CanonicalBreaches(breaches), InBreachOrder(breaches)[k])
       <==> GreatestAreLatest(env, CanonicalBreaches(breaches), InBreachOrder(breaches)[k].metricKey)
  {
    var given, b := CanonicalBreaches(breaches), InBreachOrder(breaches)[k];
    LeaderIsGreatest(breaches, k);
    forall c | c in given && c.metricKey == b.metricKey && GreatestOfMetric(given, c)
      ensures c.breachedAt == b.breachedAt
    {
      TextLeqAntisymmetric(c.breachedAt, b.breachedAt);
    }
  }

  lemma LeaderIsGreatest(breaches: seq<Breach>, k: nat)
    requires Leads(InBreachOrder(breaches), k)
    ensures InBreachOrder(breaches)[k] in CanonicalBreaches(breaches)
    ensures GreatestOfMetric(CanonicalBreaches(breaches), InBreachOrder(breaches)[k])
  {
    var given, b := CanonicalBreaches(breaches), InBreachOrder(breaches)[k];
    SortContents(BreachOrder(), given);
    assert b in InBreachOrder(breaches);
    forall c | c in given && c.metricKey == b.metricKey ensures TextLeq(c.breachedAt, b.breachedAt) {
      var j :| 0 <= j < |given| && given[j] == c;
      LeadingIsLeast(breaches, k, j);
      LaterTextFirst(b, c);
    }
  }

  /** Every metric with a breach has a first one. */
  lemma LeaderExists(ordered: seq<Breach>, b: Breach) returns (k: nat)
    requires b in ordered
    ensures Leads(ordered, k) && ordered[k].metricKey == b.metricKey
  {
    var j :| 0 <= j < |ordered| && ordered[j] == b;
    k := 0;
    while ordered[k].metricKey != b.metricKey
      invariant k <= j && forall i :: 0 <= i < k ==> ordered[i].metricKey != b.metricKey
      decreases j - k
    {
      k := k + 1;
    }
  }

  predicate ViolatesPolicy(policies: seq<Threshold>, b: Breach) {
    exists p :: p in policies && p.metricKey == b.metricKey && Compare(p.comparator, b.observed, p.value)
  }

  ghost predicate AllGreatestAreLatest(env: Env, given: seq<Breach>) {
    forall b :: b in given ==> GreatestAreLatest(env, given, b.metricKey)
  }

  /** Some latest breach of its metric violates the policy. */
  ghost predicate LatestViolates(env: Env, given: seq<Breach>, policies: seq<Threshold>) {
    exists b :: b in given && LatestOfMetric(env, given, b) && ViolatesPolicy(policies, b)
  }

  /** Breaches of one metric that are latest together were observed alike. */
  ghost predicate LatestAgree(env: Env, given: seq<Breach>) {
    forall b, c ::
      (b in given && c in given && b.metricKey == c.metricKey && LatestOfMetric(env, given, b)
       && LatestOfMetric(env, given, c))
      ==> b.observed == c.observed
  }

  /** Then a trigger that fires does so on a latest breach of its metric that violates the policy. */
  lemma FiresOnLatest(env: Env, breaches: seq<Breach>, policies: seq<Threshold>, e: Evaluation)
    requires AllGreatestAreLatest(env, CanonicalBreaches(breaches))
    requires Decides(policies, InBreachOrder(breaches), e) && e.triggered
    ensures e.breach.Some? && e.breach.value in CanonicalBreaches(breaches)
    ensures LatestOfMetric(env, CanonicalBreaches(breaches), e.breach.value) && ViolatesPolicy(policies, e.breach.value)
  {
    var k: nat :| Fires(policies, InBreachOrder(breaches), k) && e.breach == Some(InBreachOrder(breaches)[k]);
    LeaderIsGreatest(breaches, k);
    ConsultedIsLatestIff(env, breaches, k);
  }

  /** And it fires exactly when some metric's latest breach violates its policy. */
  lemma FiresOnLatestIff(env: Env, breaches: seq<Breach>, policies: seq<Threshold>, e: Evaluation)
    requires AllGreatestAreLatest(env, CanonicalBreaches(breaches)) && LatestAgree(env, CanonicalBreaches(breaches))
    requires Decides(policies, InBreachOrder(breaches), e)
    ensures e.triggered <==> LatestViolates(env, CanonicalBreaches(breaches), policies)
  {
    var given := CanonicalBreaches(breaches);
    if e.triggered {
      FiresOnLatest(env, breaches, policies, e);
    }
    if LatestViolates(env, given, policies) {
      var b :| b in given && LatestOfMetric(env, given, b) && ViolatesPolicy(policies, b);
      LatestFires(env, breaches, policies, b);
      DecidesIff(policies, InBreachOrder(breaches), e);
    }
  }

  lemma LatestFires(env: Env, breaches: seq<Breach>, policies: seq<Threshold>, b: Breach)
    requires AllGreatestAreLatest(env, CanonicalBreaches(breaches)) && LatestAgree(env, CanonicalBreaches(breaches))
    requires b in CanonicalBreaches(breaches) && LatestOfMetric(env, CanonicalBreaches(breaches), b)
    requires ViolatesPolicy(policies, b)
    ensures exists k: nat :: Fires(policies, InBreachOrder(breaches), k)
  {
    SortContents(BreachOrder(), CanonicalBreaches(breaches));
    var k := LeaderExists(InBreachOrder(breaches), b);
    LeaderIsGreatest(breaches, k);
    ConsultedIsLatestIff(env, breaches, k);
    assert InBreachOrder(breaches)[k].observed == b.observed;
    assert Fires(policies, InBreachOrder(breaches), k);
  }

  /** The breach's time is written as the report writer writes it. */
  ghost predicate Written(env: Env, b: Breach) {
    && env.nanos(b.breachedAt).Some? && InRange(BreachTime(env, b))
    && b.breachedAt == TimestampText(BreachTime(env, b))
  }

  /**
   * With times so written, a metric's greatest texts are its latest exactly when its latest time clashes with no
   * earlier one.
   */
  lemma WrittenGreatestIff(env: Env, given: seq<Breach>, b: Breach)
    requires forall c :: c in given ==> Written(env, c)
    requires b in given && LatestOfMetric(env, given, b)
    ensures GreatestAreLatest(env, given, b.metricKey)
       <==> forall c :: c in given && c.metricKey == b.metricKey ==> !Clash(BreachTime(env, c), BreachTime(env, b))
  {
    forall c | c in given && c.metricKey == b.metricKey
      ensures TextLeq(c.breachedAt, b.breachedAt) <==> !Clash(BreachTime(env, c), BreachTime(env, b))
      ensures BreachTime(env, c) == BreachTime(env, b) ==> c.breachedAt == b.breachedAt
    {
      assert Written(env, c) && Written(env, b);
      WrittenOrder(env, c, b);
    }
    LatestIsGreatestIff(env, given, b);
  }

  /** Where equal times of a metric have equal texts, its greatest texts are its latest if a latest one is greatest. */
  lemma LatestIsGreatestIff(env: Env, given: seq<Breach>, b: Breach)
    requires b in given && LatestOfMetric(env, given, b)
    requires forall c :: c in given && c.metricKey == b.metricKey && BreachTime(env, c) == BreachTime(env, b)
                         ==> c.breachedAt == b.breachedAt
    ensures GreatestAreLatest(env, given, b.metricKey) <==> GreatestOfMetric(given, b)
  {
    if GreatestOfMetric(given, b) {
      forall c | c in given && c.metricKey == b.metricKey && GreatestOfMetric(given, c)
        ensures c.breachedAt == b.breachedAt
      {
        TextLeqAntisymmetric(c.breachedAt, b.breachedAt);
      }
    } else {
      var c := SomeGreatest(given, b);
      assert LatestOfMetric(env, given, c) ==> c.breachedAt == b.breachedAt;
    }
  }

  lemma WrittenOrder(env: Env, c: Breach, b: Breach)
    requires Written(env, c) && Written(env, b) && BreachTime(env, c) <= BreachTime(env, b)
    ensures TextLeq(c.breachedAt, b.breachedAt) <==> !Clash(BreachTime(env, c), BreachTime(env, b))
    ensures BreachTime(env, c) == BreachTime(env, b) ==> c.breachedAt == b.breachedAt
  {
    WrittenInOrder(BreachTime(env, c), BreachTime(env, b), c.breachedAt, b.breachedAt);
  }

  /** A metric with a breach has one of greatest text. */
  lemma SomeGreatest(given: seq<Breach>, b: Breach) returns (c: Breach)
    requires b in given
    ensures c in given && c.metricKey == b.metricKey && GreatestOfMetric(given, c)
  {
    c := b;
    for i := 0 to |given|
      invariant c in given && c.metricKey == b.metricKey
      invariant forall j :: 0 <= j < i && given[j].metricKey == b.metricKey
                            ==> TextLeq(given[j].breachedAt, c.breachedAt)
    {
      TextLeqTotal(given[i].breachedAt, c.breachedAt);
      TextLeqOrder();
      if given[i].metricKey == b.metricKey && !TextLeq(given[i].breachedAt, c.breachedAt) {
        c := given[i];
      }
    }
  }

  lemma LaterTextFirst(b: Breach, c: Breach)
    ensures BreachOrder()(b, c) ==> TextLeq(c.breachedAt, b.breachedAt)
  {
  }

  /** Of two breaches of one metric, the one with the greater text is the one consulted. */
  lemma GreaterTextDecides(policy: Threshold, greater: Breach, other: Breach, e: Evaluation)
    requires CanonicalBreach(greater) == greater && CanonicalBreach(other) == other
    requires greater.metricKey == other.metricKey == policy.metricKey
    requires !TextLeq(greater.breachedAt, other.breachedAt)
    requires Decides([policy], InBreachOrder([other, greater]), e)
    ensures InBreachOrder([other, greater]) == [greater, other]
    ensures e.triggered <==> Compare(policy.comparator, greater.observed, policy.value)
    ensures e.triggered ==> e.breach == Some(greater)
  {
    TwoBreaches(greater, other);
    assert Fires([policy], [greater, other], 0) <==> Compare(policy.comparator, greater.observed, policy.value) by {
      assert policy in [policy];
    }
    assert !Leads([greater, other], 1);
  }

  lemma SortsPair(leq: (Breach, Breach) -> bool, x: Breach, y: Breach)
    requires !leq(x, y)
    ensures Sort(leq, [x, y]) == [y, x]
  {
    assert [x, y][1..] == [y] && [y][1..] == [];
    assert Sort(leq, [y]) == [y];
    assert Insert(leq, x, [y]) == [y] + Insert(leq, x, []);
  }

  lemma TwoBreaches(greater: Breach, other: Breach)
    requires CanonicalBreach(greater) == greater && CanonicalBreach(other) == other
    requires !TextLeq(greater.breachedAt, other.breachedAt)
    ensures InBreachOrder([other, greater]) == [greater, other]
  {
    LaterTextFirst(other, greater);
    assert CanonicalBreaches([other, greater]) == [other, greater];
    SortsPair(BreachOrder(), other, greater);
  }

  /**
   * So the older breach can decide: with the older on a whole second and the newer half a second later, the trigger
   * fires on the older although the newer meets the policy.
   */
  lemma OlderBreachDecides(env: Env, policy: Threshold, older: Breach, newer: Breach, e: Evaluation)
    requires CanonicalizeBreach(env, older) == Success(older) && CanonicalizeBreach(env, newer) == Success(newer)
    requires older.metricKey == newer.metricKey == policy.metricKey && BreachTime(env, older) < BreachTime(env, newer)
    requires HalfSecondApart(older.breachedAt, newer.breachedAt)
    requires Compare(policy.comparator, older.observed, policy.value)
             && !Compare(policy.comparator, newer.observed, policy.value)
    requires Decides([policy], InBreachOrder([newer, older]), e)
    ensures e.triggered && e.breach == Some(older)
  {
    HalfSecondSortsFirst(older.breachedAt, newer.breachedAt);
    GreaterTextDecides(policy, older, newer, e);
  }

  // ---------- measured breaches, with the same definitions as policies ----------

  lemma FreshBreachStays(env: Env, record: MetricRecord, t: Threshold)
    requires IsCanonical(env, record) && ValidThreshold(t)
    ensures CanonicalizeBreach(env, BreachFor(env, record, t)) == Success(BreachFor(env, record, t))
  {
    var reason := ReasonText(env, t, Observed(record, t.metricKey));
    FreshBreachIsCanonical(env, record, t, reason);
    CanonicalBreachIdempotent(BreachFor(env, record, t).(breachReason := reason));
  }

  lemma ReportStaysCanonical(env: Env, record: MetricRecord, thresholds: seq<Threshold>, breaches: seq<Breach>)
    requires IsCanonical(env, record) && IsReport(env, record, thresholds, breaches)
    requires forall t :: t in thresholds ==> ValidThreshold(t)
    ensures forall b :: b in breaches ==> CanonicalizeBreach(env, b) == Success(b)
    ensures InBreachOrder(breaches) == breaches
  {
    forall b | b in breaches ensures CanonicalizeBreach(env, b) == Success(b) {
      var t :| t in thresholds && Violates(record, t) && b == BreachFor(env, record, t);
      FreshBreachStays(env, record, t);
    }
    assert forall i :: 0 <= i < |breaches| ==> breaches[i] in breaches;
    assert CanonicalBreaches(breaches) == breaches;
    ReportIsSorted(env, record, thresholds, breaches);
  }

  lemma EveryReportedBreachFires(env: Env, record: MetricRecord, thresholds: seq<Threshold>, breaches: seq<Breach>,
                                 k: nat)
    requires IsReport(env, record, thresholds, breaches) && k < |breaches|
    requires forall t :: t in thresholds ==> ValidThreshold(t)
    ensures Fires(thresholds, breaches, k)
  {
    assert breaches[k] in breaches;
    var t :| t in thresholds && Violates(record, t) && breaches[k] == BreachFor(env, record, t);
    assert Compare(t.comparator, breaches[k].observed, t.value);
    assert Leads(breaches, k);
  }

  /**
   * Fed its own measurements, with the thresholds as policies, the trigger accepts them, fires exactly when a
   * threshold is violated, and names the violated metric that comes first in the alphabet.
   */
  lemma MeasuredBreachesDeallocate(env: Env, metricRecord: MetricRecord, thresholds: seq<Threshold>,
                                   breaches: seq<Breach>, e: Evaluation)
    requires thresholds != [] && ValidRecord(env, CanonicalRecord(metricRecord))
    requires (forall t :: t in thresholds ==> ValidThreshold(t)) && DistinctBy(MetricOf, thresholds)
    requires IsReport(env, CanonicalRecord(metricRecord), thresholds, breaches)
    requires Decides(thresholds, InBreachOrder(breaches), e)
    ensures forall b :: b in breaches ==> CanonicalizeBreach(env, b).Success?
    ensures e.triggered <==> breaches != []
    ensures e.triggered <==> exists t :: t in thresholds && Violates(CanonicalRecord(metricRecord), t)
    ensures e.triggered ==>
              && e.breach == Some(breaches[0])
              && forall t :: t in thresholds && Violates(CanonicalRecord(metricRecord), t)
                             ==> MetricRank(breaches[0].metricKey) <= MetricRank(t.metricKey)
  {
    var record := CanonicalRecord(metricRecord);
    CanonicalRecordIsCanonical(env, metricRecord);
    ReportStaysCanonical(env, record, thresholds, breaches);
    if breaches != [] {
      EveryReportedBreachFires(env, record, thresholds, breaches, 0);
      assert breaches[0] in breaches;
    }
    forall t | t in thresholds && Violates(record, t)
      ensures breaches != [] && MetricRank(breaches[0].metricKey) <= MetricRank(t.metricKey)
    {
      assert BreachFor(env, record, t) in breaches;
      var i :| 0 <= i < |breaches| && breaches[i] == BreachFor(env, record, t);
    }
  }
}
