/** Alert suppression over a whole history, and the identifiers of the alerts that get through. */
module Alerts {
  import opened Wrappers
  import opened Text

  datatype AlertError = InvalidPayload

  /** The parts of an alert that suppression reads, and its identifier. */
  datatype Alert = Alert(alertId: string, correlationId: string, reasonCode: string, issuedAt: string)

  datatype Candidate = Candidate(reasonCode: string, correlationId: string, issuedAt: string)

  /** Outside code: the RFC 3339 UTC reader, in unix nanoseconds. */
  type Reader = string -> Option<int>

  function Moment(read: Reader, text: string): Option<int> {
    read(Trim(text))
  }

  const SECOND: int := 1_000_000_000

  predicate TriggerReason(code: string) {
    code in {"alert_drawdown_limit_exceeded", "alert_stream_disconnect_exceeded", "alert_reconciliation_lag_exceeded",
             "alert_stale_data_detected", "alert_policy_bypass_attempt", "alert_alpha_health_threshold_breach"}
  }

  predicate RegimeReason(code: string) {
    code in {"alert_regime_rebate_delta_exceeded", "alert_regime_spread_widening_exceeded",
             "alert_regime_eligibility_transition"}
  }

  predicate ServiceReason(code: string) {
    code in {"alert_ready", "alert_no_trigger", "alert_invalid_payload", "alert_unauthorized",
             "alert_dependency_unavailable",
             "alert_stale_evidence", "alert_duplicate_suppressed", "alert_delivery_primary_failed",
             "alert_delivery_fallback_failed",
             "alert_delivery_sla_breached"}
  }

  predicate KnownReason(code: string) {
    TriggerReason(code) || RegimeReason(code) || ServiceReason(code)
  }

  // ---------- suppression ----------

  predicate ValidCandidate(read: Reader, c: Candidate) {
    CanonicalId(c.correlationId) && Moment(read, c.issuedAt).Some? && KnownReason(c.reasonCode)
  }

  function Distance(x: int, y: int): int {
    if x >= y then x - y else y - x
  }

  predicate SameCorrelation(a: Alert, c: Candidate) {
    Normalize(a.correlationId) == Normalize(c.correlationId)
  }

  /**
   * Scanning this alert ends in an error: it shares the correlation id but its reason, or then its time, does not
   * read.
   */
  predicate Unscannable(read: Reader, a: Alert, c: Candidate) {
    SameCorrelation(a, c)
    && (!KnownReason(a.reasonCode) || (a.reasonCode == c.reasonCode && Moment(read, a.issuedAt).None?))
  }

  /** An earlier or later alert of the same correlation id and reason, no more than the window away. */
  predicate Suppresses(read: Reader, a: Alert, c: Candidate, window: int)
    requires Moment(read, c.issuedAt).Some?
  {
    && SameCorrelation(a, c) && KnownReason(a.reasonCode) && a.reasonCode == c.reasonCode
    && Moment(read, a.issuedAt).Some?
    && Distance(Moment(read, c.issuedAt).value, Moment(read, a.issuedAt).value) <= window * SECOND
  }

  method ShouldEmitAlert(read: Reader, prior: seq<Alert>, c: Candidate, window: int)
    returns (r: Result<bool, AlertError>)
    ensures r == ShouldEmit(read, prior, c, window)
  {
    if window < 0 || !CanonicalId(c.correlationId) || Moment(read, c.issuedAt).None? || !KnownReason(c.reasonCode) {
      return Failure(InvalidPayload);
    }
    var issued := Moment(read, c.issuedAt).value;
    for i := 0 to |prior|
      invariant Scan(read, prior, c, window) == Scan(read, prior[i..], c, window)
    {
      var alert := prior[i];
      assert prior[i..][0] == alert && prior[i..][1..] == prior[i + 1..];
      if Normalize(alert.correlationId) != Normalize(c.correlationId) {
        continue;
      }
      if !KnownReason(alert.reasonCode) {
        return Failure(InvalidPayload);
      }
      if alert.reasonCode != c.reasonCode {
        continue;
      }
      if Moment(read, alert.issuedAt).None? {
        return Failure(InvalidPayload);
      }
      if Distance(issued, Moment(read, alert.issuedAt).value) <= window * SECOND {
        return Success(false);
      }
    }
    return Success(true);
  }

  /** The scan: the first alert that suppresses or cannot be read decides. */
  function Scan(read: Reader, prior: seq<Alert>, c: Candidate, window: int): Result<bool, AlertError>
    requires Moment(read, c.issuedAt).Some?
  {
    if prior == [] then Success(true)
    else if Unscannable(read, prior[0], c) then Failure(InvalidPayload)
    else if Suppresses(read, prior[0], c, window) then Success(false)
    else Scan(read, prior[1..], c, window)
  }

  function ShouldEmit(read: Reader, prior: seq<Alert>, c: Candidate, window: int): Result<bool, AlertError> {
    if window < 0 || !ValidCandidate(read, c) then Failure(InvalidPayload) else Scan(read, prior, c, window)
  }

  /**
   * An alert is emitted exactly when no earlier alert suppresses it and every one of its correlation id can be read.
   */
  lemma {:induction false} EmittedIff(read: Reader, prior: seq<Alert>, c: Candidate, window: int)
    requires Moment(read, c.issuedAt).Some?
    ensures Scan(read, prior, c, window) == Success(true)
       <==> forall a :: a in prior ==> !Unscannable(read, a, c) && !Suppresses(read, a, c, window)
  {
    if prior != [] {
      EmittedIff(read, prior[1..], c, window);
      assert prior == [prior[0]] + prior[1..];
    }
  }

  // ---------- identifiers ----------

  function SecondsOf(nanos: int): int {
    nanos / SECOND
  }

  function IdOf(reasonCode: string, correlationId: string, seconds: int): string {
    "incident::alert::" + reasonCode + "::" + correlationId + "::" + IntText(seconds)
  }

  function ComposeAlertIdentifier(read: Reader, c: Candidate): Result<string, AlertError> {
    if !CanonicalId(c.correlationId) || Moment(read, c.issuedAt).None? then Failure(InvalidPayload)
    else Success(IdOf(c.reasonCode, Normalize(c.correlationId), SecondsOf(Moment(read, c.issuedAt).value)))
  }

  /** Where the first colon of s is. */
  lemma FirstColon(x: string, a: string, s: string)
    requires s == x + ":" + a && ColonFree(x)
    ensures |x| < |s| && s[|x|] == ':' && s[..|x|] == x && s[|x| + 1..] == a
    ensures forall i :: 0 <= i < |x| ==> s[i] != ':'
  {
    forall i | 0 <= i < |x| ensures s[i] != ':' {
      assert s[i] == x[i];
    }
  }

  /** The text before the first colon is determined by the whole. */
  lemma FirstColonSplit(x: string, a: string, y: string, b: string)
    requires ColonFree(x) && ColonFree(y) && x + ":" + a == y + ":" + b
    ensures x == y && a == b
  {
    FirstColon(x, a, x + ":" + a);
    FirstColon(y, b, x + ":" + a);
  }

  lemma IdShape(r: string, c: string, s: int)
    ensures IdOf(r, c, s) == "incident::alert::" + (r + ":" + (":" + c + ":")) + ":" + IntText(s)
  {
    assert "::" == ":" + ":";
  }

  /** Reason, correlation id and second are read back from an identifier, although correlation ids may hold colons. */
  lemma IdsDecodeUniquely(r: string, c: string, s: int, r': string, c': string, s': int)
    requires ColonFree(r) && ColonFree(r') && IdOf(r, c, s) == IdOf(r', c', s')
    ensures r == r' && c == c' && s == s'
  {
    IntTextShape(s);
    IntTextShape(s');
    IdShape(r, c, s);
    IdShape(r', c', s');
    var body, body' := r + ":" + (":" + c + ":"), r' + ":" + (":" + c' + ":");
    LastColonSplit("incident::alert::" + body, IntText(s), "incident::alert::" + body', IntText(s'));
    IntTextInjective(s, s');
    SamePrefix("incident::alert::", body, body');
    FirstColonSplit(r, ":" + c + ":", r', ":" + c' + ":");
    assert c == (":" + c + ":")[1..|c| + 1] && |c| == |c'|;
  }

  lemma SamePrefix(p: string, x: string, y: string)
    requires p + x == p + y
    ensures x == y
  {
    assert x == (p + x)[|p|..] && y == (p + y)[|p|..];
  }

  /**
   * A composed identifier passes the identifier rule exactly when its parts leave room: at most 99 characters of 120.
   */
  lemma ComposedIdAcceptedIff(r: string, c: string, s: int)
    requires AllCanonical(r) && AllCanonical(c)
    ensures CanonicalId(IdOf(r, c, s)) <==> |r| + |c| + |IntText(s)| <= 99
  {
    IntTextShape(s);
    assert AllCanonical("incident::alert::") && AllCanonical("::");
    assert AllCanonical(IdOf(r, c, s));
    CanonicalIsNormal(IdOf(r, c, s));
  }

  // ---------- whole histories ----------

  /** The alert a candidate becomes. */
  function AlertFor(read: Reader, c: Candidate): Alert
    requires ValidCandidate(read, c)
  {
    Alert(ComposeAlertIdentifier(read, c).value, Normalize(c.correlationId), c.reasonCode, Trim(c.issuedAt))
  }

  /** Offer each candidate in turn, in whatever order their times fall; keep those that may be emitted. */
  function History(read: Reader, offered: seq<Candidate>, window: int): seq<Alert> {
    if offered == [] then []
    else
      var c := offered[|offered| - 1];
      var earlier := History(read, offered[..|offered| - 1], window);
      if ShouldEmit(read, earlier, c, window) == Success(true) then earlier + [AlertFor(read, c)] else earlier
  }

  predicate Scannable(read: Reader, a: Alert) {
    KnownReason(a.reasonCode) && Moment(read, a.issuedAt).Some? && Normalize(a.correlationId) == a.correlationId
  }

  predicate SameSubject(a: Alert, b: Alert) {
    a.correlationId == b.correlationId && a.reasonCode == b.reasonCode
  }

  /** When an alert was issued. */
  function At(read: Reader, text: string): int {
    if Moment(read, text).Some? then Moment(read, text).value else 0
  }

  ghost predicate Spaced(read: Reader, history: seq<Alert>, window: int) {
    forall i, j :: 0 <= i < j < |history| && SameSubject(history[i], history[j]) ==>
                     Distance(At(read, history[i].issuedAt), At(read, history[j].issuedAt)) > window * SECOND
  }

  lemma AlertScans(read: Reader, c: Candidate)
    requires ValidCandidate(read, c)
    ensures Scannable(read, AlertFor(read, c)) && Moment(read, AlertFor(read, c).issuedAt) == Moment(read, c.issuedAt)
  {
    NormalizeIdempotent(c.correlationId);
    TrimIsTrimmed(c.issuedAt);
    TrimmedIsFixed(Trim(c.issuedAt));
  }

  lemma NewAlertIsFar(read: Reader, earlier: seq<Alert>, c: Candidate, window: int, a: Alert)
    requires ShouldEmit(read, earlier, c, window) == Success(true) && a in earlier && Scannable(read, a)
    requires SameSubject(a, AlertFor(read, c))
    ensures Distance(At(read, a.issuedAt), At(read, c.issuedAt)) > window * SECOND
  {
    EmittedIff(read, earlier, c, window);
    NormalizeIdempotent(c.correlationId);
    assert !Suppresses(read, a, c, window);
  }

  /**
   * In any history grown through the suppression rule, two alerts of one correlation id and reason are more than the
   * window apart, in whatever order they came.
   */
  lemma {:induction false} HistorySpaced(read: Reader, offered: seq<Candidate>, window: int)
    ensures forall a :: a in History(read, offered, window) ==> Scannable(read, a)
    ensures Spaced(read, History(read, offered, window), window)
  {
    if offered != [] {
      var c := offered[|offered| - 1];
      var earlier := History(read, offered[..|offered| - 1], window);
      HistorySpaced(read, offered[..|offered| - 1], window);
      if ShouldEmit(read, earlier, c, window) == Success(true) {
        AlertScans(read, c);
        forall a | a in earlier && SameSubject(a, AlertFor(read, c))
          ensures Distance(At(read, a.issuedAt), At(read, AlertFor(read, c).issuedAt)) > window * SECOND
        {
          NewAlertIsFar(read, earlier, c, window, a);
        }
        SpacedExtends(read, earlier, AlertFor(read, c), window);
      }
    }
  }

  lemma SpacedExtends(read: Reader, earlier: seq<Alert>, alert: Alert, window: int)
    requires Spaced(read, earlier, window)
    requires forall a :: a in earlier && SameSubject(a, alert) ==>
                           Distance(At(read, a.issuedAt), At(read, alert.issuedAt)) > window * SECOND
    ensures Spaced(read, earlier + [alert], window)
  {
  }

  /** Each alert of a history carries the identifier of its own reason, correlation id and second. */
  lemma {:induction false} HistoryIds(read: Reader, offered: seq<Candidate>, window: int)
    ensures forall a :: a in History(read, offered, window) ==> Scannable(read, a) && IdentifiedByParts(read, a)
  {
    if offered != [] {
      var c := offered[|offered| - 1];
      HistoryIds(read, offered[..|offered| - 1], window);
      if ValidCandidate(read, c) {
        AlertScans(read, c);
      }
    }
  }

  predicate IdentifiedByParts(read: Reader, a: Alert) {
    a.alertId == IdOf(a.reasonCode, a.correlationId, SecondsOf(At(read, a.issuedAt)))
  }

  lemma TriggersColonFree(code: string)
    requires TriggerReason(code)
    ensures ColonFree(code)
  {
  }

  lemma RegimesColonFree(code: string)
    requires RegimeReason(code)
    ensures ColonFree(code)
  {
  }

  lemma ServicesColonFree(code: string)
    requires ServiceReason(code)
    ensures ColonFree(code)
  {
  }

  lemma ReasonsColonFree(code: string)
    requires KnownReason(code)
    ensures ColonFree(code)
  {
    if TriggerReason(code) {
      TriggersColonFree(code);
    } else if RegimeReason(code) {
      RegimesColonFree(code);
    } else {
      ServicesColonFree(code);
    }
  }

  predicate OfCanonicalChars(s: string) {
    forall c :: c in s ==> IsCanonicalChar(c)
  }

  lemma TriggersCanonical(code: string)
    requires TriggerReason(code)
    ensures OfCanonicalChars(code)
  {
  }

  lemma RegimesCanonical(code: string)
    requires RegimeReason(code)
    ensures OfCanonicalChars(code)
  {
  }

  lemma ServicesCanonical(code: string)
    requires ServiceReason(code)
    ensures OfCanonicalChars(code)
  {
  }

  lemma ReasonsCanonical(code: string)
    requires KnownReason(code)
    ensures AllCanonical(code)
  {
    if TriggerReason(code) {
      TriggersCanonical(code);
    } else if RegimeReason(code) {
      RegimesCanonical(code);
    } else {
      ServicesCanonical(code);
    }
  }

  /** The identifier of an alert that may be emitted passes the rule exactly when its parts leave room. */
  lemma AlertIdAcceptedIff(read: Reader, c: Candidate)
    requires ValidCandidate(read, c)
    ensures CanonicalId(AlertFor(read, c).alertId) <==>
            |c.reasonCode| + |Normalize(c.correlationId)| + |IntText(SecondsOf(Moment(read, c.issuedAt).value))| <= 99
  {
    ReasonsCanonical(c.reasonCode);
    ComposedIdAcceptedIff(c.reasonCode, Normalize(c.correlationId), SecondsOf(Moment(read, c.issuedAt).value));
  }

  /** It can fail: a correlation id of a hundred characters is admitted, its alert emitted, its identifier refused. */
  lemma LongCorrelationIdRefused(read: Reader, issuedAt: string, window: nat) returns (c: Candidate)
    requires Moment(read, issuedAt).Some?
    ensures c == Candidate("alert_stale_data_detected", seq(100, _ => 'a'), issuedAt) && ValidCandidate(read, c)
    ensures ShouldEmit(read, [], c, window) == Success(true) && History(read, [c], window) == [AlertFor(read, c)]
    ensures !CanonicalId(AlertFor(read, c).alertId)
  {
    var id := seq(100, _ => 'a');
    assert AllCanonical(id);
    CanonicalIsNormal(id);
    c := Candidate("alert_stale_data_detected", id, issuedAt);
    AlertIdAcceptedIff(read, c);
    assert [c][..0] == [];
  }

  /** More than a second apart means another second. */
  lemma FarMeansOtherSecond(x: int, y: int)
    requires Distance(x, y) > SECOND
    ensures SecondsOf(x) != SecondsOf(y)
  {
  }

  /** Under a window of at least one second, no two alerts of a history share an identifier. */
  lemma HistoryIdsDistinct(read: Reader, offered: seq<Candidate>, window: int, i: nat, j: nat)
    requires window >= 1 && i < j < |History(read, offered, window)|
    ensures History(read, offered, window)[i].alertId != History(read, offered, window)[j].alertId
  {
    var history := History(read, offered, window);
    HistorySpaced(read, offered, window);
    HistoryIds(read, offered, window);
    assert history[i] in history && history[j] in history;
    DistinctIds(read, history[i], history[j], window);
  }

  lemma DistinctIds(read: Reader, a: Alert, b: Alert, window: int)
    requires window >= 1 && Scannable(read, a) && Scannable(read, b) && IdentifiedByParts(read, a)
             && IdentifiedByParts(read, b)
    requires SameSubject(a, b) ==> Distance(At(read, a.issuedAt), At(read, b.issuedAt)) > window * SECOND
    ensures a.alertId != b.alertId
  {
    var x, y := At(read, a.issuedAt), At(read, b.issuedAt);
    ReasonsColonFree(a.reasonCode);
    ReasonsColonFree(b.reasonCode);
    if a.alertId == b.alertId {
      IdsDecodeUniquely(a.reasonCode, a.correlationId, SecondsOf(x), b.reasonCode, b.correlationId, SecondsOf(y));
      FarMeansOtherSecond(x, y);
    }
  }

  /**
   * Under a window of zero it can happen: two alerts of one subject within a second of each other share an
   * identifier.
   */
  lemma ZeroWindowSharesIds(read: Reader, c: Candidate, d: Candidate)
    requires ValidCandidate(read, c) && ValidCandidate(read, d)
    requires d.correlationId == c.correlationId && d.reasonCode == c.reasonCode
    requires Moment(read, c.issuedAt) == Some(0) && Moment(read, d.issuedAt) == Some(1)
    ensures History(read, [c, d], 0) == [AlertFor(read, c), AlertFor(read, d)]
    ensures AlertFor(read, c).alertId == AlertFor(read, d).alertId
  {
    assert [c, d][..1] == [c] && [c][..0] == [];
    AlertScans(read, c);
    assert History(read, [c], 0) == [AlertFor(read, c)];
    EmittedIff(read, [AlertFor(read, c)], d, 0);
  }

  // ---------- suppression read off the candidate and the earlier alerts ----------

  /** at is the instant of every text the reader reads. */
  ghost predicate ReadsAs(read: Reader, at: string -> int) {
    forall text :: read(Trim(text)).Some? ==> read(Trim(text)).value == at(text)
  }

  /**
   * An alert is emitted exactly when the window is not negative, the candidate is valid, and every earlier alert of its
   * correlation id has a known reason and, if it is the same reason, reads and is more than the window's seconds away.
   */
  lemma EmissionReads(read: Reader, prior: seq<Alert>, c: Candidate, window: int, at: string -> int)
    requires ReadsAs(read, at)
    ensures ShouldEmit(read, prior, c, window) == Success(true) <==>
            && window >= 0 && CanonicalId(c.correlationId) && read(Trim(c.issuedAt)).Some? && KnownReason(c.reasonCode)
            && forall a :: a in prior && Normalize(a.correlationId) == Normalize(c.correlationId) ==>
                             && KnownReason(a.reasonCode)
                             && (a.reasonCode == c.reasonCode ==>
                                   && read(Trim(a.issuedAt)).Some?
                                   && (at(c.issuedAt) - at(a.issuedAt) > window * 1_000_000_000
                                       || at(a.issuedAt) - at(c.issuedAt) > window * 1_000_000_000))
    ensures ShouldEmit(read, prior, c, window) == Success(false) ==>
              exists a :: && a in prior && Normalize(a.correlationId) == Normalize(c.correlationId)
                          && a.reasonCode == c.reasonCode
                          && -window * 1_000_000_000 <= at(c.issuedAt) - at(a.issuedAt) <= window * 1_000_000_000
  {
    if window >= 0 && ValidCandidate(read, c) {
      EmittedIff(read, prior, c, window);
      forall a
        ensures !Unscannable(read, a, c) && !Suppresses(read, a, c, window) <==> LeavesAlone(read, at, a, c, window)
      {
        LeavesAloneIff(read, at, a, c, window);
      }
      if Scan(read, prior, c, window) == Success(false) {
        var a := Suppressor(read, prior, c, window);
      }
    }
  }

  predicate LeavesAlone(read: Reader, at: string -> int, a: Alert, c: Candidate, window: int) {
    Normalize(a.correlationId) == Normalize(c.correlationId) ==>
      && KnownReason(a.reasonCode)
      && (a.reasonCode == c.reasonCode ==>
            && read(Trim(a.issuedAt)).Some?
            && (at(c.issuedAt) - at(a.issuedAt) > window * 1_000_000_000
                || at(a.issuedAt) - at(c.issuedAt) > window * 1_000_000_000))
  }

  lemma LeavesAloneIff(read: Reader, at: string -> int, a: Alert, c: Candidate, window: int)
    requires ReadsAs(read, at) && ValidCandidate(read, c) && window >= 0
    ensures !Unscannable(read, a, c) && !Suppresses(read, a, c, window) <==> LeavesAlone(read, at, a, c, window)
  {
  }

  lemma {:induction false} Suppressor(read: Reader, prior: seq<Alert>, c: Candidate, window: int) returns (a: Alert)
    requires Moment(read, c.issuedAt).Some? && Scan(read, prior, c, window) == Success(false)
    ensures a in prior && Suppresses(read, a, c, window)
  {
    if Suppresses(read, prior[0], c, window) {
      a := prior[0];
    } else {
      a := Suppressor(read, prior[1..], c, window);
    }
  }

  /** The alert of a valid candidate, field by field: its id names reason, correlation id and unix second. */
  lemma AlertReads(read: Reader, c: Candidate, at: string -> int)
    requires ReadsAs(read, at) && ValidCandidate(read, c)
    ensures AlertFor(read, c)
         == Alert("incident::alert::" + c.reasonCode + "::" + Normalize(c.correlationId) + "::"
                  + IntText(at(c.issuedAt) / 1_000_000_000),
                  Normalize(c.correlationId), c.reasonCode, Trim(c.issuedAt))
  {
  }
}
