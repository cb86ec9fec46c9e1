/**
 * Reconciliation of an internal and a venue order window, and the recovery gate that reads its mismatch rate. f64
 * values are exact reals; error messages are not modelled, error codes are.
 */
module Reconciliation {
  import opened Wrappers
  import opened Text
  import opened StableSort
  import opened Reals

  datatype OrderRecord = OrderRecord(
    orderId: string, marketId: string, lifecycleState: string, quantity: Option<real>, price: Option<real>,
    observedAt: string, correlationId: string)

  datatype DiffClass =
    | MissingInternalRecord | MissingVenueRecord
    | MarketMismatch | LifecycleStateMismatch | QuantityMismatch | PriceMismatch

  datatype Reason = Matched | NonCriticalMismatch | CriticalMismatch

  datatype RunStatus = RunSucceeded | CriticalHalt

  datatype ReconcileError = WindowUnavailable | InvalidPayload

  datatype DiffRecord = DiffRecord(
    diffId: string, runId: string, orderId: string, marketId: string, diffClass: DiffClass, reason: Reason,
    internalValue: Option<string>, venueValue: Option<string>, observedAt: string, correlationId: string)

  datatype Summary = Summary(
    runId: string, windowStartedAt: string, windowEndedAt: string, comparedRecords: int, mismatchCount: int,
    mismatchRate: real, criticalHalt: bool, status: RunStatus, reason: Reason, evaluatedAt: string,
    correlationId: string)

  datatype RunResult = RunResult(summary: Summary, diffs: seq<DiffRecord>)

  datatype Request = Request(runId: string, windowStartedAt: string, windowEndedAt: string, evaluatedAt: string,
                             correlationId: string)

  /** Outside code: the RFC 3339 UTC reader (None for anything else) and eight-decimal number text. */
  datatype Env = Env(instant: string -> Option<int>, amount: real -> string)

  /** RFC 3339 text begins and ends with a visible character. */
  ghost predicate ReadsTrimmedText(env: Env) {
    forall s :: env.instant(s).Some? ==> Trim(s) == s && !Blank(s)
  }

  // ---------- validation ----------

  predicate NonNegative(x: Option<real>) {
    x.Some? ==> x.value >= 0.0
  }

  predicate ValidRecord(env: Env, r: OrderRecord) {
    && !Blank(r.orderId) && !Blank(r.marketId) && !Blank(r.lifecycleState) && !Blank(r.correlationId)
    && !Blank(r.observedAt) && env.instant(r.observedAt).Some?
    && NonNegative(r.quantity) && NonNegative(r.price)
  }

  predicate ValidDiff(env: Env, d: DiffRecord) {
    && !Blank(d.diffId) && !Blank(d.runId) && !Blank(d.orderId) && !Blank(d.marketId)
    && !Blank(d.observedAt) && env.instant(d.observedAt).Some? && !Blank(d.correlationId)
  }

  function Distance(x: real, y: real): real {
    if x < y then y - x else x - y
  }

  predicate ValidSummaryText(env: Env, s: Summary) {
    && !Blank(s.runId) && !Blank(s.windowStartedAt) && !Blank(s.windowEndedAt) && !Blank(s.evaluatedAt)
    && !Blank(s.correlationId)
    && env.instant(s.windowStartedAt).Some? && env.instant(s.windowEndedAt).Some? && env.instant(s.evaluatedAt).Some?
  }

  predicate ValidSummaryCounts(s: Summary) {
    && s.comparedRecords > 0 && 0 <= s.mismatchCount <= s.comparedRecords
    && 0.0 <= s.mismatchRate <= 1.0
    && Distance(s.mismatchRate, s.mismatchCount as real / s.comparedRecords as real) <= 0.000_000_000_001
    && (s.criticalHalt <==> s.mismatchRate > 0.001)
    && (s.criticalHalt <==> s.status == CriticalHalt)
  }

  predicate ValidSummary(env: Env, s: Summary) {
    ValidSummaryText(env, s) && ValidSummaryCounts(s)
  }

  predicate ArgumentsOk(env: Env, q: Request) {
    && !Blank(q.runId) && !Blank(q.windowStartedAt) && !Blank(q.windowEndedAt) && !Blank(q.evaluatedAt)
    && !Blank(q.correlationId)
    && env.instant(q.windowStartedAt).Some? && env.instant(q.windowEndedAt).Some? && env.instant(q.evaluatedAt).Some?
    && env.instant(q.windowEndedAt).value >= env.instant(q.windowStartedAt).value
  }

  // ---------- keyed windows ----------

  function NormalizeWindow(env: Env, records: seq<OrderRecord>): Result<map<string, OrderRecord>, ReconcileError> {
    if records == [] then Success(map[])
    else
      var last := records[|records| - 1];
      var earlier :- NormalizeWindow(env, records[..|records| - 1]);
      if !ValidRecord(env, last) || last.orderId in earlier then Failure(InvalidPayload)
      else Success(earlier[last.orderId := last])
  }

  ghost predicate KeyedWindow(env: Env, records: seq<OrderRecord>) {
    && (forall i :: 0 <= i < |records| ==> ValidRecord(env, records[i]))
    && (forall i, j :: 0 <= i < j < |records| ==> records[i].orderId != records[j].orderId)
  }

  ghost predicate IsIndexOf(m: map<string, OrderRecord>, records: seq<OrderRecord>) {
    && (forall r :: r in records ==> r.orderId in m && m[r.orderId] == r)
    && (forall id :: id in m ==> m[id] in records && m[id].orderId == id)
  }

  lemma KeyedAppend(env: Env, init: seq<OrderRecord>, last: OrderRecord)
    ensures KeyedWindow(env, init + [last])
       <==> KeyedWindow(env, init) && ValidRecord(env, last) && forall r :: r in init ==> r.orderId != last.orderId
  {
    var s := init + [last];
    assert s[..|init|] == init && s[|init|] == last;
    if KeyedWindow(env, s) {
      assert forall i :: 0 <= i < |init| ==> s[i] == init[i];
      forall r | r in init ensures r.orderId != last.orderId {
        var i :| 0 <= i < |init| && init[i] == r;
        assert s[i].orderId != s[|init|].orderId;
      }
    }
  }

  lemma IndexAppend(m: map<string, OrderRecord>, init: seq<OrderRecord>, last: OrderRecord)
    requires IsIndexOf(m, init) && last.orderId !in m
    ensures IsIndexOf(m[last.orderId := last], init + [last])
  {
  }

  lemma {:induction false} NormalizeWindowIff(env: Env, records: seq<OrderRecord>)
    ensures NormalizeWindow(env, records).Success? <==> KeyedWindow(env, records)
    ensures NormalizeWindow(env, records).Success? ==> IsIndexOf(NormalizeWindow(env, records).value, records)
    ensures NormalizeWindow(env, records).Failure? ==> NormalizeWindow(env, records).error == InvalidPayload
  {
    if records != [] {
      var init, last := records[..|records| - 1], records[|records| - 1];
      assert records == init + [last];
      NormalizeWindowIff(env, init);
      KeyedAppend(env, init, last);
      if NormalizeWindow(env, init).Success? {
        var m := NormalizeWindow(env, init).value;
        assert last.orderId in m ==> m[last.orderId] in init;
        if last.orderId !in m {
          IndexAppend(m, init, last);
        }
      }
    }
  }

  lemma IndexUnique(m: map<string, OrderRecord>, n: map<string, OrderRecord>, s: seq<OrderRecord>, t: seq<OrderRecord>)
    requires IsIndexOf(m, s) && IsIndexOf(n, t) && forall r :: r in s <==> r in t
    ensures m == n
  {
    forall id | id in m ensures id in n && n[id] == m[id] {
      assert m[id] in t;
    }
    forall id | id in n ensures id in m {
      assert n[id] in s;
    }
  }

  /** Permuting a window changes nothing. */
  lemma NormalizeIgnoresOrder(env: Env, s: seq<OrderRecord>, t: seq<OrderRecord>)
    requires multiset(s) == multiset(t)
    ensures NormalizeWindow(env, s) == NormalizeWindow(env, t)
  {
    SameContents(s, t);
    NormalizeWindowIff(env, s);
    NormalizeWindowIff(env, t);
    if KeyedWindow(env, s) {
      KeyedPermutes(env, s, t);
      IndexUnique(NormalizeWindow(env, s).value, NormalizeWindow(env, t).value, s, t);
    } else if KeyedWindow(env, t) {
      KeyedPermutes(env, t, s);
    }
  }

  lemma KeyedPermutes(env: Env, s: seq<OrderRecord>, t: seq<OrderRecord>)
    requires multiset(s) == multiset(t) && KeyedWindow(env, s)
    ensures KeyedWindow(env, t)
  {
    SameContents(s, t);
    forall i | 0 <= i < |t| ensures ValidRecord(env, t[i]) {
      assert t[i] in s;
    }
    var id := (r: OrderRecord) => r.orderId;
    assert forall i, j :: 0 <= i < j < |s| ==> id(s[i]) == s[i].orderId && id(s[j]) == s[j].orderId;
    DistinctPermutes(id, s, t);
    forall i, j | 0 <= i < j < |t| ensures t[i].orderId != t[j].orderId {
      assert id(t[i]) != id(t[j]);
    }
  }

  // ---------- the ordered set of compared ids ----------

  predicate Ascending(ids: seq<string>) {
    forall i, j :: 0 <= i < j < |ids| ==> ids[i] != ids[j] && TextLeq(ids[i], ids[j])
  }

  predicate IsLeast(s: set<string>, x: string) {
    x in s && forall y :: y in s ==> TextLeq(x, y)
  }

  lemma {:induction false} LeastExists(s: set<string>)
    requires s != {}
    ensures exists x :: IsLeast(s, x)
  {
    var y :| y in s;
    var rest := s - {y};
    if rest == {} {
      TextLeqReflexive(y);
      assert s == {y};
      assert IsLeast(s, y);
    } else {
      LeastExists(rest);
      var x :| IsLeast(rest, x);
      TextLeqTotal(x, y);
      TextLeqReflexive(y);
      if TextLeq(x, y) {
        assert IsLeast(s, x);
      } else {
        forall z | z in s ensures TextLeq(y, z) {
          if z != y {
            TextLeqTransitive(y, x, z);
          }
        }
        assert IsLeast(s, y);
      }
    }
  }

  lemma LeastUnique(s: set<string>, x: string, y: string)
    requires IsLeast(s, x) && IsLeast(s, y)
    ensures x == y
  {
    TextLeqAntisymmetric(x, y);
  }

  function Least(s: set<string>): (x: string)
    requires s != {}
    ensures IsLeast(s, x)
  {
    LeastExists(s);
    assert forall x, y :: IsLeast(s, x) && IsLeast(s, y) ==> x == y by {
      forall x, y | IsLeast(s, x) && IsLeast(s, y) ensures x == y {
        LeastUnique(s, x, y);
      }
    }
    var x :| x in s && IsLeast(s, x);
    x
  }

  /** A BTreeSet in iteration order. */
  function InOrder(s: set<string>): (ids: seq<string>)
    ensures Ascending(ids) && |ids| == |s|
    ensures forall x :: x in ids <==> x in s
  {
    if s == {} then []
    else
      var rest := InOrder(s - {Least(s)});
      assert forall i :: 0 <= i < |rest| ==> rest[i] in rest;
      [Least(s)] + rest
  }

  lemma AscendingUnique(ids: seq<string>, others: seq<string>)
    requires Ascending(ids) && Ascending(others) && forall id :: id in ids <==> id in others
    ensures ids == others
  {
    AscendingIsStrict(ids);
    AscendingIsStrict(others);
    StrictlySortedUnique(TextLeq, ids, others);
  }

  lemma AscendingIsStrict(ids: seq<string>)
    requires Ascending(ids)
    ensures StrictlySorted(TextLeq, ids)
  {
    forall i, j | 0 <= i < j < |ids| ensures !TextLeq(ids[j], ids[i]) {
      if TextLeq(ids[j], ids[i]) {
        TextLeqAntisymmetric(ids[i], ids[j]);
      }
    }
  }

  // ---------- differences ----------

  function ClassText(c: DiffClass): string {
    match c
    case MissingInternalRecord => "missing_internal_record"
    case MissingVenueRecord => "missing_venue_record"
    case MarketMismatch => "market_mismatch"
    case LifecycleStateMismatch => "lifecycle_state_mismatch"
    case QuantityMismatch => "quantity_mismatch"
    case PriceMismatch => "price_mismatch"
  }

  function ClassRank(c: DiffClass): nat {
    match c
    case MissingInternalRecord => 0
    case MissingVenueRecord => 1
    case MarketMismatch => 2
    case LifecycleStateMismatch => 3
    case QuantityMismatch => 4
    case PriceMismatch => 5
  }

  datatype Details = Details(
    diffClass: DiffClass, marketId: string, internalValue: Option<string>, venueValue: Option<string>,
    observedAt: string, correlationId: string)

  function OptionalAmount(env: Env, x: Option<real>): string {
    if x.Some? then env.amount(x.value) else "none"
  }

  function Compact(env: Env, r: OrderRecord): string {
    "order_id=" + r.orderId + ",market_id=" + r.marketId + ",state=" + r.lifecycleState
    + ",quantity=" + OptionalAmount(env, r.quantity) + ",price=" + OptionalAmount(env, r.price)
  }

  function Classify(env: Env, internal: Option<OrderRecord>, venue: Option<OrderRecord>): Option<Details> {
    match (internal, venue)
    case (None, None) => None
    case (None, Some(v)) =>
      Some(Details(MissingInternalRecord, v.marketId, None, Some(Compact(env, v)), v.observedAt, v.correlationId))
    case (Some(i), None) =>
      Some(Details(MissingVenueRecord, i.marketId, Some(Compact(env, i)), None, i.observedAt, i.correlationId))
    case (Some(i), Some(v)) =>
      var found := (c, x, y) => Some(Details(c, i.marketId, Some(x), Some(y), i.observedAt, i.correlationId));
      if i.marketId != v.marketId then found(MarketMismatch, i.marketId, v.marketId)
      else if i.lifecycleState != v.lifecycleState
      then found(LifecycleStateMismatch, i.lifecycleState, v.lifecycleState)
      else if i.quantity != v.quantity
      then found(QuantityMismatch, OptionalAmount(env, i.quantity), OptionalAmount(env, v.quantity))
      else if i.price != v.price then found(PriceMismatch, OptionalAmount(env, i.price), OptionalAmount(env, v.price))
      else None
  }

  function DiffId(runId: string, orderId: string, c: DiffClass): string {
    "diff::" + runId + "::" + Normalize(orderId) + "::" + ClassText(c)
  }

  function Labelled(runId: string, orderId: string, d: Details): DiffRecord {
    DiffRecord(DiffId(runId, orderId, d.diffClass), runId, orderId, d.marketId, d.diffClass,
               NonCriticalMismatch, d.internalValue, d.venueValue, d.observedAt, d.correlationId)
  }

  function BuildDiff(env: Env, runId: string, orderId: string, internal: Option<OrderRecord>,
                     venue: Option<OrderRecord>)
    : Result<Option<DiffRecord>, ReconcileError>
  {
    var details := Classify(env, internal, venue);
    if details.None? then Success(None)
    else
      var diff := Labelled(runId, orderId, details.value);
      if ValidDiff(env, diff) then Success(Some(diff)) else Failure(InvalidPayload)
  }

  function Entry(m: map<string, OrderRecord>, id: string): Option<OrderRecord> {
    if id in m then Some(m[id]) else None
  }

  type Build = string -> Result<Option<DiffRecord>, ReconcileError>

  /** build_diff of one run, as a function of the order id. */
  function Builder(env: Env, runId: string, a: map<string, OrderRecord>, b: map<string, OrderRecord>): Build {
    (id: string) => BuildDiff(env, runId, id, Entry(a, id), Entry(b, id))
  }

  function CollectDiffs(build: Build, ids: seq<string>): Result<seq<DiffRecord>, ReconcileError> {
    if ids == [] then Success([])
    else
      var earlier :- CollectDiffs(build, ids[..|ids| - 1]);
      var found :- build(ids[|ids| - 1]);
      Success(if found.Some? then earlier + [found.value] else earlier)
  }

  predicate DiffLeq(d: DiffRecord, e: DiffRecord) {
    if d.orderId != e.orderId then TextLeq(d.orderId, e.orderId)
    else if d.diffClass != e.diffClass then ClassRank(d.diffClass) < ClassRank(e.diffClass)
    else TextLeq(d.diffId, e.diffId)
  }

  // ---------- rates and thresholds ----------

  function MismatchRate(mismatches: int, compared: int): Result<real, ReconcileError> {
    if compared <= 0 then Failure(WindowUnavailable)
    else if mismatches < 0 || mismatches > compared then Failure(InvalidPayload)
    else Success(mismatches as real / compared as real)
  }

  function TriggersHalt(rate: real): Result<bool, ReconcileError> {
    if rate < 0.0 || rate > 1.0 then Failure(InvalidPayload) else Success(rate > 0.001)
  }

  /** The recovery gate: strictly below the halt threshold. */
  function RecoveryReady(rate: real): Result<bool, ReconcileError> {
    if rate < 0.0 || rate > 1.0 then Failure(InvalidPayload) else Success(rate < 0.001)
  }

  // ---------- one run ----------

  function Summarize(q: Request, compared: int, mismatches: int, rate: real, halt: bool): Summary {
    Summary(Normalize(q.runId), Trim(q.windowStartedAt), Trim(q.windowEndedAt), compared, mismatches, rate, halt,
            if halt then CriticalHalt else RunSucceeded,
            if mismatches == 0 then Matched else if halt then CriticalMismatch else NonCriticalMismatch,
            Trim(q.evaluatedAt), Trim(q.correlationId))
  }

  function Reconcile(env: Env, q: Request, internal: seq<OrderRecord>,
                     venue: seq<OrderRecord>): Result<RunResult, ReconcileError> {
    if internal == [] && venue == [] then Failure(WindowUnavailable)
    else if !ArgumentsOk(env, q) then Failure(InvalidPayload)
    else
      var a :- NormalizeWindow(env, internal);
      var b :- NormalizeWindow(env, venue);
      ReconcileIds(env, q, a, b, InOrder(a.Keys + b.Keys))
  }

  function ReconcileIds(env: Env, q: Request, a: map<string, OrderRecord>, b: map<string, OrderRecord>,
                        ids: seq<string>)
    : Result<RunResult, ReconcileError>
  {
    var found :- CollectDiffs(Builder(env, Normalize(q.runId), a, b), ids);
    Conclude(env, q, |ids|, found)
  }

  /** The end of a run: sort the diffs, rate them, and validate the summary about to be returned. */
  function Conclude(env: Env, q: Request, compared: int, found: seq<DiffRecord>): Result<RunResult, ReconcileError> {
    ConcludeSorted(env, q, compared, Sort(DiffLeq, found))
  }

  function ConcludeSorted(env: Env, q: Request, compared: int,
                          diffs: seq<DiffRecord>): Result<RunResult, ReconcileError> {
    var rate :- MismatchRate(|diffs|, compared);
    var halt :- TriggersHalt(rate);
    var summary := Summarize(q, compared, |diffs|, rate, halt);
    Validated(env, summary, diffs)
  }

  function Validated(env: Env, summary: Summary, diffs: seq<DiffRecord>): Result<RunResult, ReconcileError> {
    if ValidSummary(env, summary) then Success(RunResult(summary, diffs)) else Failure(InvalidPayload)
  }

  method NormalizeWindowRecords(env: Env, records: seq<OrderRecord>)
    returns (r: Result<map<string, OrderRecord>, ReconcileError>)
    ensures r == NormalizeWindow(env, records)
  {
    var normalized := map[];
    for i := 0 to |records|
      invariant NormalizeWindow(env, records[..i]) == Success(normalized)
    {
      assert records[..i + 1][..i] == records[..i];
      if !ValidRecord(env, records[i]) || records[i].orderId in normalized {
        FailureSpreads(env, records, i + 1);
        return Failure(InvalidPayload);
      }
      normalized := normalized[records[i].orderId := records[i]];
    }
    assert records[..|records|] == records;
    return Success(normalized);
  }

  lemma {:induction false} FailureSpreads(env: Env, records: seq<OrderRecord>, n: nat)
    requires n <= |records| && NormalizeWindow(env, records[..n]) == Failure(InvalidPayload)
    ensures NormalizeWindow(env, records) == Failure(InvalidPayload)
    decreases |records| - n
  {
    if n == |records| {
      assert records[..n] == records;
    } else {
      assert records[..n + 1][..n] == records[..n];
      FailureSpreads(env, records, n + 1);
    }
  }

  method CollectWindowDiffs(env: Env, runId: string, a: map<string, OrderRecord>, b: map<string, OrderRecord>,
                            ids: seq<string>)
    returns (r: Result<seq<DiffRecord>, ReconcileError>)
    ensures r == CollectDiffs(Builder(env, runId, a, b), ids)
  {
    ghost var build := Builder(env, runId, a, b);
    var diffs := [];
    for i := 0 to |ids|
      invariant CollectDiffs(build, ids[..i]) == Success(diffs)
    {
      assert ids[..i + 1][..i] == ids[..i];
      var diff := BuildDiff(env, runId, ids[i], Entry(a, ids[i]), Entry(b, ids[i]));
      assert diff == build(ids[i]);
      if diff.Failure? {
        CollectFails(build, ids, i + 1);
        return Failure(diff.error);
      }
      if diff.value.Some? {
        diffs := diffs + [diff.value.value];
      }
    }
    assert ids[..|ids|] == ids;
    return Success(diffs);
  }

  method ReconcileWindow(env: Env, q: Request, internal: seq<OrderRecord>, venue: seq<OrderRecord>)
    returns (r: Result<RunResult, ReconcileError>)
    ensures r == Reconcile(env, q, internal, venue)
  {
    if internal == [] && venue == [] {
      return Failure(WindowUnavailable);
    }
    if !ArgumentsOk(env, q) {
      return Failure(InvalidPayload);
    }
    var a :- NormalizeWindowRecords(env, internal);
    var b :- NormalizeWindowRecords(env, venue);
    var ids := InOrder(a.Keys + b.Keys);
    var diffs :- CollectWindowDiffs(env, Normalize(q.runId), a, b, ids);
    r := Conclude(env, q, |ids|, diffs);
  }

  lemma {:induction false} CollectFails(build: Build, ids: seq<string>, n: nat)
    requires n <= |ids| && CollectDiffs(build, ids[..n]).Failure?
    ensures CollectDiffs(build, ids) == CollectDiffs(build, ids[..n])
    decreases |ids| - n
  {
    if n == |ids| {
      assert ids[..n] == ids;
    } else {
      assert ids[..n + 1][..n] == ids[..n];
      CollectFails(build, ids, n + 1);
    }
  }

  // ---------- the diffs are exactly the disagreements ----------

  /** Present on one side only, or present on both with another market, state, quantity or price. */
  predicate Disagree(a: map<string, OrderRecord>, b: map<string, OrderRecord>, id: string) {
    || (id in a) != (id in b)
    || (id in a && id in b
        && (a[id].marketId, a[id].lifecycleState, a[id].quantity, a[id].price)
           != (b[id].marketId, b[id].lifecycleState, b[id].quantity, b[id].price))
  }

  function Disagreement(a: map<string, OrderRecord>, b: map<string, OrderRecord>): string -> bool {
    id => Disagree(a, b, id)
  }

  ghost predicate ValidIndex(env: Env, m: map<string, OrderRecord>) {
    forall id :: id in m ==> ValidRecord(env, m[id]) && m[id].orderId == id
  }

  lemma NormalizedIsValid(env: Env, records: seq<OrderRecord>)
    requires NormalizeWindow(env, records).Success?
    ensures ValidIndex(env, NormalizeWindow(env, records).value)
    ensures records != [] ==> NormalizeWindow(env, records).value != map[]
  {
    NormalizeWindowIff(env, records);
    if records != [] {
      assert records[0] in records;
    }
  }

  lemma ClassifyIffDisagree(env: Env, a: map<string, OrderRecord>, b: map<string, OrderRecord>, id: string)
    requires id in a.Keys + b.Keys
    ensures Classify(env, Entry(a, id), Entry(b, id)).Some? <==> Disagree(a, b, id)
  {
  }

  lemma DetailsComeFromRecords(env: Env, internal: Option<OrderRecord>, venue: Option<OrderRecord>)
    requires Classify(env, internal, venue).Some?
    ensures var d := Classify(env, internal, venue).value;
            var r := if internal.Some? then internal.value else venue.value;
            d.marketId == r.marketId && d.observedAt == r.observedAt && d.correlationId == r.correlationId
  {
  }

  /** Building a diff between valid records cannot fail, and finds something exactly when they disagree. */
  lemma BuildDiffSucceeds(env: Env, runId: string, a: map<string, OrderRecord>, b: map<string, OrderRecord>, id: string)
    requires ValidIndex(env, a) && ValidIndex(env, b) && !Blank(runId) && id in a.Keys + b.Keys
    ensures BuildDiff(env, runId, id, Entry(a, id), Entry(b, id)).Success?
    ensures var found := BuildDiff(env, runId, id, Entry(a, id), Entry(b, id)).value;
            && (found.Some? <==> Disagree(a, b, id))
            && (found.Some? ==> found.value.orderId == id)
  {
    var details := Classify(env, Entry(a, id), Entry(b, id));
    ClassifyIffDisagree(env, a, b, id);
    if details.Some? {
      DetailsComeFromRecords(env, Entry(a, id), Entry(b, id));
      DiffIdNotBlank(runId, id, details.value);
    }
  }

  lemma DiffIdNotBlank(runId: string, orderId: string, d: Details)
    ensures !Blank(Labelled(runId, orderId, d).diffId)
  {
    assert Labelled(runId, orderId, d).diffId[0] == 'd';
    NotBlank(Labelled(runId, orderId, d).diffId, 0);
  }

  /** diffs are the built diffs of the ids, one each. */
  ghost predicate BuiltFrom(build: Build, ids: seq<string>, diffs: seq<DiffRecord>) {
    && |diffs| == |ids|
    && forall i :: 0 <= i < |ids| ==> diffs[i].orderId == ids[i] && build(ids[i]) == Success(Some(diffs[i]))
  }

  /** build never fails on id, and finds a diff of that id exactly when keep says so. */
  ghost predicate Builds(build: Build, keep: string -> bool, id: string) {
    && build(id).Success? && (build(id).value.Some? <==> keep(id))
    && (build(id).value.Some? ==> build(id).value.value.orderId == id)
  }

  lemma {:induction false} CollectsKept(build: Build, keep: string -> bool, ids: seq<string>)
    requires forall id :: id in ids ==> Builds(build, keep, id)
    ensures CollectDiffs(build, ids).Success?
    ensures BuiltFrom(build, Filter(keep, ids), CollectDiffs(build, ids).value)
  {
    if ids != [] {
      var init, id := ids[..|ids| - 1], ids[|ids| - 1];
      CollectsKept(build, keep, init);
      assert Builds(build, keep, id);
      FilterLast(keep, ids);
    }
  }

  lemma {:induction false} FilterLast(keep: string -> bool, ids: seq<string>)
    requires ids != []
    ensures Filter(keep, ids) == Filter(keep, ids[..|ids| - 1]) + if keep(ids[|ids| - 1]) then [ids[|ids| - 1]] else []
  {
    assert ids == ids[..|ids| - 1] + [ids[|ids| - 1]];
    FilterAppend(keep, ids[..|ids| - 1], [ids[|ids| - 1]]);
  }

  // ---------- the final sort changes nothing ----------

  lemma {:induction false} FilterAscends(keep: string -> bool, ids: seq<string>)
    requires Ascending(ids)
    ensures Ascending(Filter(keep, ids))
  {
    if ids != [] {
      FilterAscends(keep, ids[1..]);
      forall x | x in ids[1..] ensures x != ids[0] && TextLeq(ids[0], x) {
      }
      var rest := Filter(keep, ids[1..]);
      forall j | 0 <= j < |rest| ensures rest[j] != ids[0] && TextLeq(ids[0], rest[j]) {
        assert rest[j] in rest;
      }
    }
  }

  lemma BuiltIsSorted(build: Build, ids: seq<string>, diffs: seq<DiffRecord>)
    requires Ascending(ids) && BuiltFrom(build, ids, diffs)
    ensures Sort(DiffLeq, diffs) == diffs
  {
    forall i, j | 0 <= i < j < |diffs| ensures DiffLeq(diffs[i], diffs[j]) {
      assert ids[i] != ids[j];
    }
    SortKeepsSorted(DiffLeq, diffs);
  }

  // ---------- a run fails for its inputs only ----------

  lemma RateOk(mismatches: nat, compared: nat)
    requires mismatches <= compared && 0 < compared
    ensures 0.0 <= mismatches as real / compared as real <= 1.0
  {
    var m, c := mismatches as real, compared as real;
    assert m <= c && 0.0 <= m;
    Quotient(m, c);
  }

  lemma Quotient(m: real, c: real)
    requires 0.0 <= m <= c && 0.0 < c
    ensures 0.0 <= m / c <= 1.0
  {
    assert m / c * c == m;
  }

  lemma ArgumentsStay(env: Env, q: Request)
    requires ReadsTrimmedText(env) && ArgumentsOk(env, q)
    ensures !Blank(Normalize(q.runId)) && !Blank(Trim(q.correlationId))
    ensures Trim(q.windowStartedAt) == q.windowStartedAt && Trim(q.windowEndedAt) == q.windowEndedAt
            && Trim(q.evaluatedAt) == q.evaluatedAt
  {
    NormalizeKeepsBlank(q.runId);
    TrimIsTrimmed(q.correlationId);
    TrimmedIsFixed(Trim(q.correlationId));
  }

  lemma SummaryTextIsValid(env: Env, q: Request, compared: int, mismatches: int, rate: real, halt: bool)
    requires ReadsTrimmedText(env) && ArgumentsOk(env, q)
    ensures ValidSummaryText(env, Summarize(q, compared, mismatches, rate, halt))
  {
    ArgumentsStay(env, q);
  }

  lemma SummaryCountsAreValid(q: Request, compared: nat, mismatches: nat, rate: real)
    requires mismatches <= compared && 0 < compared && rate == mismatches as real / compared as real
    ensures ValidSummaryCounts(Summarize(q, compared, mismatches, rate, rate > 0.001))
  {
    RateOk(mismatches, compared);
  }

  /** With acceptable arguments and a plausible count, the summary a run builds passes its own validation. */
  lemma ConcludeSucceeds(env: Env, q: Request, compared: nat, found: seq<DiffRecord>, rate: real)
    requires ReadsTrimmedText(env) && ArgumentsOk(env, q) && |found| <= compared && 0 < compared
    requires rate == |found| as real / compared as real
    ensures Conclude(env, q, compared, found)
         == Success(RunResult(Summarize(q, compared, |found|, rate, rate > 0.001), Sort(DiffLeq, found)))
    ensures ValidSummary(env, Summarize(q, compared, |found|, rate, rate > 0.001))
  {
    SummaryTextIsValid(env, q, compared, |found|, rate, rate > 0.001);
    SummaryCountsAreValid(q, compared, |found|, rate);
    SortContents(DiffLeq, found);
    ConcludeSummarizes(env, q, compared, Sort(DiffLeq, found), rate);
  }

  lemma ConcludeSummarizes(env: Env, q: Request, compared: nat, diffs: seq<DiffRecord>, rate: real)
    requires |diffs| <= compared && 0 < compared && rate == |diffs| as real / compared as real
    ensures ConcludeSorted(env, q, compared, diffs)
         == Validated(env, Summarize(q, compared, |diffs|, rate, rate > 0.001), diffs)
  {
    RateOk(|diffs|, compared);
  }

  /**
   * A run succeeds exactly when something was recorded, the arguments are acceptable, and both windows are valid and
   * keyed.
   */
  lemma ReconcileSucceedsIff(env: Env, q: Request, internal: seq<OrderRecord>, venue: seq<OrderRecord>)
    requires ReadsTrimmedText(env)
    ensures Reconcile(env, q, internal, venue).Success?
       <==> (internal != [] || venue != []) && ArgumentsOk(env, q) && KeyedWindow(env, internal)
            && KeyedWindow(env, venue)
  {
    NormalizeWindowIff(env, internal);
    NormalizeWindowIff(env, venue);
    if (internal != [] || venue != []) && ArgumentsOk(env, q) && KeyedWindow(env, internal) && KeyedWindow(env, venue) {
      ReconcileFinds(env, q, internal, venue);
    }
  }

  /** A successful run reports one diff for each id the windows disagree on, in id order, and none for the rest. */
  lemma ReconcileFinds(env: Env, q: Request, internal: seq<OrderRecord>, venue: seq<OrderRecord>)
    requires ReadsTrimmedText(env) && (internal != [] || venue != []) && ArgumentsOk(env, q)
    requires NormalizeWindow(env, internal).Success? && NormalizeWindow(env, venue).Success?
    ensures Reconcile(env, q, internal, venue).Success?
    ensures Finds(env, q, NormalizeWindow(env, internal).value, NormalizeWindow(env, venue).value,
                  Reconcile(env, q, internal, venue).value)
  {
    var a, b := NormalizeWindow(env, internal).value, NormalizeWindow(env, venue).value;
    NormalizedIsValid(env, internal);
    NormalizedIsValid(env, venue);
    var ids := SomethingCompared(a, b);
    WindowsFind(env, q, a, b, ids);
    ReconcileUnfolds(env, q, internal, venue);
    FoundAmong(env, q, a, b, ids, ReconcileIds(env, q, a, b, ids).value);
  }

  lemma ReconcileUnfolds(env: Env, q: Request, internal: seq<OrderRecord>, venue: seq<OrderRecord>)
    requires (internal != [] || venue != []) && ArgumentsOk(env, q)
    requires NormalizeWindow(env, internal).Success? && NormalizeWindow(env, venue).Success?
    ensures var a, b := NormalizeWindow(env, internal).value, NormalizeWindow(env, venue).value;
            Reconcile(env, q, internal, venue) == ReconcileIds(env, q, a, b, InOrder(a.Keys + b.Keys))
  {
  }

  lemma FoundAmong(env: Env, q: Request, a: map<string, OrderRecord>, b: map<string, OrderRecord>, ids: seq<string>,
                   r: RunResult)
    requires ComparedIds(a, b, ids) && |ids| > 0 && FindsAmong(env, q, a, b, ids, r)
    ensures Finds(env, q, a, b, r)
  {
  }

  ghost predicate Finds(env: Env, q: Request, a: map<string, OrderRecord>, b: map<string, OrderRecord>, r: RunResult) {
    exists ids :: ComparedIds(a, b, ids) && |ids| > 0 && FindsAmong(env, q, a, b, ids, r)
  }

  ghost predicate FindsAmong(env: Env, q: Request, a: map<string, OrderRecord>, b: map<string, OrderRecord>,
                             ids: seq<string>, r: RunResult)
    requires |ids| > 0
  {
    && BuiltFrom(Builder(env, Normalize(q.runId), a, b), Filter(Disagreement(a, b), ids), r.diffs)
    && |r.diffs| <= |ids| && ValidSummary(env, r.summary) && r.summary == SummaryOf(q, |ids|, |r.diffs|)
  }

  /** The ids of both windows, ascending. */
  ghost predicate ComparedIds(a: map<string, OrderRecord>, b: map<string, OrderRecord>, ids: seq<string>) {
    Ascending(ids) && forall id :: id in ids <==> id in a.Keys + b.Keys
  }

  lemma WindowsFind(env: Env, q: Request, a: map<string, OrderRecord>, b: map<string, OrderRecord>, ids: seq<string>)
    requires ReadsTrimmedText(env) && ArgumentsOk(env, q) && ValidIndex(env, a) && ValidIndex(env, b)
    requires ComparedIds(a, b, ids) && |ids| > 0
    ensures ReconcileIds(env, q, a, b, ids).Success?
            && FindsAmong(env, q, a, b, ids, ReconcileIds(env, q, a, b, ids).value)
  {
    NormalizeKeepsBlank(q.runId);
    var found := WindowsCollect(env, Normalize(q.runId), a, b, ids);
    ConcludeSucceeds(env, q, |ids|, found, |found| as real / |ids| as real);
  }

  lemma WindowsCollect(env: Env, runId: string, a: map<string, OrderRecord>, b: map<string, OrderRecord>,
                       ids: seq<string>)
    returns (found: seq<DiffRecord>)
    requires ValidIndex(env, a) && ValidIndex(env, b) && !Blank(runId) && ComparedIds(a, b, ids)
    ensures CollectDiffs(Builder(env, runId, a, b), ids) == Success(found)
    ensures BuiltFrom(Builder(env, runId, a, b), Filter(Disagreement(a, b), ids), found)
    ensures Sort(DiffLeq, found) == found && |found| <= |ids|
  {
    var build, keep := Builder(env, runId, a, b), Disagreement(a, b);
    forall id | id in ids ensures Builds(build, keep, id) {
      BuildDiffSucceeds(env, runId, a, b, id);
    }
    found := CollectAscending(build, keep, ids);
  }

  lemma CollectAscending(build: Build, keep: string -> bool, ids: seq<string>) returns (found: seq<DiffRecord>)
    requires Ascending(ids) && forall id :: id in ids ==> Builds(build, keep, id)
    ensures CollectDiffs(build, ids) == Success(found) && BuiltFrom(build, Filter(keep, ids), found)
    ensures Sort(DiffLeq, found) == found && |found| <= |ids|
  {
    CollectsKept(build, keep, ids);
    found := CollectDiffs(build, ids).value;
    FilterAscends(keep, ids);
    BuiltIsSorted(build, Filter(keep, ids), found);
  }

  /** The summary depends on the request and the two counts only. */
  ghost function SummaryOf(q: Request, compared: nat, mismatches: nat): Summary
    requires compared > 0
  {
    var rate := mismatches as real / compared as real;
    Summarize(q, compared, mismatches, rate, rate > 0.001)
  }

  lemma SomethingCompared(a: map<string, OrderRecord>, b: map<string, OrderRecord>) returns (ids: seq<string>)
    requires a != map[] || b != map[]
    ensures ids == InOrder(a.Keys + b.Keys) && ComparedIds(a, b, ids) && |ids| > 0
  {
    ids := InOrder(a.Keys + b.Keys);
    if a != map[] {
      var id :| id in a;
      assert id in ids;
    } else {
      var id :| id in b;
      assert id in ids;
    }
  }

  predicate DescribedBy(d: DiffRecord, r: OrderRecord) {
    d.marketId == r.marketId && d.observedAt == r.observedAt && d.correlationId == r.correlationId
  }

  /** A diff's class and values are those of the records it is about. */
  ghost predicate Explains(env: Env, a: map<string, OrderRecord>, b: map<string, OrderRecord>, d: DiffRecord)
    requires d.orderId in a.Keys + b.Keys
  {
    && (d.diffClass == MissingInternalRecord <==> d.orderId !in a)
    && (d.diffClass == MissingVenueRecord <==> d.orderId !in b)
    && (d.orderId in a ==> d.orderId in b || d.internalValue == Some(Compact(env, a[d.orderId])))
    && (d.orderId in b ==> d.orderId in a || d.venueValue == Some(Compact(env, b[d.orderId])))
    && (d.internalValue.None? <==> d.orderId !in a) && (d.venueValue.None? <==> d.orderId !in b)
    && DescribedBy(d, if d.orderId in a then a[d.orderId] else b[d.orderId])
    && (d.orderId in a && d.orderId in b ==>
          var i, v := a[d.orderId], b[d.orderId];
          match d.diffClass
          case MarketMismatch => i.marketId != v.marketId && d.internalValue == Some(i.marketId)
                                 && d.venueValue == Some(v.marketId)
          case LifecycleStateMismatch =>
            && i.marketId == v.marketId && i.lifecycleState != v.lifecycleState
            && d.internalValue == Some(i.lifecycleState) && d.venueValue == Some(v.lifecycleState)
          case QuantityMismatch =>
            && i.marketId == v.marketId && i.lifecycleState == v.lifecycleState && i.quantity != v.quantity
            && d.internalValue == Some(OptionalAmount(env, i.quantity))
            && d.venueValue == Some(OptionalAmount(env, v.quantity))
          case PriceMismatch =>
            && i.marketId == v.marketId && i.lifecycleState == v.lifecycleState && i.quantity == v.quantity
            && i.price != v.price
            && d.internalValue == Some(OptionalAmount(env, i.price))
            && d.venueValue == Some(OptionalAmount(env, v.price))
          case _ => false)
  }

  lemma BuiltExplains(env: Env, runId: string, a: map<string, OrderRecord>, b: map<string, OrderRecord>, id: string,
                      d: DiffRecord)
    requires BuildDiff(env, runId, id, Entry(a, id), Entry(b, id)) == Success(Some(d))
    requires id in a.Keys + b.Keys
    ensures d.orderId == id && Explains(env, a, b, d)
  {
    assert d == Labelled(runId, id, Classify(env, Entry(a, id), Entry(b, id)).value);
  }

  lemma BuiltIds(build: Build, ids: seq<string>, diffs: seq<DiffRecord>)
    requires Ascending(ids) && BuiltFrom(build, ids, diffs)
    ensures forall i, j :: 0 <= i < j < |diffs| ==> diffs[i].orderId != diffs[j].orderId
                                                    && TextLeq(diffs[i].orderId, diffs[j].orderId)
    ensures forall id :: (exists i :: 0 <= i < |diffs| && diffs[i].orderId == id) <==> id in ids
    ensures forall d :: d in diffs ==> d.orderId in ids && build(d.orderId) == Success(Some(d))
  {
    forall i, j | 0 <= i < j < |diffs| ensures diffs[i].orderId != diffs[j].orderId
                                               && TextLeq(diffs[i].orderId, diffs[j].orderId) {
      assert ids[i] != ids[j];
    }
    forall id | id in ids ensures exists i :: 0 <= i < |diffs| && diffs[i].orderId == id {
      var i :| 0 <= i < |ids| && ids[i] == id;
      assert diffs[i].orderId == id;
    }
  }

  /** The ids strictly ascend and are exactly the ids the windows disagree on; each diff explains its disagreement. */
  ghost predicate ReportsDisagreements(env: Env, a: map<string, OrderRecord>, b: map<string, OrderRecord>,
                                       diffs: seq<DiffRecord>) {
    && (forall i, j :: 0 <= i < j < |diffs| ==> diffs[i].orderId != diffs[j].orderId
                                                && TextLeq(diffs[i].orderId, diffs[j].orderId))
    && (forall id :: (exists i :: 0 <= i < |diffs| && diffs[i].orderId == id)
                     <==> id in a.Keys + b.Keys && Disagree(a, b, id))
    && (forall d :: d in diffs ==> d.orderId in a.Keys + b.Keys && Explains(env, a, b, d))
  }

  lemma DiffsAreDisagreements(env: Env, q: Request, internal: seq<OrderRecord>, venue: seq<OrderRecord>)
    requires ReadsTrimmedText(env) && Reconcile(env, q, internal, venue).Success?
    ensures ReportsDisagreements(env, NormalizeWindow(env, internal).value, NormalizeWindow(env, venue).value,
                                 Reconcile(env, q, internal, venue).value.diffs)
  {
    ReconcileFinds(env, q, internal, venue);
    var a, b := NormalizeWindow(env, internal).value, NormalizeWindow(env, venue).value;
    var ids :| ComparedIds(a, b, ids) && |ids| > 0
               && FindsAmong(env, q, a, b, ids, Reconcile(env, q, internal, venue).value);
    FoundAreDisagreements(env, q, a, b, ids, Reconcile(env, q, internal, venue).value);
  }

  lemma FoundAreDisagreements(env: Env, q: Request, a: map<string, OrderRecord>, b: map<string, OrderRecord>,
                              ids: seq<string>, r: RunResult)
    requires ComparedIds(a, b, ids) && |ids| > 0 && FindsAmong(env, q, a, b, ids, r)
    ensures ReportsDisagreements(env, a, b, r.diffs)
  {
    FilterAscends(Disagreement(a, b), ids);
    KeptAreDisagreements(env, Normalize(q.runId), a, b, Filter(Disagreement(a, b), ids), r.diffs);
  }

  lemma KeptAreDisagreements(env: Env, runId: string, a: map<string, OrderRecord>, b: map<string, OrderRecord>,
                             kept: seq<string>, diffs: seq<DiffRecord>)
    requires Ascending(kept) && BuiltFrom(Builder(env, runId, a, b), kept, diffs)
    requires forall id :: id in kept <==> id in a.Keys + b.Keys && Disagree(a, b, id)
    ensures ReportsDisagreements(env, a, b, diffs)
  {
    BuiltIds(Builder(env, runId, a, b), kept, diffs);
    AllExplain(env, runId, a, b, diffs);
  }

  lemma AllExplain(env: Env, runId: string, a: map<string, OrderRecord>, b: map<string, OrderRecord>,
                   diffs: seq<DiffRecord>)
    requires forall d :: d in diffs ==> d.orderId in a.Keys + b.Keys
                                        && Builder(env, runId, a, b)(d.orderId) == Success(Some(d))
    ensures forall d :: d in diffs ==> d.orderId in a.Keys + b.Keys && Explains(env, a, b, d)
  {
    forall d | d in diffs ensures d.orderId in a.Keys + b.Keys && Explains(env, a, b, d) {
      BuiltExplains(env, runId, a, b, d.orderId, d);
    }
  }

  lemma ClassTextShape(c: DiffClass, e: DiffClass)
    ensures ColonFree(ClassText(c)) && (ClassText(c) == ClassText(e) ==> c == e)
  {
    ClassTextsApart(c, e);
  }

  lemma ClassTextsApart(c: DiffClass, e: DiffClass)
    ensures |ClassText(c)| == |ClassText(e)| ==> c == e
  {
  }

  // ---------- when diff ids coincide ----------

  lemma DiffIdShape(runId: string, orderId: string, c: DiffClass)
    ensures DiffId(runId, orderId, c) == "diff::" + runId + "::" + Normalize(orderId) + ":" + ":" + ClassText(c)
  {
    assert "::" == ":" + ":";
  }

  /** Within a run, diff ids coincide exactly when the order ids normalise alike and the classes agree. */
  lemma DiffIdsCoincideIff(runId: string, x: string, c: DiffClass, y: string, e: DiffClass)
    ensures DiffId(runId, x, c) == DiffId(runId, y, e) <==> Normalize(x) == Normalize(y) && c == e
  {
    var head := "diff::" + runId + "::";
    DiffIdShape(runId, x, c);
    DiffIdShape(runId, y, e);
    ClassTextShape(c, e);
    ClassTextShape(e, c);
    if DiffId(runId, x, c) == DiffId(runId, y, e) {
      LastColonSplit(head + Normalize(x) + ":", ClassText(c), head + Normalize(y) + ":", ClassText(e));
      assert Normalize(x) == (head + Normalize(x) + ":")[|head|..|head| + |Normalize(x)|];
      assert |Normalize(x)| == |Normalize(y)|;
    }
  }

  /** The class of the difference the windows have on an id, if they have one. */
  function ClassOn(env: Env, a: map<string, OrderRecord>, b: map<string, OrderRecord>, id: string): Option<DiffClass> {
    var details := Classify(env, Entry(a, id), Entry(b, id));
    if details.Some? then Some(details.value.diffClass) else None
  }

  /** Every diff of a run is filed under its own id and has the class the windows differ by. */
  ghost predicate FiledApart(env: Env, runId: string, a: map<string, OrderRecord>, b: map<string, OrderRecord>,
                             diffs: seq<DiffRecord>) {
    && (forall i, j :: 0 <= i < j < |diffs| ==> diffs[i].orderId != diffs[j].orderId)
    && (forall id :: (exists i :: 0 <= i < |diffs| && diffs[i].orderId == id) <==> ClassOn(env, a, b, id).Some?)
    && (forall d :: d in diffs ==> ClassOn(env, a, b, d.orderId) == Some(d.diffClass)
                                   && d.diffId == DiffId(runId, d.orderId, d.diffClass))
  }

  lemma DiffsFiledApart(env: Env, q: Request, internal: seq<OrderRecord>, venue: seq<OrderRecord>)
    requires ReadsTrimmedText(env) && Reconcile(env, q, internal, venue).Success?
    ensures FiledApart(env, Normalize(q.runId), NormalizeWindow(env, internal).value,
                       NormalizeWindow(env, venue).value, Reconcile(env, q, internal, venue).value.diffs)
  {
    ReconcileFinds(env, q, internal, venue);
    var a, b := NormalizeWindow(env, internal).value, NormalizeWindow(env, venue).value;
    var ids :| ComparedIds(a, b, ids) && |ids| > 0
               && FindsAmong(env, q, a, b, ids, Reconcile(env, q, internal, venue).value);
    FoundFiledApart(env, q, a, b, ids, Reconcile(env, q, internal, venue).value);
  }

  lemma FoundFiledApart(env: Env, q: Request, a: map<string, OrderRecord>, b: map<string, OrderRecord>,
                        ids: seq<string>, r: RunResult)
    requires ComparedIds(a, b, ids) && |ids| > 0 && FindsAmong(env, q, a, b, ids, r)
    ensures FiledApart(env, Normalize(q.runId), a, b, r.diffs)
  {
    FilterAscends(Disagreement(a, b), ids);
    KeptFiledApart(env, Normalize(q.runId), a, b, Filter(Disagreement(a, b), ids), r.diffs);
  }

  lemma KeptFiledApart(env: Env, runId: string, a: map<string, OrderRecord>, b: map<string, OrderRecord>,
                       kept: seq<string>, diffs: seq<DiffRecord>)
    requires Ascending(kept) && BuiltFrom(Builder(env, runId, a, b), kept, diffs)
    requires forall id :: id in kept <==> id in a.Keys + b.Keys && Disagree(a, b, id)
    ensures FiledApart(env, runId, a, b, diffs)
  {
    BuiltIds(Builder(env, runId, a, b), kept, diffs);
    forall id ensures id in kept <==> ClassOn(env, a, b, id).Some? {
      if id in a.Keys + b.Keys {
        ClassifyIffDisagree(env, a, b, id);
      }
    }
    forall d | d in diffs ensures ClassOn(env, a, b, d.orderId) == Some(d.diffClass)
                                  && d.diffId == DiffId(runId, d.orderId, d.diffClass) {
      BuiltIsFiled(env, runId, a, b, d);
    }
  }

  lemma BuiltIsFiled(env: Env, runId: string, a: map<string, OrderRecord>, b: map<string, OrderRecord>, d: DiffRecord)
    requires Builder(env, runId, a, b)(d.orderId) == Success(Some(d))
    ensures ClassOn(env, a, b, d.orderId) == Some(d.diffClass)
    ensures d.diffId == DiffId(runId, d.orderId, d.diffClass)
  {
    assert d == Labelled(runId, d.orderId, Classify(env, Entry(a, d.orderId), Entry(b, d.orderId)).value);
  }

  /** Two different order ids that are written alike and differ between the windows in the same way. */
  predicate Confused(env: Env, a: map<string, OrderRecord>, b: map<string, OrderRecord>, x: string, y: string) {
    && x != y && Normalize(x) == Normalize(y)
    && ClassOn(env, a, b, x).Some? && ClassOn(env, a, b, x) == ClassOn(env, a, b, y)
  }

  ghost predicate NoneConfused(env: Env, a: map<string, OrderRecord>, b: map<string, OrderRecord>) {
    forall x, y :: !Confused(env, a, b, x, y)
  }

  predicate DistinctDiffIds(diffs: seq<DiffRecord>) {
    forall i, j :: 0 <= i < j < |diffs| ==> diffs[i].diffId != diffs[j].diffId
  }

  /** The diffs of a run have distinct ids exactly when its windows confuse no two order ids. */
  lemma DiffIdsDistinctIff(env: Env, q: Request, internal: seq<OrderRecord>, venue: seq<OrderRecord>)
    requires ReadsTrimmedText(env) && Reconcile(env, q, internal, venue).Success?
    ensures DistinctDiffIds(Reconcile(env, q, internal, venue).value.diffs)
       <==> NoneConfused(env, NormalizeWindow(env, internal).value, NormalizeWindow(env, venue).value)
  {
    DiffsFiledApart(env, q, internal, venue);
    FiledDistinctIff(env, Normalize(q.runId), NormalizeWindow(env, internal).value,
                     NormalizeWindow(env, venue).value, Reconcile(env, q, internal, venue).value.diffs);
  }

  lemma FiledDistinctIff(env: Env, runId: string, a: map<string, OrderRecord>, b: map<string, OrderRecord>,
                         diffs: seq<DiffRecord>)
    requires FiledApart(env, runId, a, b, diffs)
    ensures DistinctDiffIds(diffs) <==> NoneConfused(env, a, b)
  {
    if NoneConfused(env, a, b) {
      forall i, j | 0 <= i < j < |diffs| ensures diffs[i].diffId != diffs[j].diffId {
        FiledAlike(env, runId, a, b, diffs, i, j);
      }
    } else {
      var x, y :| Confused(env, a, b, x, y);
      var i, j := ConfusedDiffs(env, runId, a, b, diffs, x, y);
    }
  }

  lemma FiledAlike(env: Env, runId: string, a: map<string, OrderRecord>, b: map<string, OrderRecord>,
                   diffs: seq<DiffRecord>, i: nat, j: nat)
    requires FiledApart(env, runId, a, b, diffs) && i < j < |diffs|
    ensures diffs[i].diffId == diffs[j].diffId <==> Confused(env, a, b, diffs[i].orderId, diffs[j].orderId)
  {
    var d, e := diffs[i], diffs[j];
    assert d in diffs && e in diffs;
    DiffIdsCoincideIff(runId, d.orderId, d.diffClass, e.orderId, e.diffClass);
  }

  lemma ConfusedDiffs(env: Env, runId: string, a: map<string, OrderRecord>, b: map<string, OrderRecord>,
                      diffs: seq<DiffRecord>, x: string, y: string) returns (i: nat, j: nat)
    requires FiledApart(env, runId, a, b, diffs) && Confused(env, a, b, x, y)
    ensures i < j < |diffs| && diffs[i].diffId == diffs[j].diffId
    ensures [diffs[i].orderId, diffs[j].orderId] in {[x, y], [y, x]}
  {
    var k := DiffOn(env, runId, a, b, diffs, x);
    var l := DiffOn(env, runId, a, b, diffs, y);
    i, j := if k < l then k else l, if k < l then l else k;
    FiledAlike(env, runId, a, b, diffs, i, j);
  }

  lemma DiffOn(env: Env, runId: string, a: map<string, OrderRecord>, b: map<string, OrderRecord>,
               diffs: seq<DiffRecord>, id: string) returns (k: nat)
    requires FiledApart(env, runId, a, b, diffs) && ClassOn(env, a, b, id).Some?
    ensures k < |diffs| && diffs[k].orderId == id
  {
    k :| 0 <= k < |diffs| && diffs[k].orderId == id;
  }

  /** It happens: two orders the venue does not have, whose ids differ only in case, are filed under one diff id. */
  lemma TwoDiffsShareAnId(env: Env, q: Request, order: OrderRecord) returns (diffs: seq<DiffRecord>, i: nat, j: nat)
    requires ReadsTrimmedText(env) && ArgumentsOk(env, q) && ValidRecord(env, order) && order.orderId == "Order-1"
    ensures Reconcile(env, q, [order, order.(orderId := "order-1")], []).Success?
    ensures diffs == Reconcile(env, q, [order, order.(orderId := "order-1")], []).value.diffs
    ensures i < j < |diffs| && diffs[i].diffId == diffs[j].diffId
    ensures [diffs[i].orderId, diffs[j].orderId] in {["Order-1", "order-1"], ["order-1", "Order-1"]}
  {
    NotBlank("order-1", 0);
    CaseNormalizesAway();
    diffs, i, j := UnmatchedPairShares(env, q, order, order.(orderId := "order-1"));
  }

  lemma UnmatchedPairShares(env: Env, q: Request, x: OrderRecord, y: OrderRecord)
    returns (diffs: seq<DiffRecord>, i: nat, j: nat)
    requires ReadsTrimmedText(env) && ArgumentsOk(env, q) && ValidRecord(env, x) && ValidRecord(env, y)
    requires x.orderId != y.orderId && Normalize(x.orderId) == Normalize(y.orderId)
    ensures Reconcile(env, q, [x, y], []).Success? && diffs == Reconcile(env, q, [x, y], []).value.diffs
    ensures i < j < |diffs| && diffs[i].diffId == diffs[j].diffId
    ensures [diffs[i].orderId, diffs[j].orderId] in {[x.orderId, y.orderId], [y.orderId, x.orderId]}
  {
    var window := [x, y];
    assert window[0] == x && window[1] == y && KeyedWindow(env, window);
    ReconcileSucceedsIff(env, q, window, []);
    DiffsFiledApart(env, q, window, []);
    NormalizeWindowIff(env, window);
    var a := NormalizeWindow(env, window).value;
    PairConfused(env, a, x, y);
    diffs := Reconcile(env, q, window, []).value.diffs;
    i, j := ConfusedDiffs(env, Normalize(q.runId), a, map[], diffs, x.orderId, y.orderId);
  }

  lemma PairConfused(env: Env, a: map<string, OrderRecord>, x: OrderRecord, y: OrderRecord)
    requires IsIndexOf(a, [x, y]) && x.orderId != y.orderId && Normalize(x.orderId) == Normalize(y.orderId)
    ensures Confused(env, a, map[], x.orderId, y.orderId)
  {
    assert x in [x, y] && y in [x, y];
  }

  lemma CaseNormalizesAway()
    ensures Normalize("Order-1") == Normalize("order-1")
  {
    TrimmedIsFixed("Order-1");
    TrimmedIsFixed("order-1");
  }

  // ---------- a run read off the windows and the request ----------

  lemma DiffIsBuilt(env: Env, q: Request, internal: seq<OrderRecord>, venue: seq<OrderRecord>, d: DiffRecord)
    requires ReadsTrimmedText(env) && Reconcile(env, q, internal, venue).Success?
    requires d in Reconcile(env, q, internal, venue).value.diffs
    ensures Builder(env, Normalize(q.runId), NormalizeWindow(env, internal).value, NormalizeWindow(env, venue).value)
              (d.orderId) == Success(Some(d))
  {
    ReconcileFinds(env, q, internal, venue);
    var a, b := NormalizeWindow(env, internal).value, NormalizeWindow(env, venue).value;
    var ids :| ComparedIds(a, b, ids) && |ids| > 0
               && FindsAmong(env, q, a, b, ids, Reconcile(env, q, internal, venue).value);
    BuiltIs(Builder(env, Normalize(q.runId), a, b), Filter(Disagreement(a, b), ids),
            Reconcile(env, q, internal, venue).value.diffs, d);
  }

  lemma BuiltIs(build: Build, ids: seq<string>, diffs: seq<DiffRecord>, d: DiffRecord)
    requires BuiltFrom(build, ids, diffs) && d in diffs
    ensures build(d.orderId) == Success(Some(d))
  {
    var i :| 0 <= i < |diffs| && diffs[i] == d;
  }

  /** r is the window's record of this order id, if it has one. */
  predicate RecordOf(window: seq<OrderRecord>, id: string, r: Option<OrderRecord>) {
    match r
    case Some(record) => record in window && record.orderId == id
    case None => forall record :: record in window ==> record.orderId != id
  }

  lemma EntryIsRecord(env: Env, window: seq<OrderRecord>, id: string)
    requires NormalizeWindow(env, window).Success?
    ensures RecordOf(window, id, Entry(NormalizeWindow(env, window).value, id))
  {
    NormalizeWindowIff(env, window);
  }

  /** A record written out for a diff. */
  ghost predicate WrittenOut(env: Env, r: OrderRecord, text: string) {
    var quantity := if r.quantity.Some? then env.amount(r.quantity.value) else "none";
    var price := if r.price.Some? then env.amount(r.price.value) else "none";
    text == "order_id=" + r.orderId + ",market_id=" + r.marketId + ",state=" + r.lifecycleState
            + ",quantity=" + quantity + ",price=" + price
  }

  ghost predicate AmountsWrittenOut(env: Env, x: Option<real>, y: Option<real>, d: DiffRecord) {
    && d.internalValue == Some(if x.Some? then env.amount(x.value) else "none")
    && d.venueValue == Some(if y.Some? then env.amount(y.value) else "none")
  }

  /** The class and the two values of a diff, from the records the windows have of its order id. */
  ghost predicate Shows(env: Env, i: Option<OrderRecord>, v: Option<OrderRecord>, d: DiffRecord) {
    match (i, v)
    case (None, Some(r)) =>
      && d.diffClass == MissingInternalRecord && d.internalValue == None
      && d.venueValue.Some? && WrittenOut(env, r, d.venueValue.value)
    case (Some(r), None) =>
      && d.diffClass == MissingVenueRecord && d.venueValue == None
      && d.internalValue.Some? && WrittenOut(env, r, d.internalValue.value)
    case (Some(r), Some(s)) =>
      if r.marketId != s.marketId then
        d.diffClass == MarketMismatch && d.internalValue == Some(r.marketId) && d.venueValue == Some(s.marketId)
      else if r.lifecycleState != s.lifecycleState then
        && d.diffClass == LifecycleStateMismatch
        && d.internalValue == Some(r.lifecycleState) && d.venueValue == Some(s.lifecycleState)
      else if r.quantity != s.quantity then
        d.diffClass == QuantityMismatch && AmountsWrittenOut(env, r.quantity, s.quantity, d)
      else
        d.diffClass == PriceMismatch && r.price != s.price && AmountsWrittenOut(env, r.price, s.price, d)
    case (None, None) => false
  }

  /**
   * Every diff of a run is filed under the run of its summary, as a non-critical mismatch, with an id and values
   * written from the records it is about; its market, time and correlation id are the internal record's, or the
   * venue's where there is no internal one.
   */
  lemma DiffReads(env: Env, q: Request, internal: seq<OrderRecord>, venue: seq<OrderRecord>, d: DiffRecord)
    returns (i: Option<OrderRecord>, v: Option<OrderRecord>)
    requires ReadsTrimmedText(env) && Reconcile(env, q, internal, venue).Success?
    requires d in Reconcile(env, q, internal, venue).value.diffs
    ensures RecordOf(internal, d.orderId, i) && RecordOf(venue, d.orderId, v) && Shows(env, i, v, d)
    ensures var r := if i.Some? then i.value else v.value;
            d.marketId == r.marketId && d.observedAt == r.observedAt && d.correlationId == r.correlationId
    ensures d.runId == Reconcile(env, q, internal, venue).value.summary.runId == Normalize(q.runId)
    ensures d.reason == NonCriticalMismatch
    ensures d.diffId == "diff::" + Normalize(q.runId) + "::" + Normalize(d.orderId) + "::"
                        + match d.diffClass
                          case MissingInternalRecord => "missing_internal_record"
                          case MissingVenueRecord => "missing_venue_record"
                          case MarketMismatch => "market_mismatch"
                          case LifecycleStateMismatch => "lifecycle_state_mismatch"
                          case QuantityMismatch => "quantity_mismatch"
                          case PriceMismatch => "price_mismatch"
  {
    var a, b := NormalizeWindow(env, internal).value, NormalizeWindow(env, venue).value;
    i, v := Entry(a, d.orderId), Entry(b, d.orderId);
    EntryIsRecord(env, internal, d.orderId);
    EntryIsRecord(env, venue, d.orderId);
    DiffIsBuilt(env, q, internal, venue, d);
    SummaryNamesRequest(env, q, internal, venue);
    BuiltShows(env, Normalize(q.runId), d.orderId, i, v, d);
  }

  lemma BuiltShows(env: Env, runId: string, id: string, i: Option<OrderRecord>, v: Option<OrderRecord>, d: DiffRecord)
    requires BuildDiff(env, runId, id, i, v) == Success(Some(d))
    ensures Shows(env, i, v, d) && d.runId == runId && d.orderId == id && d.reason == NonCriticalMismatch
    ensures d.diffId == DiffId(runId, id, d.diffClass)
    ensures var r := if i.Some? then i.value else v.value;
            d.marketId == r.marketId && d.observedAt == r.observedAt && d.correlationId == r.correlationId
  {
    assert d == Labelled(runId, id, Classify(env, i, v).value);
  }

  /** An order id has a diff exactly when one window lacks it or the two records differ in one of four fields. */
  lemma DiffExistsIff(env: Env, q: Request, internal: seq<OrderRecord>, venue: seq<OrderRecord>, id: string,
                      i: Option<OrderRecord>, v: Option<OrderRecord>)
    requires ReadsTrimmedText(env) && Reconcile(env, q, internal, venue).Success?
    requires RecordOf(internal, id, i) && RecordOf(venue, id, v)
    ensures HasDiff(Reconcile(env, q, internal, venue).value.diffs, id) <==>
            match (i, v)
            case (None, None) => false
            case (Some(r), Some(s)) => r.marketId != s.marketId || r.lifecycleState != s.lifecycleState
                                       || r.quantity != s.quantity || r.price != s.price
            case _ => true
  {
    DiffsFiledApart(env, q, internal, venue);
    RecordIsEntry(env, internal, id, i);
    RecordIsEntry(env, venue, id, v);
    FiledIff(env, Normalize(q.runId), NormalizeWindow(env, internal).value, NormalizeWindow(env, venue).value,
             Reconcile(env, q, internal, venue).value.diffs, id);
    ClassifiesIff(env, i, v);
  }

  predicate HasDiff(diffs: seq<DiffRecord>, id: string) {
    exists k :: 0 <= k < |diffs| && diffs[k].orderId == id
  }

  lemma FiledIff(env: Env, runId: string, a: map<string, OrderRecord>, b: map<string, OrderRecord>,
                 diffs: seq<DiffRecord>, id: string)
    requires FiledApart(env, runId, a, b, diffs)
    ensures HasDiff(diffs, id) <==> Classify(env, Entry(a, id), Entry(b, id)).Some?
  {
    assert HasDiff(diffs, id) <==> ClassOn(env, a, b, id).Some?;
  }

  lemma ClassifiesIff(env: Env, i: Option<OrderRecord>, v: Option<OrderRecord>)
    ensures Classify(env, i, v).Some? <==>
            match (i, v)
            case (None, None) => false
            case (Some(r), Some(s)) => r.marketId != s.marketId || r.lifecycleState != s.lifecycleState
                                       || r.quantity != s.quantity || r.price != s.price
            case _ => true
  {
  }

  lemma RecordIsEntry(env: Env, window: seq<OrderRecord>, id: string, r: Option<OrderRecord>)
    requires NormalizeWindow(env, window).Success? && RecordOf(window, id, r)
    ensures r == Entry(NormalizeWindow(env, window).value, id)
  {
    NormalizeWindowIff(env, window);
  }

  /**
   * A run is accepted exactly when there is something to compare, its five arguments are given, its three times read
   * with the window's in order, and every record is complete, timed, of amounts not below zero, under an id of its own.
   */
  lemma RunAcceptedIff(env: Env, q: Request, internal: seq<OrderRecord>, venue: seq<OrderRecord>)
    requires ReadsTrimmedText(env)
    ensures Reconcile(env, q, internal, venue).Success? <==>
            && (internal != [] || venue != [])
            && Trim(q.runId) != "" && Trim(q.correlationId) != "" && env.instant(q.evaluatedAt).Some?
            && env.instant(q.windowStartedAt).Some? && env.instant(q.windowEndedAt).Some?
            && env.instant(q.windowStartedAt).value <= env.instant(q.windowEndedAt).value
            && (forall r :: r in internal + venue ==>
                  && Trim(r.orderId) != "" && Trim(r.marketId) != "" && Trim(r.lifecycleState) != ""
                  && Trim(r.correlationId) != "" && env.instant(r.observedAt).Some?
                  && (r.quantity == None || r.quantity.value >= 0.0) && (r.price == None || r.price.value >= 0.0))
            && (forall i, j :: 0 <= i < j < |internal| ==> internal[i].orderId != internal[j].orderId)
            && (forall i, j :: 0 <= i < j < |venue| ==> venue[i].orderId != venue[j].orderId)
    ensures Reconcile(env, q, internal, venue).Failure? ==>
              Reconcile(env, q, internal, venue).error
              == if internal == [] && venue == [] then WindowUnavailable else InvalidPayload
  {
    ReconcileSucceedsIff(env, q, internal, venue);
    WindowAcceptedIff(env, internal);
    WindowAcceptedIff(env, venue);
    if Reconcile(env, q, internal, venue).Failure? {
      RunFailure(env, q, internal, venue);
    }
  }

  lemma WindowAcceptedIff(env: Env, window: seq<OrderRecord>)
    requires ReadsTrimmedText(env)
    ensures (forall i :: 0 <= i < |window| ==> ValidRecord(env, window[i])) <==>
            forall r :: r in window ==>
              && Trim(r.orderId) != "" && Trim(r.marketId) != "" && Trim(r.lifecycleState) != ""
              && Trim(r.correlationId) != "" && env.instant(r.observedAt).Some?
              && (r.quantity == None || r.quantity.value >= 0.0) && (r.price == None || r.price.value >= 0.0)
  {
    forall r ensures ValidRecord(env, r) <==>
                     && Trim(r.orderId) != "" && Trim(r.marketId) != "" && Trim(r.lifecycleState) != ""
                     && Trim(r.correlationId) != "" && env.instant(r.observedAt).Some?
                     && (r.quantity == None || r.quantity.value >= 0.0)
                     && (r.price == None || r.price.value >= 0.0) {
    }
  }

  lemma {:induction false} WindowFailure(env: Env, window: seq<OrderRecord>)
    ensures NormalizeWindow(env, window).Failure? ==> NormalizeWindow(env, window).error == InvalidPayload
  {
    if window != [] {
      WindowFailure(env, window[..|window| - 1]);
    }
  }

  lemma RunFailure(env: Env, q: Request, internal: seq<OrderRecord>, venue: seq<OrderRecord>)
    requires ReadsTrimmedText(env) && Reconcile(env, q, internal, venue).Failure?
    ensures Reconcile(env, q, internal, venue).error
         == if internal == [] && venue == [] then WindowUnavailable else InvalidPayload
  {
    WindowFailure(env, internal);
    WindowFailure(env, venue);
    if (internal != [] || venue != []) && ArgumentsOk(env, q) && NormalizeWindow(env, internal).Success?
       && NormalizeWindow(env, venue).Success? {
      ReconcileFinds(env, q, internal, venue);
    }
  }

  // ---------- permuting and swapping the windows ----------

  lemma ReconcileIgnoresOrder(env: Env, q: Request, internal: seq<OrderRecord>, venue: seq<OrderRecord>,
                              internal': seq<OrderRecord>, venue': seq<OrderRecord>)
    requires multiset(internal) == multiset(internal') && multiset(venue) == multiset(venue')
    ensures Reconcile(env, q, internal', venue') == Reconcile(env, q, internal, venue)
  {
    SameContents(internal, internal');
    SameContents(venue, venue');
    NormalizeIgnoresOrder(env, internal, internal');
    NormalizeIgnoresOrder(env, venue, venue');
  }

  function SwappedClass(c: DiffClass): DiffClass {
    match c
    case MissingInternalRecord => MissingVenueRecord
    case MissingVenueRecord => MissingInternalRecord
    case _ => c
  }

  lemma ClassifySwaps(env: Env, internal: Option<OrderRecord>, venue: Option<OrderRecord>)
    ensures var found, swapped := Classify(env, internal, venue), Classify(env, venue, internal);
            && swapped.Some? == found.Some?
            && (found.Some? ==> && swapped.value.diffClass == SwappedClass(found.value.diffClass)
                                && swapped.value.internalValue == found.value.venueValue
                                && swapped.value.venueValue == found.value.internalValue)
  {
  }

  ghost predicate Mirrored(d: DiffRecord, e: DiffRecord) {
    && e.orderId == d.orderId && e.diffClass == SwappedClass(d.diffClass)
    && e.internalValue == d.venueValue && e.venueValue == d.internalValue
  }

  lemma BuildDiffSwaps(env: Env, runId: string, id: string, internal: Option<OrderRecord>, venue: Option<OrderRecord>,
                       d: DiffRecord, e: DiffRecord)
    requires BuildDiff(env, runId, id, internal, venue) == Success(Some(d))
    requires BuildDiff(env, runId, id, venue, internal) == Success(Some(e))
    ensures Mirrored(d, e)
  {
    ClassifySwaps(env, internal, venue);
    assert d == Labelled(runId, id, Classify(env, internal, venue).value);
    assert e == Labelled(runId, id, Classify(env, venue, internal).value);
  }

  lemma BuiltSwaps(env: Env, runId: string, a: map<string, OrderRecord>, b: map<string, OrderRecord>,
                   ids: seq<string>, diffs: seq<DiffRecord>, swapped: seq<DiffRecord>)
    requires BuiltFrom(Builder(env, runId, a, b), ids, diffs) && BuiltFrom(Builder(env, runId, b, a), ids, swapped)
    ensures |swapped| == |diffs| && forall i :: 0 <= i < |diffs| ==> Mirrored(diffs[i], swapped[i])
  {
    forall i | 0 <= i < |diffs| ensures Mirrored(diffs[i], swapped[i]) {
      BuildDiffSwaps(env, runId, ids[i], Entry(a, ids[i]), Entry(b, ids[i]), diffs[i], swapped[i]);
    }
  }

  lemma {:induction false} FilterExtensional(f: string -> bool, g: string -> bool, ids: seq<string>)
    requires forall id :: id in ids ==> f(id) == g(id)
    ensures Filter(f, ids) == Filter(g, ids)
  {
    if ids != [] {
      FilterExtensional(f, g, ids[1..]);
    }
  }

  lemma SwapAmong(env: Env, q: Request, a: map<string, OrderRecord>, b: map<string, OrderRecord>, ids: seq<string>,
                  r: RunResult, s: RunResult)
    requires |ids| > 0 && FindsAmong(env, q, a, b, ids, r) && FindsAmong(env, q, b, a, ids, s)
    ensures s.summary == r.summary && |s.diffs| == |r.diffs|
    ensures forall i :: 0 <= i < |r.diffs| ==> Mirrored(r.diffs[i], s.diffs[i])
  {
    FilterExtensional(Disagreement(a, b), Disagreement(b, a), ids);
    BuiltSwaps(env, Normalize(q.runId), a, b, Filter(Disagreement(a, b), ids), r.diffs, s.diffs);
  }

  /**
   * Exchanging the two windows keeps the summary and the ids, and turns each missing class and pair of values around.
   */
  lemma SwappingWindows(env: Env, q: Request, internal: seq<OrderRecord>, venue: seq<OrderRecord>)
    requires ReadsTrimmedText(env) && Reconcile(env, q, internal, venue).Success?
    ensures Reconcile(env, q, venue, internal).Success?
    ensures var r, s := Reconcile(env, q, internal, venue).value, Reconcile(env, q, venue, internal).value;
            && s.summary == r.summary && |s.diffs| == |r.diffs|
            && forall i :: 0 <= i < |r.diffs| ==> Mirrored(r.diffs[i], s.diffs[i])
  {
    ReconcileFinds(env, q, internal, venue);
    ReconcileFinds(env, q, venue, internal);
    var a, b := NormalizeWindow(env, internal).value, NormalizeWindow(env, venue).value;
    var r, s := Reconcile(env, q, internal, venue).value, Reconcile(env, q, venue, internal).value;
    SwapFound(env, q, a, b, r, s);
  }

  lemma SwapFound(env: Env, q: Request, a: map<string, OrderRecord>, b: map<string, OrderRecord>, r: RunResult,
                  s: RunResult)
    requires Finds(env, q, a, b, r) && Finds(env, q, b, a, s)
    ensures s.summary == r.summary && |s.diffs| == |r.diffs|
    ensures forall i :: 0 <= i < |r.diffs| ==> Mirrored(r.diffs[i], s.diffs[i])
  {
    var ids :| ComparedIds(a, b, ids) && |ids| > 0 && FindsAmong(env, q, a, b, ids, r);
    var ids' :| ComparedIds(b, a, ids') && |ids'| > 0 && FindsAmong(env, q, b, a, ids', s);
    AscendingUnique(ids, ids');
    SwapAmong(env, q, a, b, ids, r, s);
  }

  // ---------- halting and recovering ----------

  lemma RatioAgainstThreshold(m: real, c: real)
    requires 0.0 < c
    ensures m / c > 0.001 <==> 1000.0 * m > c
    ensures m / c < 0.001 <==> 1000.0 * m < c
  {
    var x := m / c;
    assert x * c == m;
    SignKept(x - 0.001, c);
    assert (x - 0.001) * c == m - 0.001 * c;
  }

  lemma ScaledCount(mismatches: nat, compared: nat)
    ensures 1000.0 * mismatches as real > compared as real <==> 1000 * mismatches > compared
    ensures 1000.0 * mismatches as real < compared as real <==> 1000 * mismatches < compared
  {
    assert (1000 * mismatches) as real == 1000.0 * mismatches as real;
  }

  /** A run halts above one mismatch in a thousand and may recover only below it: no halted run is ready. */
  lemma HaltExcludesRecovery(env: Env, q: Request, internal: seq<OrderRecord>, venue: seq<OrderRecord>)
    requires ReadsTrimmedText(env) && Reconcile(env, q, internal, venue).Success?
    ensures var s := Reconcile(env, q, internal, venue).value.summary;
            && ValidSummary(env, s)
            && (s.criticalHalt <==> 1000 * s.mismatchCount > s.comparedRecords)
            && RecoveryReady(s.mismatchRate) == Success(1000 * s.mismatchCount < s.comparedRecords)
            && (s.criticalHalt ==> RecoveryReady(s.mismatchRate) == Success(false))
            && (s.status == CriticalHalt <==> s.criticalHalt) && (s.reason == CriticalMismatch <==> s.criticalHalt)
            && (s.reason == Matched <==> s.mismatchCount == 0)
  {
    ReconcileFinds(env, q, internal, venue);
    var s := Reconcile(env, q, internal, venue).value.summary;
    CountsDecide(q, s.comparedRecords, s.mismatchCount);
  }

  /** The summary is filed under the request's own run and window: trimming changes no accepted timestamp. */
  lemma SummaryNamesRequest(env: Env, q: Request, internal: seq<OrderRecord>, venue: seq<OrderRecord>)
    requires ReadsTrimmedText(env) && Reconcile(env, q, internal, venue).Success?
    ensures var s := Reconcile(env, q, internal, venue).value.summary;
            && s.windowStartedAt == q.windowStartedAt && s.windowEndedAt == q.windowEndedAt
            && s.evaluatedAt == q.evaluatedAt
            && Normalize(s.runId) == s.runId == Normalize(q.runId)
            && Trim(s.correlationId) == s.correlationId == Trim(q.correlationId)
  {
    ReconcileFinds(env, q, internal, venue);
    ArgumentsStay(env, q);
    NormalizeIdempotent(q.runId);
    TrimIsTrimmed(q.correlationId);
    TrimmedIsFixed(Trim(q.correlationId));
  }

  lemma CountsDecide(q: Request, compared: nat, mismatches: nat)
    requires 0 < compared && mismatches <= compared
    ensures var s := SummaryOf(q, compared, mismatches);
            && s.comparedRecords == compared && s.mismatchCount == mismatches
            && (s.criticalHalt <==> 1000 * mismatches > compared)
            && RecoveryReady(s.mismatchRate) == Success(1000 * mismatches < compared)
            && (s.status == CriticalHalt <==> s.criticalHalt) && (s.reason == CriticalMismatch <==> s.criticalHalt)
            && (s.reason == Matched <==> mismatches == 0)
  {
    RateOk(mismatches, compared);
    RatioAgainstThreshold(mismatches as real, compared as real);
    ScaledCount(mismatches, compared);
  }

  /** The summary counts the order ids of the two windows and the diffs, and derives everything else from the two. */
  lemma SummaryReads(env: Env, q: Request, internal: seq<OrderRecord>, venue: seq<OrderRecord>)
    requires ReadsTrimmedText(env) && Reconcile(env, q, internal, venue).Success?
    ensures var r := Reconcile(env, q, internal, venue).value;
            var compared := |set record | record in internal + venue :: record.orderId|;
            && 0 < compared && |r.diffs| <= compared
            && r.summary == Summary(Normalize(q.runId), q.windowStartedAt, q.windowEndedAt, compared, |r.diffs|,
                                    |r.diffs| as real / compared as real, 1000 * |r.diffs| > compared,
                                    if 1000 * |r.diffs| > compared then CriticalHalt else RunSucceeded,
                                    if r.diffs == [] then Matched
                                    else if 1000 * |r.diffs| > compared then CriticalMismatch else NonCriticalMismatch,
                                    q.evaluatedAt, Trim(q.correlationId))
  {
    ReconcileFinds(env, q, internal, venue);
    SummaryNamesRequest(env, q, internal, venue);
    var a, b := NormalizeWindow(env, internal).value, NormalizeWindow(env, venue).value;
    var r := Reconcile(env, q, internal, venue).value;
    var ids :| ComparedIds(a, b, ids) && |ids| > 0 && FindsAmong(env, q, a, b, ids, r);
    AscendingUnique(ids, InOrder(a.Keys + b.Keys));
    ComparedAreIds(env, internal, venue);
    CountsDecide(q, |ids|, |r.diffs|);
  }

  lemma ComparedAreIds(env: Env, internal: seq<OrderRecord>, venue: seq<OrderRecord>)
    requires NormalizeWindow(env, internal).Success? && NormalizeWindow(env, venue).Success?
    ensures NormalizeWindow(env, internal).value.Keys + NormalizeWindow(env, venue).value.Keys
         == set record | record in internal + venue :: record.orderId
  {
    NormalizeWindowIff(env, internal);
    NormalizeWindowIff(env, venue);
    var a, b := NormalizeWindow(env, internal).value, NormalizeWindow(env, venue).value;
    forall id | id in a.Keys + b.Keys ensures exists record :: record in internal + venue && record.orderId == id {
      var record := if id in a then a[id] else b[id];
      assert record in internal + venue;
    }
  }

  /**
   * Rates are taken of a positive number of records, halt above and make ready below one in a thousand, and are refused
   * outside of nought to one.
   */
  lemma RatesRead(mismatches: int, compared: int, rate: real)
    ensures MismatchRate(mismatches, compared) ==
            if compared <= 0 then Failure(WindowUnavailable)
            else if 0 <= mismatches <= compared then Success(mismatches as real / compared as real)
            else Failure(InvalidPayload)
    ensures TriggersHalt(rate) == if 0.0 <= rate <= 1.0 then Success(rate > 0.001) else Failure(InvalidPayload)
    ensures RecoveryReady(rate) == if 0.0 <= rate <= 1.0 then Success(rate < 0.001) else Failure(InvalidPayload)
  {
  }

  /** What the validation of a summary demands of its fields. */
  lemma SummaryAcceptedIff(env: Env, s: Summary)
    ensures ValidSummary(env, s) <==>
            && Trim(s.runId) != "" && Trim(s.correlationId) != ""
            && (forall time :: time in {s.windowStartedAt, s.windowEndedAt, s.evaluatedAt} ==>
                                 Trim(time) != "" && env.instant(time).Some?)
            && s.comparedRecords > 0 && 0 <= s.mismatchCount <= s.comparedRecords
            && 0.0 <= s.mismatchRate <= 1.0
            && -0.000_000_000_001 <= s.mismatchRate - s.mismatchCount as real / s.comparedRecords as real
            && s.mismatchRate - s.mismatchCount as real / s.comparedRecords as real <= 0.000_000_000_001
            && (s.criticalHalt <==> s.mismatchRate > 0.001) && (s.status == CriticalHalt <==> s.mismatchRate > 0.001)
  {
  }
}
