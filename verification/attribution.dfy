/**
 * Cost-aware attribution: observations grouped by market and alpha, summed, described by one representative each, and
 * reported latest first. f64 values are exact reals; every error carries the one invalid-payload code.
 */
module Attribution {
  import opened Wrappers
  import opened Text
  import opened StableSort
  import opened Timestamps

  datatype Period = OneHour | TwentyFourHours | ThirtyDays

  datatype AttributionError = InvalidPayload

  datatype Observation = Observation(
    marketId: string, alphaId: string, periodEnd: string, realized: real, unrealized: real, fees: real, rebates: real,
    incentives: real, asOf: string, source: string, reasonCode: string, correlationId: string,
    snapshotId: Option<string>, runId: Option<string>)

  datatype Scope = Scope(
    marketId: Option<string>, alphaId: Option<string>, period: Period, asOf: string, startInclusive: string,
    endExclusive: string)

  datatype Row = Row(
    marketId: string, alphaId: string, period: string, periodStart: string, periodEnd: string, realized: real,
    unrealized: real,
    gross: real, net: real, fees: real, rebates: real, incentives: real, netCost: real, asOf: string, origin: Origin)

  /** What a row copies from one observation of its group. */
  datatype Origin = Origin(source: string, reasonCode: string, correlationId: string, snapshotId: Option<string>,
                           runId: Option<string>)

  datatype Accumulator = Accumulator(
    realized: real, unrealized: real, fees: real, rebates: real, incentives: real, latest: int, origin: Origin)

  type Key = (string, string)

  /** Outside code: the RFC 3339 UTC reader and writer, in unix nanoseconds. */
  datatype Env = Env(instant: string -> Option<int>, format: int -> string)

  // ---------- validation ----------

  function Moment(env: Env, text: string): Option<int> {
    env.instant(Trim(text))
  }

  predicate OptionalId(value: Option<string>) {
    value.Some? && !Blank(value.value) ==> CanonicalId(Trim(value.value))
  }

  predicate KnownReason(code: string) {
    code in {"attribution_ready", "attribution_empty_window", "attribution_invalid_payload", "attribution_unauthorized",
             "attribution_projection_unavailable", "attribution_stale_source", "attribution_persistence_unavailable"}
  }

  predicate ValidOrigin(o: Origin) {
    && !Blank(o.source) && !Blank(o.reasonCode) && !Blank(o.correlationId)
    && OptionalId(o.snapshotId) && OptionalId(o.runId) && KnownReason(o.reasonCode)
  }

  predicate ValidObservation(env: Env, o: Observation) {
    && CanonicalId(o.marketId) && CanonicalId(o.alphaId) && ValidOrigin(OriginOf(o))
    && Moment(env, o.periodEnd).Some? && Moment(env, o.asOf).Some?
  }

  function PeriodText(p: Period): string {
    match p
    case OneHour => "1h"
    case TwentyFourHours => "24h"
    case ThirtyDays => "30d"
  }

  predicate Within(x: real, y: real) {
    -0.000_000_001 <= x - y <= 0.000_000_001
  }

  /** What the store demands of a row before it keeps it. */
  predicate ValidRow(env: Env, r: Row) {
    && CanonicalId(r.marketId) && CanonicalId(r.alphaId) && ValidOrigin(r.origin)
    && !Blank(r.period) && r.period in {"1h", "24h", "30d"}
    && Moment(env, r.periodStart).Some? && Moment(env, r.periodEnd).Some? && Moment(env, r.asOf).Some?
    && Within(r.gross, r.realized + r.unrealized)
    && Within(r.netCost, r.fees - r.rebates - r.incentives)
    && Within(r.net, r.gross - r.netCost)
  }

  // ---------- the scope ----------

  predicate ValidScope(env: Env, scope: Scope) {
    && Moment(env, scope.startInclusive).Some? && Moment(env, scope.endExclusive).Some?
    && Moment(env, scope.startInclusive).value < Moment(env, scope.endExclusive).value
  }

  function End(env: Env, o: Observation): int {
    if Moment(env, o.periodEnd).Some? then Moment(env, o.periodEnd).value else 0
  }

  function KeyOf(o: Observation): Key {
    (Normalize(o.marketId), Normalize(o.alphaId))
  }

  predicate InScope(env: Env, scope: Scope, o: Observation)
    requires ValidScope(env, scope)
  {
    && (scope.marketId.Some? ==> scope.marketId.value == KeyOf(o).0)
    && (scope.alphaId.Some? ==> scope.alphaId.value == KeyOf(o).1)
    && Moment(env, scope.startInclusive).value <= End(env, o) < Moment(env, scope.endExclusive).value
  }

  function Covered(env: Env, scope: Scope): Observation -> bool
    requires ValidScope(env, scope)
  {
    o => InScope(env, scope, o)
  }

  function Keyed(key: Key): Observation -> bool {
    o => KeyOf(o) == key
  }

  function Group(env: Env, scope: Scope, observations: seq<Observation>, key: Key): seq<Observation>
    requires ValidScope(env, scope)
  {
    Filter(Keyed(key), Filter(Covered(env, scope), observations))
  }

  // ---------- accumulating one group ----------

  function OriginOf(o: Observation): Origin {
    Origin(o.source, o.reasonCode, o.correlationId, o.snapshotId, o.runId)
  }

  function Open(env: Env, o: Observation): Accumulator {
    Accumulator(0.0, 0.0, 0.0, 0.0, 0.0, End(env, o), OriginOf(o))
  }

  function Absorb(env: Env, a: Accumulator, o: Observation): Accumulator {
    var summed :=
      a.(realized := a.realized + o.realized, unrealized := a.unrealized + o.unrealized, fees := a.fees + o.fees,
      rebates := a.rebates + o.rebates, incentives := a.incentives + o.incentives);
    var tieBreak := End(env, o) == a.latest && TextLess(o.correlationId, a.origin.correlationId);
    if End(env, o) > a.latest || tieBreak then summed.(latest := End(env, o), origin := OriginOf(o)) else summed
  }

  predicate TextLess(a: string, b: string) {
    a != b && TextLeq(a, b)
  }

  function Accumulate(env: Env, group: seq<Observation>): Accumulator
    requires group != []
  {
    var last := group[|group| - 1];
    Absorb(env, if |group| == 1 then Open(env, last) else Accumulate(env, group[..|group| - 1]), last)
  }

  function Total(amount: Observation -> real, s: seq<Observation>): real {
    if s == [] then 0.0 else Total(amount, s[..|s| - 1]) + amount(s[|s| - 1])
  }

  function Realized(): Observation -> real { (o: Observation) => o.realized }
  function Unrealized(): Observation -> real { (o: Observation) => o.unrealized }
  function Fees(): Observation -> real { (o: Observation) => o.fees }
  function Rebates(): Observation -> real { (o: Observation) => o.rebates }
  function Incentives(): Observation -> real { (o: Observation) => o.incentives }

  /** The money an observation is worth. */
  function Money(): Observation -> real {
    (o: Observation) => o.realized + o.unrealized - o.fees + o.rebates + o.incentives
  }

  /** o describes the group better than p: it ends later, or as late under a smaller correlation id. */
  predicate Preferred(env: Env, o: Observation, p: Observation) {
    End(env, o) > End(env, p) || (End(env, o) == End(env, p) && TextLess(o.correlationId, p.correlationId))
  }

  /** i is the first of the group's best observations. */
  ghost predicate Representative(env: Env, group: seq<Observation>, i: nat) {
    && i < |group|
    && (forall j :: 0 <= j < |group| ==> !Preferred(env, group[j], group[i]))
    && (forall j :: 0 <= j < i ==> Preferred(env, group[i], group[j]))
  }

  lemma PreferredOrder(env: Env, o: Observation, p: Observation, q: Observation)
    ensures !(Preferred(env, o, p) && Preferred(env, p, o))
    ensures Preferred(env, o, p) && !Preferred(env, q, p) ==> Preferred(env, o, q)
    ensures !Preferred(env, p, o) && Preferred(env, p, q) ==> Preferred(env, o, q)
  {
    TextLeqTotal(o.correlationId, p.correlationId);
    TextLeqTotal(p.correlationId, q.correlationId);
    TextLessOrder(o.correlationId, p.correlationId, q.correlationId);
    TextLessOrder(o.correlationId, q.correlationId, p.correlationId);
  }

  lemma TextLessOrder(a: string, b: string, c: string)
    ensures !(TextLess(a, b) && TextLess(b, a))
    ensures TextLeq(a, b) && TextLeq(b, c) ==> TextLeq(a, c)
    ensures TextLess(a, b) && TextLeq(b, c) ==> TextLess(a, c)
    ensures TextLeq(a, b) && TextLess(b, c) ==> TextLess(a, c)
  {
    if TextLeq(a, b) && TextLeq(b, a) {
      TextLeqAntisymmetric(a, b);
    }
    if TextLeq(a, b) && TextLeq(b, c) {
      TextLeqTransitive(a, b, c);
      if a == c {
        TextLeqAntisymmetric(a, b);
      }
    }
  }

  /**
   * The first best of a longer group is the new last observation, if it is better, and the old first best otherwise.
   */
  lemma RepresentativeExtends(env: Env, init: seq<Observation>, last: Observation, i: nat)
    requires Representative(env, init, i)
    ensures Representative(env, init + [last], if Preferred(env, last, init[i]) then |init| else i)
  {
    var s := init + [last];
    if Preferred(env, last, init[i]) {
      forall j | 0 <= j < |init| ensures Preferred(env, last, s[j]) && !Preferred(env, s[j], last) {
        PreferredOrder(env, last, init[i], s[j]);
        PreferredOrder(env, last, s[j], s[j]);
      }
      PreferredOrder(env, last, last, last);
    }
  }

  lemma RepresentativeUnique(env: Env, group: seq<Observation>, i: nat, j: nat)
    requires Representative(env, group, i) && Representative(env, group, j)
    ensures i == j
  {
    var forward, backward := Preferred(env, group[i], group[j]), Preferred(env, group[j], group[i]);
  }

  ghost predicate Sums(a: Accumulator, group: seq<Observation>) {
    && a.realized == Total(Realized(), group) && a.unrealized == Total(Unrealized(), group)
    && a.fees == Total(Fees(), group)
    && a.rebates == Total(Rebates(), group) && a.incentives == Total(Incentives(), group)
  }

  ghost predicate Describes(env: Env, latest: int, origin: Origin, group: seq<Observation>, i: nat) {
    Representative(env, group, i) && latest == End(env, group[i]) && origin == OriginOf(group[i])
  }

  lemma AbsorbSums(env: Env, a: Accumulator, group: seq<Observation>)
    requires group != [] && Sums(a, group[..|group| - 1])
    ensures Sums(Absorb(env, a, group[|group| - 1]), group)
  {
  }

  lemma AbsorbDescribes(env: Env, a: Accumulator, init: seq<Observation>, last: Observation, i: nat)
    requires Describes(env, a.latest, a.origin, init, i)
    ensures var b := Absorb(env, a, last);
            Describes(env, b.latest, b.origin, init + [last], if Preferred(env, last, init[i]) then |init| else i)
  {
    RepresentativeExtends(env, init, last, i);
  }

  /** The fold adds every amount up and ends describing the first best observation. */
  lemma {:induction false} AccumulateMeans(env: Env, group: seq<Observation>) returns (i: nat)
    requires group != []
    ensures Sums(Accumulate(env, group), group)
    ensures Describes(env, Accumulate(env, group).latest, Accumulate(env, group).origin, group, i)
  {
    var init, last := group[..|group| - 1], group[|group| - 1];
    if |group| == 1 {
      i := 0;
      PreferredOrder(env, last, last, last);
      assert Sums(Open(env, last), init);
      AbsorbSums(env, Open(env, last), group);
    } else {
      var k := AccumulateMeans(env, init);
      AbsorbSums(env, Accumulate(env, init), group);
      AbsorbDescribes(env, Accumulate(env, init), init, last, k);
      assert group == init + [last];
      i := if Preferred(env, last, init[k]) then |init| else k;
    }
  }

  // ---------- the report ----------

  function RowKey(r: Row): Key {
    (r.marketId, r.alphaId)
  }

  function RowOf(env: Env, scope: Scope, key: Key, a: Accumulator): Row {
    var gross := a.realized + a.unrealized;
    var netCost := a.fees - a.rebates - a.incentives;
    Row(key.0, key.1, PeriodText(scope.period), scope.startInclusive, env.format(a.latest), a.realized, a.unrealized,
        gross, gross - netCost, a.fees, a.rebates, a.incentives, netCost, scope.asOf, a.origin)
  }

  /** Latest period end first, by the text of the timestamps; then market, then alpha. */
  function RowOrder(): (Row, Row) -> bool {
    Then(Then(Descending(By((r: Row) => r.periodEnd, TextLeq)), By((r: Row) => r.marketId, TextLeq)),
         By((r: Row) => r.alphaId, TextLeq))
  }

  /** r reports this group: its sums, and the end and origin of its representative. */
  ghost predicate RowFor(env: Env, scope: Scope, group: seq<Observation>, r: Row) {
    && r.realized == Total(Realized(), group) && r.unrealized == Total(Unrealized(), group)
    && r.fees == Total(Fees(), group)
    && r.rebates == Total(Rebates(), group) && r.incentives == Total(Incentives(), group)
    && r.gross == r.realized + r.unrealized && r.netCost == r.fees - r.rebates - r.incentives
    && r.net == Total(Money(), group)
    && r.period == PeriodText(scope.period) && r.periodStart == scope.startInclusive && r.asOf == scope.asOf
    && exists i: nat :: Representative(env, group, i) && r.periodEnd == env.format(End(env, group[i]))
                        && r.origin == OriginOf(group[i])
  }

  /** The report of a scope: one row for each group that has an observation in scope, strictly in row order. */
  ghost predicate Reports(env: Env, scope: Scope, observations: seq<Observation>, rows: seq<Row>)
    requires ValidScope(env, scope)
  {
    && StrictlySorted(RowOrder(), rows)
    && DistinctBy(RowKey, rows)
    && (forall r :: r in rows ==> RowFor(env, scope, Group(env, scope, observations, RowKey(r)), r))
    && (forall key :: Group(env, scope, observations, key) != [] ==> exists r :: r in rows && RowKey(r) == key)
  }

  lemma {:induction false} MoneyTotal(s: seq<Observation>)
    ensures Total(Money(), s)
         == Total(Realized(), s) + Total(Unrealized(), s) - Total(Fees(), s) + Total(Rebates(), s)
            + Total(Incentives(), s)
  {
    if s != [] {
      MoneyTotal(s[..|s| - 1]);
    }
  }

  lemma RowOfReports(env: Env, scope: Scope, key: Key, group: seq<Observation>)
    requires group != []
    ensures RowFor(env, scope, group, RowOf(env, scope, key, Accumulate(env, group)))
  {
    var i := AccumulateMeans(env, group);
    MoneyTotal(group);
  }

  // ---------- the loop ----------

  ghost predicate Grouped(env: Env, scope: Scope, observations: seq<Observation>, groups: map<Key, Accumulator>)
    requires ValidScope(env, scope)
  {
    forall key ::
      && (key in groups <==> Group(env, scope, observations, key) != [])
      && (key in groups ==> groups[key] == Accumulate(env, Group(env, scope, observations, key)))
  }

  lemma GroupAppend(env: Env, scope: Scope, init: seq<Observation>, o: Observation, key: Key)
    requires ValidScope(env, scope)
    ensures Group(env, scope, init + [o], key)
         == Group(env, scope, init, key) + if InScope(env, scope, o) && KeyOf(o) == key then [o] else []
  {
    FilterAppend(Covered(env, scope), init, [o]);
    var more := Filter(Covered(env, scope), [o]);
    assert more == if InScope(env, scope, o) then [o] else [];
    FilterAppend(Keyed(key), Filter(Covered(env, scope), init), more);
  }

  lemma GroupedSkips(env: Env, scope: Scope, init: seq<Observation>, o: Observation, groups: map<Key, Accumulator>)
    requires ValidScope(env, scope) && Grouped(env, scope, init, groups) && !InScope(env, scope, o)
    ensures Grouped(env, scope, init + [o], groups)
  {
    forall key ensures Group(env, scope, init + [o], key) == Group(env, scope, init, key) {
      GroupAppend(env, scope, init, o, key);
    }
  }

  lemma GroupedAbsorbs(env: Env, scope: Scope, init: seq<Observation>, o: Observation, groups: map<Key, Accumulator>)
    requires ValidScope(env, scope) && Grouped(env, scope, init, groups) && InScope(env, scope, o)
    ensures Grouped(env, scope, init + [o], groups[KeyOf(o) := Absorb(env, ItemFor(env, groups, o), o)])
  {
    var next := groups[KeyOf(o) := Absorb(env, ItemFor(env, groups, o), o)];
    forall key
      ensures key in next <==> Group(env, scope, init + [o], key) != []
      ensures key in next ==> next[key] == Accumulate(env, Group(env, scope, init + [o], key))
    {
      var group := Group(env, scope, init, key);
      GroupAppend(env, scope, init, o, key);
      if key == KeyOf(o) {
        AccumulateAppend(env, group, o);
        assert Group(env, scope, init + [o], key) == group + [o];
      } else {
        assert Group(env, scope, init + [o], key) == group;
      }
    }
  }

  /** entry(key).or_insert_with(..) */
  function ItemFor(env: Env, groups: map<Key, Accumulator>, o: Observation): Accumulator {
    if KeyOf(o) in groups then groups[KeyOf(o)] else Open(env, o)
  }

  lemma AccumulateAppend(env: Env, group: seq<Observation>, o: Observation)
    ensures Accumulate(env, group + [o]) == Absorb(env, if group == [] then Open(env, o) else Accumulate(env, group), o)
  {
    assert (group + [o])[..|group|] == group;
  }

  /** rows are the rows of these keys, one each. */
  ghost predicate RowsOf(env: Env, scope: Scope, groups: map<Key, Accumulator>, keys: set<Key>, rows: seq<Row>)
    requires keys <= groups.Keys
  {
    && DistinctBy(RowKey, rows)
    && (forall r :: r in rows ==> RowKey(r) in keys && r == RowOf(env, scope, RowKey(r), groups[RowKey(r)]))
    && (forall key :: key in keys ==> exists r :: r in rows && RowKey(r) == key)
  }

  lemma RowsOfAppend(env: Env, scope: Scope, groups: map<Key, Accumulator>, keys: set<Key>, rows: seq<Row>, key: Key)
    requires keys <= groups.Keys && RowsOf(env, scope, groups, keys, rows) && key in groups && key !in keys
    ensures RowsOf(env, scope, groups, keys + {key}, rows + [RowOf(env, scope, key, groups[key])])
  {
    var row := RowOf(env, scope, key, groups[key]);
    forall i | 0 <= i < |rows| ensures RowKey(rows[i]) != RowKey(row) {
      assert rows[i] in rows;
    }
    forall k | k in keys + {key} ensures exists r :: r in rows + [row] && RowKey(r) == k {
      if k == key {
        assert row in rows + [row];
      } else {
        var r :| r in rows && RowKey(r) == k;
        assert r in rows + [row];
      }
    }
  }

  lemma RowOrderTotal()
    ensures TotalPreorder(RowOrder())
  {
    var end, market, alpha := (r: Row) => r.periodEnd, (r: Row) => r.marketId, (r: Row) => r.alphaId;
    TextLeqOrder();
    ByTotal(end, TextLeq);
    DescendingTotal(By(end, TextLeq));
    ByTotal(market, TextLeq);
    ThenTotal(Descending(By(end, TextLeq)), By(market, TextLeq));
    ByTotal(alpha, TextLeq);
    ThenTotal(Then(Descending(By(end, TextLeq)), By(market, TextLeq)), By(alpha, TextLeq));
  }

  lemma RowOrderTies(r: Row, s: Row)
    requires RowOrder()(r, s) && RowOrder()(s, r)
    ensures RowKey(r) == RowKey(s)
  {
    TextLeqAntisymmetric(r.marketId, s.marketId);
    TextLeqAntisymmetric(r.alphaId, s.alphaId);
  }

  lemma SortedRowsReport(env: Env, scope: Scope, observations: seq<Observation>, groups: map<Key, Accumulator>,
                         rows: seq<Row>)
    requires ValidScope(env, scope) && Grouped(env, scope, observations, groups)
             && RowsOf(env, scope, groups, groups.Keys, rows)
    ensures Reports(env, scope, observations, Sort(RowOrder(), rows))
  {
    var sorted := Sort(RowOrder(), rows);
    RowOrderTotal();
    SortSorted(RowOrder(), rows);
    SortContents(RowOrder(), rows);
    DistinctPermutes(RowKey, rows, sorted);
    forall i, j | 0 <= i < j < |sorted| ensures !RowOrder()(sorted[j], sorted[i]) {
      if RowOrder()(sorted[j], sorted[i]) {
        RowOrderTies(sorted[i], sorted[j]);
      }
    }
    forall r | r in sorted ensures RowFor(env, scope, Group(env, scope, observations, RowKey(r)), r) {
      RowOfReports(env, scope, RowKey(r), Group(env, scope, observations, RowKey(r)));
    }
  }

  /** The source walks its groups in key order; any order gives the same report (ReportUnique). */
  method CollectRows(env: Env, scope: Scope, groups: map<Key, Accumulator>) returns (rows: seq<Row>)
    ensures RowsOf(env, scope, groups, groups.Keys, rows)
  {
    rows := [];
    var left := groups.Keys;
    while left != {}
      invariant left <= groups.Keys && RowsOf(env, scope, groups, groups.Keys - left, rows)
      decreases |left|
    {
      var key :| key in left;
      RowsOfAppend(env, scope, groups, groups.Keys - left, rows, key);
      assert groups.Keys - (left - {key}) == groups.Keys - left + {key};
      rows := rows + [RowOf(env, scope, key, groups[key])];
      left := left - {key};
    }
    assert groups.Keys - left == groups.Keys;
  }

  method BuildCostAwareAttributionRows(env: Env, observations: seq<Observation>, scope: Scope)
    returns (r: Result<seq<Row>, AttributionError>)
    ensures r.Success? <==> ValidScope(env, scope) && forall o :: o in observations ==> ValidObservation(env, o)
    ensures r.Success? ==> Reports(env, scope, observations, r.value)
  {
    if !ValidScope(env, scope) {
      return Failure(InvalidPayload);
    }
    var start, end := Moment(env, scope.startInclusive).value, Moment(env, scope.endExclusive).value;
    var groups: map<Key, Accumulator> := map[];
    for i := 0 to |observations|
      invariant forall o :: o in observations[..i] ==> ValidObservation(env, o)
      invariant Grouped(env, scope, observations[..i], groups)
    {
      var o := observations[i];
      assert observations[..i + 1] == observations[..i] + [o];
      if !ValidObservation(env, o) {
        return Failure(InvalidPayload);
      }
      var key := KeyOf(o);
      var periodEnd := End(env, o);
      if (scope.marketId.Some? && scope.marketId.value != key.0)
         || (scope.alphaId.Some? && scope.alphaId.value != key.1)
         || periodEnd < start || periodEnd >= end {
        GroupedSkips(env, scope, observations[..i], o, groups);
        continue;
      }
      GroupedAbsorbs(env, scope, observations[..i], o, groups);
      groups := groups[key := Absorb(env, ItemFor(env, groups, o), o)];
    }
    assert observations[..|observations|] == observations;

    var rows := CollectRows(env, scope, groups);
    SortedRowsReport(env, scope, observations, groups, rows);
    return Success(Sort(RowOrder(), rows));
  }

  // ---------- the report is determined by the observations ----------

  lemma RowUnique(env: Env, scope: Scope, group: seq<Observation>, r: Row, s: Row)
    requires RowFor(env, scope, group, r) && RowFor(env, scope, group, s) && RowKey(r) == RowKey(s)
    ensures r == s
  {
    var i: nat :| Representative(env, group, i) && r.periodEnd == env.format(End(env, group[i]))
                  && r.origin == OriginOf(group[i]);
    var j: nat :| Representative(env, group, j) && s.periodEnd == env.format(End(env, group[j]))
                  && s.origin == OriginOf(group[j]);
    RepresentativeUnique(env, group, i, j);
    NetFollows(r, group);
    NetFollows(s, group);
  }

  lemma NetFollows(r: Row, group: seq<Observation>)
    requires r.realized == Total(Realized(), group) && r.unrealized == Total(Unrealized(), group)
             && r.fees == Total(Fees(), group)
    requires r.rebates == Total(Rebates(), group) && r.incentives == Total(Incentives(), group)
             && r.net == Total(Money(), group)
    ensures r.net == r.realized + r.unrealized - r.fees + r.rebates + r.incentives
  {
    MoneyTotal(group);
  }

  /** A row belongs to a group with an observation in it. */
  lemma RowHasGroup(env: Env, scope: Scope, group: seq<Observation>, r: Row)
    requires RowFor(env, scope, group, r)
    ensures group != []
  {
  }

  lemma ReportIncluded(env: Env, scope: Scope, observations: seq<Observation>, rows: seq<Row>, rows': seq<Row>, r: Row)
    requires ValidScope(env, scope) && Reports(env, scope, observations, rows)
             && Reports(env, scope, observations, rows') && r in rows
    ensures r in rows'
  {
    RowHasGroup(env, scope, Group(env, scope, observations, RowKey(r)), r);
    var s :| s in rows' && RowKey(s) == RowKey(r);
    RowUnique(env, scope, Group(env, scope, observations, RowKey(r)), r, s);
  }

  /** There is one report. */
  lemma ReportUnique(env: Env, scope: Scope, observations: seq<Observation>, rows: seq<Row>, rows': seq<Row>)
    requires ValidScope(env, scope) && Reports(env, scope, observations, rows)
             && Reports(env, scope, observations, rows')
    ensures rows == rows'
  {
    forall r ensures r in rows <==> r in rows' {
      if r in rows {
        ReportIncluded(env, scope, observations, rows, rows', r);
      }
      if r in rows' {
        ReportIncluded(env, scope, observations, rows', rows, r);
      }
    }
    StrictlySortedUnique(RowOrder(), rows, rows');
  }

  // ---------- when latest text first is latest first in time ----------

  /** RFC 3339 text has four-digit years, and the writer composes it. */
  ghost predicate WritesRfc3339(env: Env) {
    && (forall s :: env.instant(s).Some? ==> InRange(env.instant(s).value))
    && (forall instant :: InRange(instant) ==> env.format(instant) == TimestampText(instant))
  }

  /** The latest period end of some observations. */
  function LatestEnd(env: Env, group: seq<Observation>): int
    requires group != []
  {
    var last := End(env, group[|group| - 1]);
    if |group| == 1 then last
    else
      var earlier := LatestEnd(env, group[..|group| - 1]);
      if last > earlier then last else earlier
  }

  lemma {:induction false} LatestEndIsLatest(env: Env, group: seq<Observation>) returns (i: nat)
    requires group != []
    ensures i < |group| && End(env, group[i]) == LatestEnd(env, group)
    ensures forall j :: 0 <= j < |group| ==> End(env, group[j]) <= LatestEnd(env, group)
  {
    i := |group| - 1;
    if |group| > 1 {
      var k := LatestEndIsLatest(env, group[..i]);
      if End(env, group[i]) <= LatestEnd(env, group[..i]) {
        i := k;
      }
    }
  }

  /** The period end a row reports: the latest of its group. */
  function EndOf(env: Env, scope: Scope, observations: seq<Observation>, r: Row): int
    requires ValidScope(env, scope)
  {
    var group := Group(env, scope, observations, RowKey(r));
    if group == [] then 0 else LatestEnd(env, group)
  }

  ghost function Ends(env: Env, scope: Scope, observations: seq<Observation>, rows: seq<Row>): (ends: seq<int>)
    requires ValidScope(env, scope)
    ensures |ends| == |rows| && forall i :: 0 <= i < |rows| ==> ends[i] == EndOf(env, scope, observations, rows[i])
  {
    seq(|rows|, i requires 0 <= i < |rows| => EndOf(env, scope, observations, rows[i]))
  }

  lemma RepresentativeIsLatest(env: Env, group: seq<Observation>, i: nat)
    requires Representative(env, group, i)
    ensures LatestEnd(env, group) == End(env, group[i])
  {
    var j := LatestEndIsLatest(env, group);
    assert !Preferred(env, group[j], group[i]);
  }

  lemma RowEnd(env: Env, scope: Scope, observations: seq<Observation>, rows: seq<Row>, r: Row)
    requires ValidScope(env, scope) && Reports(env, scope, observations, rows) && r in rows
    ensures Group(env, scope, observations, RowKey(r)) != []
    ensures r.periodEnd == env.format(EndOf(env, scope, observations, r))
  {
    var group := Group(env, scope, observations, RowKey(r));
    RowHasGroup(env, scope, group, r);
    var i: nat :| Representative(env, group, i) && r.periodEnd == env.format(End(env, group[i]))
                  && r.origin == OriginOf(group[i]);
    RepresentativeIsLatest(env, group, i);
  }

  /** An end that was read has a text in range. */
  lemma EndInRange(env: Env, scope: Scope, observations: seq<Observation>, key: Key)
    requires ValidScope(env, scope) && WritesRfc3339(env) && Group(env, scope, observations, key) != []
    requires forall o :: o in observations ==> ValidObservation(env, o)
    ensures InRange(LatestEnd(env, Group(env, scope, observations, key)))
  {
    var i := LatestEndIsLatest(env, Group(env, scope, observations, key));
    var o := Group(env, scope, observations, key)[i];
    GroupedIsObserved(env, scope, observations, key, o);
    ReadEndInRange(env, o);
  }

  lemma GroupedIsObserved(env: Env, scope: Scope, observations: seq<Observation>, key: Key, o: Observation)
    requires ValidScope(env, scope) && o in Group(env, scope, observations, key)
    ensures o in observations && InScope(env, scope, o)
  {
    assert o in Filter(Covered(env, scope), observations);
  }

  lemma ReadEndInRange(env: Env, o: Observation)
    requires ValidObservation(env, o) && WritesRfc3339(env)
    ensures InRange(End(env, o))
  {
    assert env.instant(Trim(o.periodEnd)) == Some(End(env, o));
  }

  /** Two groups in scope whose latest ends clash. */
  ghost predicate EndsClash(env: Env, scope: Scope, observations: seq<Observation>, x: Key, y: Key)
    requires ValidScope(env, scope)
  {
    var g, h := Group(env, scope, observations, x), Group(env, scope, observations, y);
    g != [] && h != [] && Clash(LatestEnd(env, g), LatestEnd(env, h))
  }

  ghost predicate NoEndsClash(env: Env, scope: Scope, observations: seq<Observation>)
    requires ValidScope(env, scope)
  {
    forall x, y :: !EndsClash(env, scope, observations, x, y)
  }

  /**
   * The rows are latest first in time exactly when no two groups in scope end in one second with the fraction digits
   * of the earlier end the first digits of the later one's.
   */
  lemma ReportLatestFirstIff(env: Env, scope: Scope, observations: seq<Observation>, rows: seq<Row>)
    requires ValidScope(env, scope) && Reports(env, scope, observations, rows) && WritesRfc3339(env)
    requires forall o :: o in observations ==> ValidObservation(env, o)
    ensures LatestFirst(Ends(env, scope, observations, rows)) <==> NoEndsClash(env, scope, observations)
  {
    var ends := Ends(env, scope, observations, rows);
    forall i, j | 0 <= i < j < |ends| ensures InTurn(Clash, ends[i], ends[j]) {
      RowsInTurn(env, scope, observations, rows, i, j);
    }
    LatestFirstInTurnIff(Clash, ends);
    if NoEndsClash(env, scope, observations) {
      forall i, j | 0 <= i < |ends| && 0 <= j < |ends| ensures !Clash(ends[i], ends[j]) {
        RowEnd(env, scope, observations, rows, rows[i]);
        RowEnd(env, scope, observations, rows, rows[j]);
        assert !EndsClash(env, scope, observations, RowKey(rows[i]), RowKey(rows[j]));
      }
    } else {
      var x, y :| EndsClash(env, scope, observations, x, y);
      var i := RowOfKey(env, scope, observations, rows, x);
      var j := RowOfKey(env, scope, observations, rows, y);
      assert Clash(ends[i], ends[j]);
    }
  }

  /** Of two rows in turn, the second ends later only if their ends clash; and they never clash the other way round. */
  predicate InTurn(clash: (int, int) -> bool, e: int, f: int) {
    (e < f ==> clash(e, f)) && !clash(f, e)
  }

  lemma LatestFirstInTurnIff(clash: (int, int) -> bool, ends: seq<int>)
    requires forall i, j :: 0 <= i < j < |ends| ==> InTurn(clash, ends[i], ends[j])
    requires forall e, f :: clash(e, f) ==> e < f
    ensures LatestFirst(ends) <==> forall i, j :: 0 <= i < |ends| && 0 <= j < |ends| ==> !clash(ends[i], ends[j])
  {
    forall i, j | LatestFirst(ends) && 0 <= i < |ends| && 0 <= j < |ends| ensures !clash(ends[i], ends[j]) {
      assert j < i ==> InTurn(clash, ends[j], ends[i]);
    }
    forall i, j | 0 <= i < j < |ends| && !clash(ends[i], ends[j]) ensures ends[i] >= ends[j] {
      assert InTurn(clash, ends[i], ends[j]);
    }
  }

  lemma RowsInTurn(env: Env, scope: Scope, observations: seq<Observation>, rows: seq<Row>, i: nat, j: nat)
    requires ValidScope(env, scope) && Reports(env, scope, observations, rows) && WritesRfc3339(env)
    requires forall o :: o in observations ==> ValidObservation(env, o)
    requires i < j < |rows|
    ensures InTurn(Clash, EndOf(env, scope, observations, rows[i]), EndOf(env, scope, observations, rows[j]))
  {
    var r, q := rows[i], rows[j];
    RowEnd(env, scope, observations, rows, r);
    RowEnd(env, scope, observations, rows, q);
    EndInRange(env, scope, observations, RowKey(r));
    EndInRange(env, scope, observations, RowKey(q));
    var e, f := EndOf(env, scope, observations, r), EndOf(env, scope, observations, q);
    LaterTextFirst(r, q);
    assert TextLeq(TimestampText(f), TimestampText(e)) by {
      RowOrderTotal();
      assert RowOrder()(r, q);
    }
    if e < f {
      TextOrder(e, f);
    } else if f < e {
      TextOrder(f, e);
    }
  }

  lemma RowOfKey(env: Env, scope: Scope, observations: seq<Observation>, rows: seq<Row>, key: Key) returns (i: nat)
    requires ValidScope(env, scope) && Reports(env, scope, observations, rows)
    requires Group(env, scope, observations, key) != []
    ensures i < |rows|
    ensures EndOf(env, scope, observations, rows[i]) == LatestEnd(env, Group(env, scope, observations, key))
  {
    var r :| r in rows && RowKey(r) == key;
    i :| 0 <= i < |rows| && rows[i] == r;
  }

  lemma LaterTextFirst(r: Row, s: Row)
    ensures RowOrder()(r, s) ==> TextLeq(s.periodEnd, r.periodEnd)
  {
  }

  /** Of two rows, the one that ends earlier comes first when its text is the greater. */
  lemma GreaterTextFirst(env: Env, scope: Scope, o: Observation, p: Observation, rows: seq<Row>)
    requires ValidScope(env, scope) && InScope(env, scope, o) && InScope(env, scope, p) && KeyOf(o) != KeyOf(p)
    requires End(env, o) < End(env, p) && !TextLeq(env.format(End(env, o)), env.format(End(env, p)))
    requires Reports(env, scope, [o, p], rows)
    ensures |rows| == 2 && Ends(env, scope, [o, p], rows) == [End(env, o), End(env, p)]
    ensures !LatestFirst(Ends(env, scope, [o, p], rows))
  {
    var r, q := RowsOfPair(env, scope, o, p, rows);
    LaterTextFirst(q, r);
    TwoRows(rows, r, q);
  }

  /** So it happens: of two rows half a second apart, the older ending on a whole second, the older comes first. */
  lemma HalfSecondReportsOlderFirst(env: Env, scope: Scope, o: Observation, p: Observation, rows: seq<Row>)
    requires ValidScope(env, scope) && InScope(env, scope, o) && InScope(env, scope, p) && KeyOf(o) != KeyOf(p)
    requires ValidObservation(env, o) && ValidObservation(env, p) && WritesRfc3339(env)
    requires End(env, o) % NANOS == 0 && End(env, p) == End(env, o) + NANOS / 2
    requires Reports(env, scope, [o, p], rows)
    ensures |rows| == 2 && Ends(env, scope, [o, p], rows) == [End(env, o), End(env, p)]
    ensures !LatestFirst(Ends(env, scope, [o, p], rows))
  {
    WholeSecondClashes(End(env, o), End(env, p));
    ReadEndInRange(env, o);
    ReadEndInRange(env, p);
    TextOrder(End(env, o), End(env, p));
    GreaterTextFirst(env, scope, o, p, rows);
  }

  /** The report of two observations of different groups has their two rows. */
  lemma RowsOfPair(env: Env, scope: Scope, o: Observation, p: Observation, rows: seq<Row>) returns (r: Row, q: Row)
    requires ValidScope(env, scope) && InScope(env, scope, o) && InScope(env, scope, p) && KeyOf(o) != KeyOf(p)
    requires Reports(env, scope, [o, p], rows)
    ensures r in rows && q in rows && r != q && forall x :: x in rows ==> x == r || x == q
    ensures r.periodEnd == env.format(End(env, o)) && EndOf(env, scope, [o, p], r) == End(env, o)
    ensures q.periodEnd == env.format(End(env, p)) && EndOf(env, scope, [o, p], q) == End(env, p)
  {
    r := RowOfOne(env, scope, [o, p], o, rows) by { PairGroups(env, scope, o, p, KeyOf(o)); }
    q := RowOfOne(env, scope, [o, p], p, rows) by { PairGroups(env, scope, o, p, KeyOf(p)); }
    forall x | x in rows ensures x == r || x == q {
      RowHasGroup(env, scope, Group(env, scope, [o, p], RowKey(x)), x);
      PairGroups(env, scope, o, p, RowKey(x));
      SameKeySameRow(rows, x, if RowKey(x) == KeyOf(o) then r else q);
    }
  }

  lemma RowOfOne(env: Env, scope: Scope, observations: seq<Observation>, o: Observation, rows: seq<Row>)
    returns (r: Row)
    requires ValidScope(env, scope) && Reports(env, scope, observations, rows)
             && Group(env, scope, observations, KeyOf(o)) == [o]
    ensures r in rows && RowKey(r) == KeyOf(o)
    ensures r.periodEnd == env.format(End(env, o)) && EndOf(env, scope, observations, r) == End(env, o)
  {
    r :| r in rows && RowKey(r) == KeyOf(o);
    RowEnd(env, scope, observations, rows, r);
    assert EndOf(env, scope, observations, r) == LatestEnd(env, [o]) == End(env, o);
  }

  lemma PairGroups(env: Env, scope: Scope, o: Observation, p: Observation, key: Key)
    requires ValidScope(env, scope) && InScope(env, scope, o) && InScope(env, scope, p) && KeyOf(o) != KeyOf(p)
    ensures Group(env, scope, [o, p], key) == if key == KeyOf(o) then [o] else if key == KeyOf(p) then [p] else []
  {
    GroupAppend(env, scope, [], o, key);
    GroupAppend(env, scope, [o], p, key);
    assert [] + [o] == [o] && [o] + [p] == [o, p];
  }

  lemma SameKeySameRow(rows: seq<Row>, x: Row, r: Row)
    requires DistinctBy(RowKey, rows) && x in rows && r in rows && RowKey(x) == RowKey(r)
    ensures x == r
  {
    var i :| 0 <= i < |rows| && rows[i] == x;
    var j :| 0 <= j < |rows| && rows[j] == r;
  }

  lemma TwoRows(rows: seq<Row>, r: Row, q: Row)
    requires StrictlySorted(RowOrder(), rows) && r in rows && q in rows && !RowOrder()(q, r)
    requires forall x :: x in rows ==> x == r || x == q
    ensures rows == [r, q]
  {
    RowOrderTotal();
    StrictlySortedUnique(RowOrder(), rows, [r, q]);
  }

  // ---------- money is conserved ----------

  lemma {:induction false} TotalAppend(amount: Observation -> real, s: seq<Observation>, t: seq<Observation>)
    ensures Total(amount, s + t) == Total(amount, s) + Total(amount, t)
  {
    if t == [] {
      assert s + t == s;
    } else {
      assert (s + t)[..|s + t| - 1] == s + t[..|t| - 1];
      TotalAppend(amount, s, t[..|t| - 1]);
    }
  }

  function NetSum(rows: seq<Row>): real {
    if rows == [] then 0.0 else rows[0].net + NetSum(rows[1..])
  }

  function KeyedIn(rows: seq<Row>): Observation -> bool {
    (o: Observation) => exists r :: r in rows && RowKey(r) == KeyOf(o)
  }

  /** Totals over two exclusive classes add up. */
  lemma {:induction false} TotalSplits(amount: Observation -> real, p: Observation -> bool, q: Observation -> bool,
                                       both: Observation -> bool, s: seq<Observation>)
    requires forall o :: both(o) <==> p(o) || q(o)
    requires forall o :: !(p(o) && q(o))
    ensures Total(amount, Filter(both, s)) == Total(amount, Filter(p, s)) + Total(amount, Filter(q, s))
  {
    if s != [] {
      TotalSplits(amount, p, q, both, s[1..]);
      TotalAppend(amount, if both(s[0]) then [s[0]] else [], Filter(both, s[1..]));
      TotalAppend(amount, if p(s[0]) then [s[0]] else [], Filter(p, s[1..]));
      TotalAppend(amount, if q(s[0]) then [s[0]] else [], Filter(q, s[1..]));
    }
  }

  lemma KeyedInSplits(rows: seq<Row>, o: Observation)
    requires rows != [] && DistinctBy(RowKey, rows)
    ensures KeyedIn(rows)(o) <==> Keyed(RowKey(rows[0]))(o) || KeyedIn(rows[1..])(o)
    ensures !(Keyed(RowKey(rows[0]))(o) && KeyedIn(rows[1..])(o))
  {
    if KeyedIn(rows)(o) {
      var r :| r in rows && RowKey(r) == KeyOf(o);
      assert r == rows[0] || r in rows[1..];
    }
    if KeyedIn(rows[1..])(o) {
      var r :| r in rows[1..] && RowKey(r) == KeyOf(o);
      assert r in rows;
    }
    assert rows[0] in rows;
  }

  /** Rows of distinct groups add up to what the observations of those groups are worth. */
  lemma {:induction false} RowsSum(rows: seq<Row>, covered: seq<Observation>)
    requires DistinctBy(RowKey, rows)
    requires forall r :: r in rows ==> r.net == Total(Money(), Filter(Keyed(RowKey(r)), covered))
    ensures NetSum(rows) == Total(Money(), Filter(KeyedIn(rows), covered))
  {
    if rows == [] {
      var kept := Filter(KeyedIn(rows), covered);
      assert kept != [] ==> kept[0] in kept && KeyedIn(rows)(kept[0]);
    } else {
      assert rows[0] in rows;
      RowsSum(rows[1..], covered);
      var first, rest, all := Keyed(RowKey(rows[0])), KeyedIn(rows[1..]), KeyedIn(rows);
      forall o ensures (all(o) <==> first(o) || rest(o)) && !(first(o) && rest(o)) {
        KeyedInSplits(rows, o);
      }
      TotalSplits(Money(), first, rest, all, covered);
    }
  }

  /** The report's net P&L is the worth of exactly the observations in scope. */
  lemma ReportConservesMoney(env: Env, scope: Scope, observations: seq<Observation>, rows: seq<Row>)
    requires ValidScope(env, scope) && Reports(env, scope, observations, rows)
    ensures NetSum(rows) == Total(Money(), Filter(Covered(env, scope), observations))
  {
    var covered := Filter(Covered(env, scope), observations);
    RowsSum(rows, covered);
    forall o | o in covered ensures KeyedIn(rows)(o) {
      assert o in Group(env, scope, observations, KeyOf(o));
    }
    FilterAll(KeyedIn(rows), covered);
  }

  lemma {:induction false} FilterAll(keep: Observation -> bool, s: seq<Observation>)
    requires forall o :: o in s ==> keep(o)
    ensures Filter(keep, s) == s
  {
    if s != [] {
      FilterAll(keep, s[1..]);
      assert s == [s[0]] + s[1..];
    }
  }

  // ---------- permuting the observations ----------

  lemma {:induction false} TotalPermutes(amount: Observation -> real, s: seq<Observation>, t: seq<Observation>)
    requires multiset(s) == multiset(t)
    ensures Total(amount, s) == Total(amount, t)
  {
    SameContents(s, t);
    if s != [] {
      var init, last := s[..|s| - 1], s[|s| - 1];
      assert last in t;
      var k :| 0 <= k < |t| && t[k] == last;
      assert t == t[..k] + [last] + t[k + 1..];
      RemoveShared(s, t, k);
      TotalPermutes(amount, init, t[..k] + t[k + 1..]);
      TotalAppend(amount, t[..k], t[k + 1..]);
      TotalAppend(amount, t[..k] + [last], t[k + 1..]);
      TotalAppend(amount, t[..k], [last]);
      assert Total(amount, [last]) == amount(last) by {
        assert [last][..0] == [];
      }
    }
  }

  /** No observation of the group is preferred to o. */
  ghost predicate Best(env: Env, group: seq<Observation>, o: Observation) {
    o in group && forall p :: p in group ==> !Preferred(env, p, o)
  }

  /** The best observations of each group, which tie on period end and correlation id, carry one origin. */
  ghost predicate BestAgree(env: Env, scope: Scope, observations: seq<Observation>)
    requires ValidScope(env, scope)
  {
    forall key, o, p :: Best(env, Group(env, scope, observations, key), o)
                        && Best(env, Group(env, scope, observations, key), p)
                        ==> OriginOf(o) == OriginOf(p)
  }

  lemma GroupPermutes(env: Env, scope: Scope, s: seq<Observation>, t: seq<Observation>, key: Key)
    requires ValidScope(env, scope) && multiset(s) == multiset(t)
    ensures multiset(Group(env, scope, s, key)) == multiset(Group(env, scope, t, key))
  {
    FilterPermutes(Covered(env, scope), s, t);
    FilterPermutes(Keyed(key), Filter(Covered(env, scope), s), Filter(Covered(env, scope), t));
  }

  /** Two best observations of the same group tie. */
  lemma BestTie(env: Env, o: Observation, p: Observation)
    requires !Preferred(env, o, p) && !Preferred(env, p, o)
    ensures End(env, o) == End(env, p) && o.correlationId == p.correlationId
  {
    TextLeqTotal(o.correlationId, p.correlationId);
  }

  lemma RowPermutes(env: Env, scope: Scope, group: seq<Observation>, group': seq<Observation>, r: Row)
    requires multiset(group) == multiset(group') && RowFor(env, scope, group, r)
    requires forall o, p :: Best(env, group, o) && Best(env, group, p) ==> OriginOf(o) == OriginOf(p)
    ensures RowFor(env, scope, group', r)
  {
    SameContents(group, group');
    RowHasGroup(env, scope, group, r);
    var i: nat :| Representative(env, group, i) && r.periodEnd == env.format(End(env, group[i]))
                  && r.origin == OriginOf(group[i]);
    var j := AccumulateMeans(env, group');
    assert Best(env, group, group[i]) && Best(env, group, group'[j]);
    BestTie(env, group[i], group'[j]);
    TotalPermutes(Realized(), group, group');
    TotalPermutes(Unrealized(), group, group');
    TotalPermutes(Fees(), group, group');
    TotalPermutes(Rebates(), group, group');
    TotalPermutes(Incentives(), group, group');
    TotalPermutes(Money(), group, group');
  }

  lemma ReportPermutes(env: Env, scope: Scope, s: seq<Observation>, t: seq<Observation>, rows: seq<Row>)
    requires ValidScope(env, scope) && multiset(s) == multiset(t) && BestAgree(env, scope, s)
    requires Reports(env, scope, s, rows)
    ensures Reports(env, scope, t, rows)
  {
    forall r | r in rows ensures RowFor(env, scope, Group(env, scope, t, RowKey(r)), r) {
      GroupPermutes(env, scope, s, t, RowKey(r));
      RowPermutes(env, scope, Group(env, scope, s, RowKey(r)), Group(env, scope, t, RowKey(r)), r);
    }
    forall key | Group(env, scope, t, key) != [] ensures exists r :: r in rows && RowKey(r) == key {
      GroupPermutes(env, scope, s, t, key);
      SameContents(Group(env, scope, s, key), Group(env, scope, t, key));
    }
  }

  /** Every order of the observations gives the same report. */
  ghost predicate OrderFree(env: Env, scope: Scope, observations: seq<Observation>)
    requires ValidScope(env, scope)
  {
    forall other, rows :: multiset(other) == multiset(observations) && Reports(env, scope, observations, rows)
                          ==> Reports(env, scope, other, rows)
  }

  /**
   * The order of the observations does not matter exactly when the best observations of each group carry one origin.
   */
  lemma OrderFreeIffBestAgree(env: Env, scope: Scope, observations: seq<Observation>)
    requires ValidScope(env, scope)
    ensures OrderFree(env, scope, observations) <==> BestAgree(env, scope, observations)
  {
    if BestAgree(env, scope, observations) {
      forall other, rows | multiset(other) == multiset(observations) && Reports(env, scope, observations, rows)
        ensures Reports(env, scope, other, rows)
      {
        ReportPermutes(env, scope, observations, other, rows);
      }
    }
    if OrderFree(env, scope, observations) {
      var rows := ReportExists(env, scope, observations);
      forall key, o, p | Best(env, Group(env, scope, observations, key), o)
                         && Best(env, Group(env, scope, observations, key), p)
        ensures OriginOf(o) == OriginOf(p)
      {
        BestFirstDescribes(env, scope, observations, key, o, rows);
        BestFirstDescribes(env, scope, observations, key, p, rows);
        var r :| r in rows && RowKey(r) == key;
        assert r.origin == OriginOf(o) && r.origin == OriginOf(p);
      }
    }
  }

  /** A best observation brought to the front represents its group. */
  lemma BringForward(env: Env, scope: Scope, observations: seq<Observation>, key: Key, o: Observation)
    returns (fronted: seq<Observation>)
    requires ValidScope(env, scope) && Best(env, Group(env, scope, observations, key), o)
    ensures multiset(fronted) == multiset(observations)
    ensures Representative(env, Group(env, scope, fronted, key), 0) && Group(env, scope, fronted, key)[0] == o
  {
    var k :| 0 <= k < |observations| && observations[k] == o;
    var rest := observations[..k] + observations[k + 1..];
    TakeOut(observations, k);
    fronted := [o] + rest;
    assert multiset(fronted) == multiset(observations);
    GroupPermutes(env, scope, observations, fronted, key);
    SameContents(Group(env, scope, observations, key), Group(env, scope, fronted, key));
    FrontedGroup(env, scope, o, rest, key);
  }

  lemma FrontedGroup(env: Env, scope: Scope, o: Observation, rest: seq<Observation>, key: Key)
    requires ValidScope(env, scope) && InScope(env, scope, o) && KeyOf(o) == key
    ensures Group(env, scope, [o] + rest, key) == [o] + Group(env, scope, rest, key)
  {
    FilterAppend(Covered(env, scope), [o], rest);
    FilterAppend(Keyed(key), [o], Filter(Covered(env, scope), rest));
    assert Filter(Covered(env, scope), [o]) == [o] && Filter(Keyed(key), [o]) == [o];
  }

  lemma FirstRepresents(env: Env, scope: Scope, group: seq<Observation>, r: Row)
    requires Representative(env, group, 0) && RowFor(env, scope, group, r)
    ensures r.origin == OriginOf(group[0])
  {
    var i: nat :| Representative(env, group, i) && r.periodEnd == env.format(End(env, group[i]))
                  && r.origin == OriginOf(group[i]);
    RepresentativeUnique(env, group, i, 0);
  }

  /** Under a report that ignores the order, every best observation of a group is described by the group's row. */
  lemma BestFirstDescribes(env: Env, scope: Scope, observations: seq<Observation>, key: Key, o: Observation,
                           rows: seq<Row>)
    requires ValidScope(env, scope) && Best(env, Group(env, scope, observations, key), o)
    requires OrderFree(env, scope, observations) && Reports(env, scope, observations, rows)
    ensures exists r :: r in rows && RowKey(r) == key
    ensures forall r :: r in rows && RowKey(r) == key ==> r.origin == OriginOf(o)
  {
    var fronted := BringForward(env, scope, observations, key, o);
    assert Reports(env, scope, fronted, rows);
    forall r | r in rows && RowKey(r) == key ensures r.origin == OriginOf(o) {
      FirstRepresents(env, scope, Group(env, scope, fronted, key), r);
    }
  }

  // ---------- there is a report ----------

  lemma {:induction false} GroupsExist(env: Env, scope: Scope, observations: seq<Observation>)
    returns (groups: map<Key, Accumulator>)
    requires ValidScope(env, scope)
    ensures Grouped(env, scope, observations, groups)
  {
    groups := map[];
    if observations != [] {
      var init, o := observations[..|observations| - 1], observations[|observations| - 1];
      assert observations == init + [o];
      groups := GroupsExist(env, scope, init);
      if InScope(env, scope, o) {
        GroupedAbsorbs(env, scope, init, o, groups);
        groups := groups[KeyOf(o) := Absorb(env, ItemFor(env, groups, o), o)];
      } else {
        GroupedSkips(env, scope, init, o, groups);
      }
    }
  }

  lemma {:induction false} RowsExist(env: Env, scope: Scope, groups: map<Key, Accumulator>, keys: set<Key>)
    returns (rows: seq<Row>)
    requires keys <= groups.Keys
    ensures RowsOf(env, scope, groups, keys, rows)
  {
    rows := [];
    if keys != {} {
      var key :| key in keys;
      rows := RowsExist(env, scope, groups, keys - {key});
      RowsOfAppend(env, scope, groups, keys - {key}, rows, key);
      assert keys - {key} + {key} == keys;
      rows := rows + [RowOf(env, scope, key, groups[key])];
    }
  }

  lemma ReportExists(env: Env, scope: Scope, observations: seq<Observation>) returns (rows: seq<Row>)
    requires ValidScope(env, scope)
    ensures Reports(env, scope, observations, rows)
  {
    var groups := GroupsExist(env, scope, observations);
    var unsorted := RowsExist(env, scope, groups, groups.Keys);
    SortedRowsReport(env, scope, observations, groups, unsorted);
    rows := Sort(RowOrder(), unsorted);
  }

  // ---------- reported rows can be kept ----------

  /** The writer's text reads back as a UTC instant, for every instant the reader produces. */
  ghost predicate WritesReadably(env: Env) {
    forall s :: env.instant(s).Some? ==> Moment(env, env.format(env.instant(s).value)).Some?
  }

  lemma NormalizeKeepsCanonical(id: string)
    requires CanonicalId(id)
    ensures CanonicalId(Normalize(id))
  {
    NormalizeIdempotent(id);
  }

  /** Every row of a report passes the store's own validation. */
  lemma ReportedRowsAreValid(env: Env, scope: Scope, observations: seq<Observation>, rows: seq<Row>, r: Row)
    requires ValidScope(env, scope) && Moment(env, scope.asOf).Some? && WritesReadably(env)
    requires Reports(env, scope, observations, rows) && r in rows
    requires forall o :: o in observations ==> ValidObservation(env, o)
    ensures ValidRow(env, r)
  {
    var o := RowDescribes(env, scope, Group(env, scope, observations, RowKey(r)), r);
    assert o in observations;
    RowIdsAreValid(env, o, r);
    RowTextsAreValid(env, scope, o, r);
    RowMoneyIsValid(env, scope, Group(env, scope, observations, RowKey(r)), r);
  }

  lemma RowDescribes(env: Env, scope: Scope, group: seq<Observation>, r: Row) returns (o: Observation)
    requires RowFor(env, scope, group, r)
    ensures o in group && r.periodEnd == env.format(End(env, o)) && r.origin == OriginOf(o)
  {
    var i: nat :| Representative(env, group, i) && r.periodEnd == env.format(End(env, group[i]))
                  && r.origin == OriginOf(group[i]);
    o := group[i];
  }

  lemma RowTextsAreValid(env: Env, scope: Scope, o: Observation, r: Row)
    requires ValidScope(env, scope) && Moment(env, scope.asOf).Some? && WritesReadably(env)
             && Moment(env, o.periodEnd).Some?
    requires r.period == PeriodText(scope.period) && r.periodStart == scope.startInclusive && r.asOf == scope.asOf
    requires r.periodEnd == env.format(End(env, o))
    ensures !Blank(r.period) && r.period in {"1h", "24h", "30d"}
    ensures Moment(env, r.periodStart).Some? && Moment(env, r.periodEnd).Some? && Moment(env, r.asOf).Some?
  {
    PeriodTextIsKnown(scope.period);
    assert env.instant(Trim(o.periodEnd)) == Some(End(env, o));
  }

  lemma RowMoneyIsValid(env: Env, scope: Scope, group: seq<Observation>, r: Row)
    requires RowFor(env, scope, group, r)
    ensures Within(r.gross, r.realized + r.unrealized) && Within(r.netCost, r.fees - r.rebates - r.incentives)
    ensures Within(r.net, r.gross - r.netCost)
  {
    NetFollows(r, group);
  }

  lemma RowIdsAreValid(env: Env, o: Observation, r: Row)
    requires ValidObservation(env, o) && KeyOf(o) == RowKey(r) && r.origin == OriginOf(o)
    ensures CanonicalId(r.marketId) && CanonicalId(r.alphaId) && ValidOrigin(r.origin) && Moment(env, o.periodEnd).Some?
  {
    NormalizeKeepsCanonical(o.marketId);
    NormalizeKeepsCanonical(o.alphaId);
  }

  lemma PeriodTextIsKnown(p: Period)
    ensures PeriodText(p) in {"1h", "24h", "30d"} && !Blank(PeriodText(p))
  {
    NotBlank(PeriodText(p), 0);
  }

  // ---------- the report read off the scope and the observations ----------

  /** at is the instant of every text the reader reads. */
  ghost predicate ReadsAs(env: Env, at: string -> int) {
    forall text :: env.instant(Trim(text)).Some? ==> env.instant(Trim(text)).value == at(text)
  }

  /** An observation of a market, an alpha and a period end that the scope asks for. */
  lemma ScopeReads(env: Env, scope: Scope, o: Observation, at: string -> int)
    requires ValidScope(env, scope) && ValidObservation(env, o) && ReadsAs(env, at)
    ensures InScope(env, scope, o) <==>
            && (scope.marketId == None || scope.marketId == Some(Normalize(o.marketId)))
            && (scope.alphaId == None || scope.alphaId == Some(Normalize(o.alphaId)))
            && at(scope.startInclusive) <= at(o.periodEnd) < at(scope.endExclusive)
  {
  }

  lemma {:induction false} FilterAlike(p: Observation -> bool, q: Observation -> bool, s: seq<Observation>)
    requires forall o :: o in s ==> (p(o) <==> q(o))
    ensures Filter(p, s) == Filter(q, s)
  {
    if s != [] {
      assert s[0] in s;
      FilterAlike(p, q, s[1..]);
    }
  }

  lemma {:induction false} TotalAlike(f: Observation -> real, g: Observation -> real, s: seq<Observation>)
    requires forall o :: f(o) == g(o)
    ensures Total(f, s) == Total(g, s)
  {
    if s != [] {
      TotalAlike(f, g, s[..|s| - 1]);
    }
  }

  /**
   * The rows' net P&L is the worth of exactly the observations whose market and alpha the scope asks for, if it asks,
   * and whose period ends at or after its start and before its end.
   */
  lemma MoneyOfScope(env: Env, scope: Scope, observations: seq<Observation>, rows: seq<Row>, at: string -> int,
                     keep: Observation -> bool, worth: Observation -> real)
    requires ValidScope(env, scope) && Reports(env, scope, observations, rows) && ReadsAs(env, at)
    requires forall o :: o in observations ==> ValidObservation(env, o)
    requires forall o :: o in observations ==>
                           (keep(o) <==>
                            && (scope.marketId == None || scope.marketId == Some(Normalize(o.marketId)))
                            && (scope.alphaId == None || scope.alphaId == Some(Normalize(o.alphaId)))
                            && at(scope.startInclusive) <= at(o.periodEnd) < at(scope.endExclusive))
    requires forall o: Observation :: worth(o) == o.realized + o.unrealized - (o.fees - o.rebates - o.incentives)
    ensures NetSum(rows) == Total(worth, Filter(keep, observations))
  {
    ReportConservesMoney(env, scope, observations, rows);
    forall o | o in observations ensures keep(o) <==> Covered(env, scope)(o) {
      ScopeReads(env, scope, o, at);
    }
    FilterAlike(keep, Covered(env, scope), observations);
    TotalAlike(worth, Money(), Filter(keep, observations));
  }

  /** The observations of a row: those that its scope asks for, of its market and alpha. */
  lemma GroupReads(env: Env, scope: Scope, observations: seq<Observation>, r: Row, at: string -> int,
                   mine: Observation -> bool)
    requires ValidScope(env, scope) && ReadsAs(env, at) && forall o :: o in observations ==> ValidObservation(env, o)
    requires forall o :: o in observations ==>
                           (mine(o) <==>
                            && (scope.marketId == None || scope.marketId == Some(Normalize(o.marketId)))
                            && (scope.alphaId == None || scope.alphaId == Some(Normalize(o.alphaId)))
                            && at(scope.startInclusive) <= at(o.periodEnd) < at(scope.endExclusive)
                            && Normalize(o.marketId) == r.marketId && Normalize(o.alphaId) == r.alphaId)
    ensures Group(env, scope, observations, RowKey(r)) == Filter(mine, observations)
  {
    forall o | o in observations ensures mine(o) <==> Covered(env, scope)(o) && Keyed(RowKey(r))(o) {
      ScopeReads(env, scope, o, at);
    }
    FilterBoth(Covered(env, scope), Keyed(RowKey(r)), mine, observations);
  }

  lemma {:induction false} FilterBoth(p: Observation -> bool, q: Observation -> bool, both: Observation -> bool,
                                      s: seq<Observation>)
    requires forall o :: o in s ==> (both(o) <==> p(o) && q(o))
    ensures Filter(q, Filter(p, s)) == Filter(both, s)
  {
    if s != [] {
      assert s[0] in s;
      FilterBoth(p, q, both, s[1..]);
      FilterAppend(q, if p(s[0]) then [s[0]] else [], Filter(p, s[1..]));
    }
  }

  /**
   * A row is of a market and an alpha that the scope asks for; it sums the observations of both that end within the
   * scope, and describes the latest of them, among equals the one of least correlation id.
   */
  lemma RowReads(env: Env, scope: Scope, observations: seq<Observation>, rows: seq<Row>, r: Row, at: string -> int,
                 mine: Observation -> bool)
    returns (o: Observation)
    requires ValidScope(env, scope) && Reports(env, scope, observations, rows) && r in rows && ReadsAs(env, at)
    requires forall o :: o in observations ==> ValidObservation(env, o)
    requires forall o :: o in observations ==>
                           (mine(o) <==>
                            && (scope.marketId == None || scope.marketId == Some(Normalize(o.marketId)))
                            && (scope.alphaId == None || scope.alphaId == Some(Normalize(o.alphaId)))
                            && at(scope.startInclusive) <= at(o.periodEnd) < at(scope.endExclusive)
                            && Normalize(o.marketId) == r.marketId && Normalize(o.alphaId) == r.alphaId)
    ensures scope.marketId in {None, Some(r.marketId)} && scope.alphaId in {None, Some(r.alphaId)}
    ensures var group := Filter(mine, observations);
            && r.realized == Total(Realized(), group) && r.unrealized == Total(Unrealized(), group)
            && r.fees == Total(Fees(), group) && r.rebates == Total(Rebates(), group)
            && r.incentives == Total(Incentives(), group)
    ensures forall p :: p in observations ==>
                          && Realized()(p) == p.realized && Unrealized()(p) == p.unrealized && Fees()(p) == p.fees
                          && Rebates()(p) == p.rebates && Incentives()(p) == p.incentives
    ensures r.gross == r.realized + r.unrealized && r.netCost == r.fees - r.rebates - r.incentives
    ensures r.net == r.gross - r.netCost
    ensures r.period == match scope.period case OneHour => "1h" case TwentyFourHours => "24h" case ThirtyDays => "30d"
    ensures r.periodStart == scope.startInclusive && r.asOf == scope.asOf
    ensures o in observations && mine(o) && r.periodEnd == env.format(at(o.periodEnd))
    ensures r.origin == Origin(o.source, o.reasonCode, o.correlationId, o.snapshotId, o.runId)
    ensures forall p :: p in observations && mine(p) ==>
                          || at(p.periodEnd) < at(o.periodEnd)
                          || (at(p.periodEnd) == at(o.periodEnd) && TextLeq(o.correlationId, p.correlationId))
  {
    var group := Group(env, scope, observations, RowKey(r));
    GroupReads(env, scope, observations, r, at, mine);
    NetFollows(r, group);
    o := BestOfGroup(env, scope, group, r);
    assert o in observations && mine(o);
    EndReads(env, o, at);
    forall p | p in observations && mine(p)
      ensures || at(p.periodEnd) < at(o.periodEnd)
              || (at(p.periodEnd) == at(o.periodEnd) && TextLeq(o.correlationId, p.correlationId))
    {
      assert p in group;
      EndReads(env, p, at);
    }
  }

  lemma EndReads(env: Env, o: Observation, at: string -> int)
    requires ValidObservation(env, o) && ReadsAs(env, at)
    ensures End(env, o) == at(o.periodEnd)
  {
  }

  lemma BestOfGroup(env: Env, scope: Scope, group: seq<Observation>, r: Row) returns (o: Observation)
    requires RowFor(env, scope, group, r)
    ensures o in group && r.periodEnd == env.format(End(env, o))
    ensures r.origin == Origin(o.source, o.reasonCode, o.correlationId, o.snapshotId, o.runId)
    ensures forall p :: p in group ==>
                          || End(env, p) < End(env, o)
                          || (End(env, p) == End(env, o) && TextLeq(o.correlationId, p.correlationId))
  {
    var i: nat :| Representative(env, group, i) && r.periodEnd == env.format(End(env, group[i]))
                  && r.origin == OriginOf(group[i]);
    o := group[i];
    forall p | p in group
      ensures || End(env, p) < End(env, o)
              || (End(env, p) == End(env, o) && TextLeq(o.correlationId, p.correlationId))
    {
      var j :| 0 <= j < |group| && group[j] == p;
      NoneBetter(env, group, i, j);
    }
  }

  lemma NoneBetter(env: Env, group: seq<Observation>, i: nat, j: nat)
    requires Representative(env, group, i) && j < |group|
    ensures || End(env, group[j]) < End(env, group[i])
            || (End(env, group[j]) == End(env, group[i])
                && TextLeq(group[i].correlationId, group[j].correlationId))
  {
    assert !Preferred(env, group[j], group[i]);
    TextLeqTotal(group[i].correlationId, group[j].correlationId);
    TextLeqReflexive(group[i].correlationId);
  }

  /** Every observation the scope asks for has a row of its market and alpha. */
  lemma CoveredHasRow(env: Env, scope: Scope, observations: seq<Observation>, rows: seq<Row>, o: Observation,
                      at: string -> int)
    returns (r: Row)
    requires ValidScope(env, scope) && Reports(env, scope, observations, rows) && ReadsAs(env, at)
    requires o in observations && ValidObservation(env, o)
    requires scope.marketId == None || scope.marketId == Some(Normalize(o.marketId))
    requires scope.alphaId == None || scope.alphaId == Some(Normalize(o.alphaId))
    requires at(scope.startInclusive) <= at(o.periodEnd) < at(scope.endExclusive)
    ensures r in rows && r.marketId == Normalize(o.marketId) && r.alphaId == Normalize(o.alphaId)
  {
    ScopeReads(env, scope, o, at);
    assert o in Filter(Covered(env, scope), observations);
    assert o in Group(env, scope, observations, KeyOf(o));
    r :| r in rows && RowKey(r) == KeyOf(o);
  }

  /** Greatest period end text first, then the lesser market id, then the lesser alpha id; one row for each pair. */
  lemma RowsOrdered(env: Env, scope: Scope, observations: seq<Observation>, rows: seq<Row>, i: nat, j: nat)
    requires ValidScope(env, scope) && Reports(env, scope, observations, rows) && i < j < |rows|
    ensures TextLeq(rows[j].periodEnd, rows[i].periodEnd)
    ensures rows[i].periodEnd == rows[j].periodEnd ==> TextLeq(rows[i].marketId, rows[j].marketId)
    ensures rows[i].periodEnd == rows[j].periodEnd && rows[i].marketId == rows[j].marketId ==>
              TextLeq(rows[i].alphaId, rows[j].alphaId)
    ensures rows[i].marketId != rows[j].marketId || rows[i].alphaId != rows[j].alphaId
  {
    RowOrderTotal();
    assert RowOrder()(rows[i], rows[j]);
    OrderReads(rows[i], rows[j]);
    assert RowKey(rows[i]) != RowKey(rows[j]);
  }

  lemma OrderReads(r: Row, s: Row)
    requires RowOrder()(r, s)
    ensures TextLeq(s.periodEnd, r.periodEnd)
    ensures r.periodEnd == s.periodEnd ==> TextLeq(r.marketId, s.marketId)
    ensures r.periodEnd == s.periodEnd && r.marketId == s.marketId ==> TextLeq(r.alphaId, s.alphaId)
  {
    TextLeqReflexive(r.periodEnd);
    TextLeqReflexive(r.marketId);
  }

  /**
   * The store keeps a row exactly when its ids are canonical, its origin and period known, its times read, and gross,
   * net cost and net follow from the amounts to a thousand-millionth.
   */
  lemma RowAcceptedIff(env: Env, r: Row)
    ensures ValidRow(env, r) <==>
            && CanonicalId(r.marketId) && CanonicalId(r.alphaId)
            && ValidOrigin(r.origin)
            && r.period in {"1h", "24h", "30d"}
            && env.instant(Trim(r.periodStart)).Some? && env.instant(Trim(r.periodEnd)).Some?
            && env.instant(Trim(r.asOf)).Some?
            && -0.000_000_001 <= r.gross - (r.realized + r.unrealized) <= 0.000_000_001
            && -0.000_000_001 <= r.netCost - (r.fees - r.rebates - r.incentives) <= 0.000_000_001
            && -0.000_000_001 <= r.net - (r.gross - r.netCost) <= 0.000_000_001
  {
    assert r.period in {"1h", "24h", "30d"} ==> !Blank(r.period) by {
      KnownPeriodGiven(r.period);
    }
  }

  lemma KnownPeriodGiven(period: string)
    ensures period in {"1h", "24h", "30d"} ==> !Blank(period)
  {
    if period in {"1h", "24h", "30d"} {
      NotBlank(period, 0);
    }
  }

  /**
   * Observations and scopes are accepted exactly when ids are canonical, texts given, the reason known, times read, and
   * the scope runs forward.
   */
  lemma InputsAcceptedIff(env: Env, scope: Scope, o: Observation)
    ensures ValidObservation(env, o) <==>
            && CanonicalId(o.marketId) && CanonicalId(o.alphaId)
            && Trim(o.source) != "" && Trim(o.reasonCode) != "" && Trim(o.correlationId) != ""
            && KnownReason(o.reasonCode)
            && (o.snapshotId == None || Trim(o.snapshotId.value) == "" || CanonicalId(Trim(o.snapshotId.value)))
            && (o.runId == None || Trim(o.runId.value) == "" || CanonicalId(Trim(o.runId.value)))
            && env.instant(Trim(o.periodEnd)).Some? && env.instant(Trim(o.asOf)).Some?
    ensures ValidScope(env, scope) <==>
            && env.instant(Trim(scope.startInclusive)).Some? && env.instant(Trim(scope.endExclusive)).Some?
            && env.instant(Trim(scope.startInclusive)).value < env.instant(Trim(scope.endExclusive)).value
  {
  }
}
