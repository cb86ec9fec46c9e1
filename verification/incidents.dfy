/**
 * Incident timelines: a windowed, filtered query over events, newest first. Every error carries the one
 * invalid-payload code.
 */
module Incidents {
  import opened Wrappers
  import opened Text
  import opened StableSort

  datatype IncidentError = InvalidPayload

  datatype Stage = Signal | Order | Fill | Pnl | RiskAction

  datatype Event = Event(
    eventId: string, occurredAt: string, stage: Stage, source: string, reasonCode: string, correlationId: string,
    summary: string,
    nextAction: string, severity: string, marketId: Option<string>, orderId: Option<string>, alphaId: Option<string>,
    actorId: Option<string>, runId: Option<string>, snapshotId: Option<string>)

  datatype Filters = Filters(
    marketId: Option<string>, orderId: Option<string>, alphaId: Option<string>, actorId: Option<string>,
    startTs: string, endTs: string)

  /** Outside code: the RFC 3339 UTC reader. */
  type Reader = string -> Option<int>

  function Moment(read: Reader, text: string): Option<int> {
    read(Trim(text))
  }

  // ---------- validation ----------

  predicate OptionalId(id: Option<string>) {
    id.Some? ==> CanonicalId(id.value)
  }

  predicate ValidEvent(read: Reader, e: Event) {
    && CanonicalId(e.eventId) && !Blank(e.source) && !Blank(e.reasonCode) && !Blank(e.correlationId)
    && !Blank(e.summary)
    && !Blank(e.nextAction) && Moment(read, e.occurredAt).Some?
    && OptionalId(e.marketId) && OptionalId(e.orderId) && OptionalId(e.alphaId) && OptionalId(e.actorId)
    && OptionalId(e.runId) && OptionalId(e.snapshotId)
    && e.severity in {"normal", "warning", "critical", "degraded"}
  }

  predicate ValidWindow(read: Reader, f: Filters) {
    && Moment(read, f.startTs).Some? && Moment(read, f.endTs).Some?
    && Moment(read, f.startTs).value < Moment(read, f.endTs).value
  }

  // ---------- matching ----------

  predicate Wanted(wanted: Option<string>, actual: Option<string>) {
    wanted.Some? ==> actual == wanted
  }

  predicate WantedIds(f: Filters, e: Event) {
    Wanted(f.marketId, e.marketId) && Wanted(f.orderId, e.orderId) && Wanted(f.alphaId, e.alphaId)
    && Wanted(f.actorId, e.actorId)
  }

  function Instant(read: Reader, e: Event): int {
    if Moment(read, e.occurredAt).Some? then Moment(read, e.occurredAt).value else 0
  }

  /** Inside [start, end), under the wanted ids. */
  function Matches(read: Reader, f: Filters): Event -> bool
    requires ValidWindow(read, f)
  {
    (e: Event) => Moment(read, f.startTs).value <= Instant(read, e) < Moment(read, f.endTs).value && WantedIds(f, e)
  }

  // ---------- the timeline order ----------

  /** Newest first, then by id. */
  predicate TimeLeq(read: Reader, l: Event, r: Event) {
    Instant(read, r) < Instant(read, l) || (Instant(read, r) == Instant(read, l) && TextLeq(l.eventId, r.eventId))
  }

  /** Greatest timestamp text first, then by id. */
  predicate TimestampLeq(l: Event, r: Event) {
    if l.occurredAt == r.occurredAt then TextLeq(l.eventId, r.eventId) else TextLeq(r.occurredAt, l.occurredAt)
  }

  predicate EventLeq(read: Reader, l: Event, r: Event) {
    if Readable(read, l) && Readable(read, r) then TimeLeq(read, l, r) else TimestampLeq(l, r)
  }

  function EventOrder(read: Reader): (Event, Event) -> bool {
    (l: Event, r: Event) => EventLeq(read, l, r)
  }

  predicate Readable(read: Reader, e: Event) {
    Moment(read, e.occurredAt).Some?
  }

  lemma TimeOrder(read: Reader, x: Event, y: Event, z: Event)
    ensures TimeLeq(read, x, y) || TimeLeq(read, y, x)
    ensures TimeLeq(read, x, y) && TimeLeq(read, y, z) ==> TimeLeq(read, x, z)
  {
    IdOrder(x.eventId, y.eventId, z.eventId);
  }

  lemma TimestampOrder(x: Event, y: Event, z: Event)
    ensures TimestampLeq(x, y) || TimestampLeq(y, x)
    ensures TimestampLeq(x, y) && TimestampLeq(y, z) ==> TimestampLeq(x, z)
  {
    IdOrder(x.eventId, y.eventId, z.eventId);
    IdOrder(z.occurredAt, y.occurredAt, x.occurredAt);
    if TextLeq(x.occurredAt, y.occurredAt) && TextLeq(y.occurredAt, x.occurredAt) {
      TextLeqAntisymmetric(x.occurredAt, y.occurredAt);
    }
    TextLeqTotal(x.occurredAt, y.occurredAt);
  }

  lemma IdOrder(a: string, b: string, c: string)
    ensures TextLeq(a, b) || TextLeq(b, a)
    ensures TextLeq(a, b) && TextLeq(b, c) ==> TextLeq(a, c)
  {
    TextLeqTotal(a, b);
    if TextLeq(a, b) && TextLeq(b, c) {
      TextLeqTransitive(a, b, c);
    }
  }

  /** An unreadable event z that the timestamps put between x and y leaves the two in their time order. */
  predicate KeepsBetween(read: Reader, x: Event, y: Event, z: Event) {
    TimestampLeq(x, z) && TimestampLeq(z, y) ==>
      TimeLeq(read, x, y) && (TimeLeq(read, y, x) ==> TimestampLeq(y, z) && TimestampLeq(z, x))
  }

  ghost predicate TimestampsAgree(read: Reader, events: seq<Event>) {
    forall x, y, z :: x in events && y in events && z in events && Readable(read, x) && Readable(read, y)
                      && !Readable(read, z)
                      ==> KeepsBetween(read, x, y, z)
  }

  /**
   * The comparator orders a list of events exactly when no unreadable time comes, by text, between two readable ones
   * out of their time order. So it does when every time reads, or none does.
   */
  lemma OrdersIff(read: Reader, events: seq<Event>)
    ensures TotalPreorderOn(EventOrder(read), events) <==> TimestampsAgree(read, events)
  {
    var leq := EventOrder(read);
    if TimestampsAgree(read, events) {
      forall x, y | x in events && y in events ensures leq(x, y) || leq(y, x) {
        EventsCompare(read, x, y);
      }
      forall x, y, z | x in events && y in events && z in events && leq(x, y) && leq(y, z) ensures leq(x, z) {
        TripleOrdered(read, events, x, y, z);
      }
    }
    if TotalPreorderOn(leq, events) {
      forall x, y, z | x in events && y in events && z in events && Readable(read, x) && Readable(read, y)
                       && !Readable(read, z)
        ensures KeepsBetween(read, x, y, z)
      {
        PreorderKeepsBetween(read, events, x, y, z);
      }
    }
  }

  lemma EventsCompare(read: Reader, x: Event, y: Event)
    ensures EventLeq(read, x, y) || EventLeq(read, y, x)
  {
    TimeOrder(read, x, y, x);
    TimestampOrder(x, y, x);
  }

  lemma TripleOrdered(read: Reader, events: seq<Event>, x: Event, y: Event, z: Event)
    requires TimestampsAgree(read, events) && x in events && y in events && z in events
    requires EventLeq(read, x, y) && EventLeq(read, y, z)
    ensures EventLeq(read, x, z)
  {
    TimeOrder(read, x, y, z);
    TimestampOrder(x, y, z);
    TimestampOrder(x, z, x);
    if Readable(read, x) && Readable(read, z) && !Readable(read, y) {
      assert KeepsBetween(read, x, z, y);
    } else if Readable(read, x) && Readable(read, y) && !Readable(read, z) {
      assert KeepsBetween(read, y, x, z);
    } else if !Readable(read, x) && Readable(read, y) && Readable(read, z) {
      assert KeepsBetween(read, z, y, x);
    }
  }

  lemma PreorderKeepsBetween(read: Reader, events: seq<Event>, x: Event, y: Event, z: Event)
    requires TotalPreorderOn(EventOrder(read), events) && x in events && y in events && z in events
    requires Readable(read, x) && Readable(read, y) && !Readable(read, z)
    ensures KeepsBetween(read, x, y, z)
  {
    var leq := EventOrder(read);
    assert leq(x, z) && leq(z, y) ==> leq(x, y);
    assert leq(y, x) && leq(x, z) ==> leq(y, z);
    assert leq(z, y) && leq(y, x) ==> leq(z, x);
  }

  lemma AllReadableOrdered(read: Reader, events: seq<Event>)
    requires forall e :: e in events ==> Readable(read, e)
    ensures TotalPreorderOn(EventOrder(read), events)
  {
    OrdersIff(read, events);
  }

  /** With one unreadable time among them, three events can each come strictly before the next, around a circle. */
  lemma UnreadableTimesCycle(read: Reader, x: Event, y: Event, z: Event)
    requires x.occurredAt == "2026-01-01T00:00:00Z" && y.occurredAt == "2026-01-01T00:00:00.5Z"
             && z.occurredAt == "2026-01-01T00:00:00?"
    requires Readable(read, x) && Readable(read, y) && !Readable(read, z) && Instant(read, x) < Instant(read, y)
    ensures EventLeq(read, y, x) && !EventLeq(read, x, y)
    ensures EventLeq(read, x, z) && !EventLeq(read, z, x)
    ensures EventLeq(read, z, y) && !EventLeq(read, y, z)
  {
    TextLeqSharedPrefix("2026-01-01T00:00:00", "Z", "?");
    TextLeqSharedPrefix("2026-01-01T00:00:00", "?", "Z");
    TextLeqSharedPrefix("2026-01-01T00:00:00", ".5Z", "?");
    TextLeqSharedPrefix("2026-01-01T00:00:00", "?", ".5Z");
    assert x.occurredAt == "2026-01-01T00:00:00" + "Z" && y.occurredAt == "2026-01-01T00:00:00" + ".5Z";
    assert z.occurredAt == "2026-01-01T00:00:00" + "?";
  }

  // ---------- the query ----------

  predicate AllValid(read: Reader, events: seq<Event>) {
    forall e :: e in events ==> ValidEvent(read, e)
  }

  function Query(read: Reader, events: seq<Event>, f: Filters): Result<seq<Event>, IncidentError> {
    if !ValidWindow(read, f) || !AllValid(read, events) then Failure(InvalidPayload)
    else Success(Sort(EventOrder(read), Filter(Matches(read, f), events)))
  }

  /** The first i events are valid, and matched are those among them that match. */
  ghost predicate Collected(read: Reader, f: Filters, events: seq<Event>, i: nat, matched: seq<Event>)
    requires ValidWindow(read, f) && i <= |events|
  {
    AllValid(read, events[..i]) && matched == Filter(Matches(read, f), events[..i])
  }

  lemma CollectStep(read: Reader, f: Filters, events: seq<Event>, i: nat, matched: seq<Event>)
    requires ValidWindow(read, f) && i < |events| && Collected(read, f, events, i, matched)
             && ValidEvent(read, events[i])
    ensures Collected(read, f, events, i + 1, if Matches(read, f)(events[i]) then matched + [events[i]] else matched)
  {
    assert events[..i + 1] == events[..i] + [events[i]];
    MatchedAppend(Matches(read, f), events[..i], events[i]);
    AllValidAppend(read, events[..i], events[i]);
  }

  lemma AllValidAppend(read: Reader, init: seq<Event>, e: Event)
    requires AllValid(read, init) && ValidEvent(read, e)
    ensures AllValid(read, init + [e])
  {
  }

  lemma InvalidFails(read: Reader, f: Filters, events: seq<Event>, i: nat)
    requires i < |events| && !ValidEvent(read, events[i])
    ensures Query(read, events, f) == Failure(InvalidPayload)
  {
    assert events[i] in events;
  }

  lemma AllCollected(read: Reader, f: Filters, events: seq<Event>, matched: seq<Event>)
    requires ValidWindow(read, f) && Collected(read, f, events, |events|, matched)
    ensures Query(read, events, f) == Success(Sort(EventOrder(read), matched))
  {
    assert events[..|events|] == events;
  }

  method ApplyIncidentQuery(read: Reader, events: seq<Event>, f: Filters) returns (r: Result<seq<Event>, IncidentError>)
    ensures r == Query(read, events, f)
  {
    if !ValidWindow(read, f) {
      return Failure(InvalidPayload);
    }
    var matched := [];
    for i := 0 to |events|
      invariant Collected(read, f, events, i, matched)
    {
      var valid := ValidEvent(read, events[i]);
      if !valid {
        InvalidFails(read, f, events, i);
        return Failure(InvalidPayload);
      }
      TimeReads(read, events[i]);
      var wanted := IsWanted(read, f, events[i]);
      CollectStep(read, f, events, i, matched);
      matched := if wanted then matched + [events[i]] else matched;
    }
    AllCollected(read, f, events, matched);
    return Success(Sort(EventOrder(read), matched));
  }

  lemma TimeReads(read: Reader, e: Event)
    requires ValidEvent(read, e)
    ensures Readable(read, e)
  {
  }

  lemma MatchedAppend(keep: Event -> bool, init: seq<Event>, e: Event)
    ensures Filter(keep, init + [e]) == Filter(keep, init) + if keep(e) then [e] else []
  {
    FilterAppend(keep, init, [e]);
  }

  /** One turn of the query loop: false wherever the source moves on to the next event. */
  method IsWanted(read: Reader, f: Filters, event: Event) returns (wanted: bool)
    requires ValidWindow(read, f) && Readable(read, event)
    ensures wanted == Matches(read, f)(event)
  {
    var start, end := Moment(read, f.startTs).value, Moment(read, f.endTs).value;
    var occurredAt := Moment(read, event.occurredAt).value;
    if occurredAt < start || occurredAt >= end {
      return false;
    }
    if f.marketId.Some? && event.marketId != f.marketId {
      return false;
    }
    if f.orderId.Some? && event.orderId != f.orderId {
      return false;
    }
    if f.alphaId.Some? && event.alphaId != f.alphaId {
      return false;
    }
    if f.actorId.Some? && event.actorId != f.actorId {
      return false;
    }
    return true;
  }

  // ---------- splitting the window ----------

  /** The same filters over another window. */
  function Between(f: Filters, startTs: string, endTs: string): Filters {
    f.(startTs := startTs, endTs := endTs)
  }

  lemma {:induction false} FilterTwice(p: Event -> bool, q: Event -> bool, both: Event -> bool, s: seq<Event>)
    requires forall e :: e in s ==> (both(e) <==> p(e) && q(e))
    ensures Filter(q, Filter(p, s)) == Filter(both, s)
  {
    if s != [] {
      FilterTwice(p, q, both, s[1..]);
      FilterAppend(q, if p(s[0]) then [s[0]] else [], Filter(p, s[1..]));
    }
  }

  /** At or after an instant. */
  function Since(read: Reader, mid: int): Event -> bool {
    (e: Event) => Instant(read, e) >= mid
  }

  lemma MatchesSplit(read: Reader, events: seq<Event>, f: Filters, midTs: string)
    requires ValidWindow(read, f) && Moment(read, midTs).Some?
    requires Moment(read, f.startTs).value < Moment(read, midTs).value < Moment(read, f.endTs).value
    ensures var late := Since(read, Moment(read, midTs).value);
            var matched := Filter(Matches(read, f), events);
            && Filter(late, matched) == Filter(Matches(read, Between(f, midTs, f.endTs)), events)
            && Filter(Except(late), matched) == Filter(Matches(read, Between(f, f.startTs, midTs)), events)
  {
    var late := Since(read, Moment(read, midTs).value);
    FilterTwice(Matches(read, f), late, Matches(read, Between(f, midTs, f.endTs)), events);
    FilterTwice(Matches(read, f), Except(late), Matches(read, Between(f, f.startTs, midTs)), events);
  }

  /**
   * Splitting a window at any instant inside it splits the query: the late half followed by the early half is the
   * whole, ties and failures included.
   */
  lemma QuerySplits(read: Reader, events: seq<Event>, f: Filters, midTs: string)
    requires ValidWindow(read, f) && Moment(read, midTs).Some?
    requires Moment(read, f.startTs).value < Moment(read, midTs).value < Moment(read, f.endTs).value
    ensures var whole := Query(read, events, f);
            var late, early := Query(read, events, Between(f, midTs, f.endTs)),
                               Query(read, events, Between(f, f.startTs, midTs));
            && whole.Success? == late.Success? == early.Success?
            && (whole.Success? ==> whole.value == late.value + early.value)
  {
    var late := Since(read, Moment(read, midTs).value);
    var matched := Filter(Matches(read, f), events);
    MatchesSplit(read, events, f, midTs);
    if AllValid(read, events) {
      SortHalves(read, matched, Moment(read, midTs).value);
    }
  }

  lemma SortHalves(read: Reader, matched: seq<Event>, mid: int)
    requires forall e :: e in matched ==> Readable(read, e)
    ensures Sort(EventOrder(read), matched)
         == Sort(EventOrder(read), Filter(Since(read, mid), matched))
            + Sort(EventOrder(read), Filter(Except(Since(read, mid)), matched))
  {
    HalvesApart(read, matched, mid, EventOrder(read), Since(read, mid));
    SortSplit(EventOrder(read), Since(read, mid), matched);
  }

  lemma HalvesApart(read: Reader, matched: seq<Event>, mid: int, leq: (Event, Event) -> bool, late: Event -> bool)
    requires (forall e :: e in matched ==> Readable(read, e)) && leq == EventOrder(read) && late == Since(read, mid)
    ensures forall x, y :: x in matched && y in matched && late(x) && !late(y) ==> leq(x, y) && !leq(y, x)
  {
    forall x, y | x in matched && y in matched && late(x) && !late(y) ensures leq(x, y) && !leq(y, x) {
      LaterFirst(read, x, y);
    }
  }

  lemma LaterFirst(read: Reader, x: Event, y: Event)
    requires Readable(read, x) && Readable(read, y) && Instant(read, x) > Instant(read, y)
    ensures EventOrder(read)(x, y) && !EventOrder(read)(y, x)
  {
  }

  // ---------- what a query returns ----------

  /** A result holds each matching event as often as the input does, newest first, equal times by id. */
  lemma QueryReturns(read: Reader, events: seq<Event>, f: Filters)
    requires Query(read, events, f).Success?
    ensures var found := Query(read, events, f).value;
            && (forall i, j :: 0 <= i < j < |found| ==>
                                 || Instant(read, found[i]) > Instant(read, found[j])
                                 || (Instant(read, found[i]) == Instant(read, found[j])
                                     && TextLeq(found[i].eventId, found[j].eventId)))
            && (forall e :: multiset(found)[e] == if Matches(read, f)(e) then multiset(events)[e] else 0)
  {
    var matched := Filter(Matches(read, f), events);
    var found := Query(read, events, f).value;
    AllReadableOrdered(read, matched);
    SortSortedOn(EventOrder(read), matched, matched);
    SortContents(EventOrder(read), matched);
    forall e ensures multiset(found)[e] == if Matches(read, f)(e) then multiset(events)[e] else 0 {
      FilterCounts(Matches(read, f), events, e);
    }
    forall i, j | 0 <= i < j < |found|
      ensures || Instant(read, found[i]) > Instant(read, found[j])
              || (Instant(read, found[i]) == Instant(read, found[j]) && TextLeq(found[i].eventId, found[j].eventId))
    {
      assert found[i] in matched && found[j] in matched;
      assert EventOrder(read)(found[i], found[j]);
    }
  }

  // ---------- the query read off the filters and the events ----------

  /** at is the instant of every text the reader reads. */
  ghost predicate ReadsAs(read: Reader, at: string -> int) {
    forall text :: read(Trim(text)).Some? ==> read(Trim(text)).value == at(text)
  }

  /** An event is accepted exactly when it is complete, timed, of a known severity, and its ids are canonical. */
  lemma EventAcceptedIff(read: Reader, e: Event)
    ensures ValidEvent(read, e) <==>
            && CanonicalId(e.eventId) && Trim(e.source) != "" && Trim(e.reasonCode) != "" && Trim(e.correlationId) != ""
            && Trim(e.summary) != "" && Trim(e.nextAction) != "" && read(Trim(e.occurredAt)).Some?
            && (forall id :: id in {e.marketId, e.orderId, e.alphaId, e.actorId, e.runId, e.snapshotId} && id.Some? ==>
                               CanonicalId(id.value))
            && (e.severity == "normal" || e.severity == "warning" || e.severity == "critical"
                || e.severity == "degraded")
  {
  }

  /**
   * A query is answered exactly when its window reads and runs forward and every event is valid. It returns the events
   * whose time lies at or after the start and before the end and whose market, order, alpha and actor are those asked
   * for, newest first and equal times by id.
   */
  lemma QueryReads(read: Reader, events: seq<Event>, f: Filters, at: string -> int, keep: Event -> bool)
    requires ReadsAs(read, at)
    requires forall e: Event :: keep(e) <==>
                                && at(f.startTs) <= at(e.occurredAt) < at(f.endTs)
                                && (f.marketId == None || e.marketId == f.marketId)
                                && (f.orderId == None || e.orderId == f.orderId)
                                && (f.alphaId == None || e.alphaId == f.alphaId)
                                && (f.actorId == None || e.actorId == f.actorId)
    ensures Query(read, events, f).Success? <==>
            && read(Trim(f.startTs)).Some? && read(Trim(f.endTs)).Some? && at(f.startTs) < at(f.endTs)
            && forall e :: e in events ==> ValidEvent(read, e)
    ensures Query(read, events, f).Success? ==>
              var found := Query(read, events, f).value;
              && multiset(found) == multiset(Filter(keep, events))
              && forall i, j :: 0 <= i < j < |found| ==>
                                  || at(found[i].occurredAt) > at(found[j].occurredAt)
                                  || (at(found[i].occurredAt) == at(found[j].occurredAt)
                                      && TextLeq(found[i].eventId, found[j].eventId))
  {
    if Query(read, events, f).Success? {
      MatchesReads(read, events, f, at, keep);
      SortContents(EventOrder(read), Filter(keep, events));
      QueryReturns(read, events, f);
      TimesRead(read, events, f, at);
    }
  }

  lemma MatchesReads(read: Reader, events: seq<Event>, f: Filters, at: string -> int, keep: Event -> bool)
    requires ReadsAs(read, at) && ValidWindow(read, f) && AllValid(read, events)
    requires forall e: Event :: keep(e) <==>
                                && at(f.startTs) <= at(e.occurredAt) < at(f.endTs)
                                && (f.marketId == None || e.marketId == f.marketId)
                                && (f.orderId == None || e.orderId == f.orderId)
                                && (f.alphaId == None || e.alphaId == f.alphaId)
                                && (f.actorId == None || e.actorId == f.actorId)
    ensures Filter(Matches(read, f), events) == Filter(keep, events)
  {
    forall e | e in events ensures keep(e) <==> Matches(read, f)(e) {
      MatchReads(read, f, at, e);
    }
    FilterAlike(keep, Matches(read, f), events);
  }

  lemma MatchReads(read: Reader, f: Filters, at: string -> int, e: Event)
    requires ReadsAs(read, at) && ValidWindow(read, f) && ValidEvent(read, e)
    ensures Matches(read, f)(e) <==>
            && at(f.startTs) <= at(e.occurredAt) < at(f.endTs)
            && (f.marketId == None || e.marketId == f.marketId) && (f.orderId == None || e.orderId == f.orderId)
            && (f.alphaId == None || e.alphaId == f.alphaId) && (f.actorId == None || e.actorId == f.actorId)
  {
  }

  lemma {:induction false} FilterAlike(p: Event -> bool, q: Event -> bool, s: seq<Event>)
    requires forall e :: e in s ==> (p(e) <==> q(e))
    ensures Filter(p, s) == Filter(q, s)
  {
    if s != [] {
      assert s[0] in s;
      FilterAlike(p, q, s[1..]);
    }
  }

  lemma TimesRead(read: Reader, events: seq<Event>, f: Filters, at: string -> int)
    requires ReadsAs(read, at) && Query(read, events, f).Success?
    ensures forall e :: e in Query(read, events, f).value ==> Instant(read, e) == at(e.occurredAt)
  {
    SortContents(EventOrder(read), Filter(Matches(read, f), events));
    forall e | e in Query(read, events, f).value ensures Instant(read, e) == at(e.occurredAt) {
      assert e in Filter(Matches(read, f), events);
      assert ValidEvent(read, e);
    }
  }
}
