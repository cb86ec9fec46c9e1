/**
 * Report windows and run boundaries. An instant is a day number and the nanoseconds since its midnight, as the date
 * library keeps it. RFC 3339 text is read and written for years 0 to 9999 only: leaving that range is OutOfRange.
 */
module ReportingSchedule {
  import opened Wrappers
  import opened Calendar
  import opened Text

  datatype Cadence = Daily | Weekly | Monthly

  datatype Instant = Instant(day: int, nano: int)

  datatype Window = Window(start: Instant, end: Instant)

  datatype WindowBounds = WindowBounds(window: Window, key: string)

  datatype ScheduleError = OutOfRange | InvalidIdentifier | WindowNotPositive

  const SECOND := 1_000_000_000
  const DAY_NANOS := 86_400_000_000_000

  predicate IsInstant(t: Instant) {
    0 <= t.nano < DAY_NANOS
  }

  predicate Supported(t: Instant) {
    IsInstant(t) && 0 <= t.day < LIMIT_DAY
  }

  predicate Before(t: Instant, u: Instant) {
    t.day < u.day || (t.day == u.day && t.nano < u.nano)
  }

  predicate AtMost(t: Instant, u: Instant) {
    !Before(u, t)
  }

  function Midnight(day: int): Instant {
    Instant(day, 0)
  }

  function PlusDays(t: Instant, days: int): Instant {
    Instant(t.day + days, t.nano)
  }

  function PlusSecond(t: Instant): Instant {
    if t.nano + SECOND < DAY_NANOS then Instant(t.day, t.nano + SECOND)
    else Instant(t.day + 1, t.nano + SECOND - DAY_NANOS)
  }

  function MinusSecond(t: Instant): Instant {
    if t.nano >= SECOND then Instant(t.day, t.nano - SECOND)
    else Instant(t.day - 1, t.nano - SECOND + DAY_NANOS)
  }

  // ---------- the window of an instant ----------

  ghost function StartOfDay(t: Instant): Instant {
    Midnight(DayNumber(DateOf(t.day)))
  }

  ghost function StartOfWeek(t: Instant): Instant {
    var midnight := StartOfDay(t);
    var offset := match WeekdayOf(midnight.day)
      case Monday => 0
      case Tuesday => 1
      case Wednesday => 2
      case Thursday => 3
      case Friday => 4
      case Saturday => 5
      case Sunday => 6;
    PlusDays(midnight, -offset)
  }

  ghost function StartOfMonth(t: Instant): Instant {
    Midnight(DayNumber(FirstOfMonth(DateOf(t.day))))
  }

  ghost function StartOfNextMonth(monthStart: Instant): Instant {
    Midnight(DayNumber(FirstOfNextMonth(DateOf(monthStart.day))))
  }

  ghost function WindowOf(c: Cadence, t: Instant): Window {
    var start := match c
      case Daily => StartOfDay(t)
      case Weekly => StartOfWeek(t)
      case Monthly => StartOfMonth(t);
    var end := match c
      case Daily => PlusDays(start, 1)
      case Weekly => PlusDays(start, 7)
      case Monthly => StartOfNextMonth(start);
    Window(start, end)
  }

  /** cadence_window_bounds_from_time: the date library has no year 10000. */
  ghost function WindowOfInstant(c: Cadence, t: Instant): Result<Window, ScheduleError> {
    var w := WindowOf(c, t);
    if w.end.day < LIMIT_DAY then Success(w) else Failure(OutOfRange)
  }

  function Format(t: Instant): Result<Instant, ScheduleError> {
    if Supported(t) then Success(t) else Failure(OutOfRange)
  }

  // ---------- run boundaries ----------

  ghost function NextRunAt(c: Cadence, reference: Instant): Result<Instant, ScheduleError>
    requires Supported(reference)
  {
    var w :- WindowOfInstant(c, reference);
    if reference == w.start then Format(w.start) else Format(w.end)
  }

  ghost function AdvanceToNextRunAt(c: Cadence, current: Instant): Result<Instant, ScheduleError>
    requires Supported(current)
  {
    var advanced :- Format(PlusSecond(current));
    NextRunAt(c, advanced)
  }

  // ---------- window keys ----------

  function CadenceText(c: Cadence): string {
    match c
    case Daily => "daily"
    case Weekly => "weekly"
    case Monthly => "monthly"
  }

  predicate ValidIdentifier(s: string, maxLength: nat) {
    var normalized := Normalize(s);
    3 <= |normalized| <= maxLength && AllCanonical(normalized)
  }

  function UnixSeconds(t: Instant): int {
    (t.day - EPOCH_DAY) * 86_400 + t.nano / 1_000_000_000
  }

  function WindowKey(scheduleId: string, c: Cadence, start: Instant): string {
    "report-window::" + Normalize(scheduleId) + "::" + CadenceText(c) + "::" + IntText(UnixSeconds(start))
  }

  function ComposeWindowKey(scheduleId: string, c: Cadence, start: Instant, end: Instant): Result<string, ScheduleError>
    requires Supported(start) && Supported(end)
  {
    if !ValidIdentifier(Normalize(scheduleId), 160) then Failure(InvalidIdentifier)
    else if AtMost(end, start) then Failure(WindowNotPositive)
    else
      var key := WindowKey(scheduleId, c, start);
      if ValidIdentifier(key, 200) then Success(key) else Failure(InvalidIdentifier)
  }

  ghost function BuildWindow(scheduleId: string, c: Cadence, boundary: Instant): Result<WindowBounds, ScheduleError>
    requires Supported(boundary)
  {
    var id := Normalize(scheduleId);
    if !ValidIdentifier(id, 160) then Failure(InvalidIdentifier)
    else
      var w :- WindowOfInstant(c, MinusSecond(boundary));
      var start :- Format(w.start);
      var end :- Format(w.end);
      var key :- ComposeWindowKey(id, c, start, end);
      Success(WindowBounds(Window(start, end), key))
  }

  // ---------- reference: which days open a window ----------

  /** Every day, every Monday, every first of a month. */
  ghost predicate OpensWindow(c: Cadence, day: int) {
    match c
    case Daily => true
    case Weekly => WeekdayOf(day) == Monday
    case Monthly => DateOf(day).day == 1
  }

  ghost predicate IsBoundary(c: Cadence, t: Instant) {
    t.nano == 0 && OpensWindow(c, t.day)
  }

  /**
   * Boundaries are the midnights of every day, of the Mondays, counted from 5 January 1970, or of the firsts of the
   * months.
   */
  lemma BoundaryReads(c: Cadence, t: Instant, year: int)
    requires year == 1970
    ensures IsBoundary(c, t) <==>
            && t.nano == 0
            && match c
               case Daily => true
               case Weekly => (t.day - DayNumber(Date(year, 1, 5))) % 7 == 0
               case Monthly => exists d :: ValidDate(d) && d.day == 1 && DayNumber(d) == t.day
  {
    Anchors(year);
    assert DayNumber(Date(year, 1, 5)) == EPOCH_DAY + 4;
    if c == Monthly {
      if d :| ValidDate(d) && d.day == 1 && DayNumber(d) == t.day {
        DateOfDayNumber(d);
      }
    }
  }

  /** w runs from one boundary to the next. */
  ghost predicate SpansWindow(c: Cadence, w: Window) {
    && IsBoundary(c, w.start) && IsBoundary(c, w.end) && w.start.day < w.end.day
    && forall day :: w.start.day < day < w.end.day ==> !OpensWindow(c, day)
  }

  predicate Within(w: Window, t: Instant) {
    AtMost(w.start, t) && Before(t, w.end)
  }

  /** The date arithmetic of the source finds the boundaries around t. */
  lemma WindowSpans(c: Cadence, t: Instant)
    requires IsInstant(t)
    ensures SpansWindow(c, WindowOf(c, t)) && Within(WindowOf(c, t), t)
  {
    match c
    case Daily =>
    case Weekly => WeekSpans(t);
    case Monthly => MonthSpans(t);
  }

  lemma WeekSpans(t: Instant)
    requires IsInstant(t)
    ensures SpansWindow(Weekly, WindowOf(Weekly, t)) && Within(WindowOf(Weekly, t), t)
  {
    WeekWindow(t);
    MondayBefore(t.day);
    WeekFrom(t.day - WeekdayIndex(t.day));
  }

  lemma WeekWindow(t: Instant)
    ensures WindowOf(Weekly, t)
            == Window(Midnight(t.day - WeekdayIndex(t.day)), Midnight(t.day - WeekdayIndex(t.day) + 7))
  {
  }

  lemma MondayBefore(day: int)
    ensures WeekdayIndex(day - WeekdayIndex(day)) == 0
  {
  }

  lemma WeekFrom(start: int)
    requires WeekdayIndex(start) == 0
    ensures SpansWindow(Weekly, Window(Midnight(start), Midnight(start + 7)))
  {
    forall day | start < day < start + 7 ensures WeekdayIndex(day) == day - start {
    }
  }

  lemma MonthSpans(t: Instant)
    requires IsInstant(t)
    ensures SpansWindow(Monthly, WindowOf(Monthly, t)) && Within(WindowOf(Monthly, t), t)
  {
    MonthWindow(t, DateOf(t.day));
    MonthInterior(DateOf(t.day), WindowOf(Monthly, t));
  }

  lemma MonthWindow(t: Instant, d: Date)
    requires d == DateOf(t.day)
    ensures WindowOf(Monthly, t)
         == Window(Midnight(DayNumber(FirstOfMonth(d))), Midnight(DayNumber(FirstOfNextMonth(d))))
  {
    DateOfDayNumber(FirstOfMonth(d));
  }

  lemma MonthInterior(d: Date, w: Window)
    requires ValidDate(d)
    requires w == Window(Midnight(DayNumber(FirstOfMonth(d))), Midnight(DayNumber(FirstOfNextMonth(d))))
    ensures SpansWindow(Monthly, w) && w.start.day <= DayNumber(d) < w.end.day
  {
    var a, b := DayNumber(FirstOfMonth(d)), DayNumber(FirstOfNextMonth(d));
    MonthAhead(d);
    assert DayNumber(d) == a + d.day - 1;
    DayOpensMonth(FirstOfMonth(d), a);
    DayOpensMonth(FirstOfNextMonth(d), b);
    forall day | a < day < b ensures !OpensWindow(Monthly, day) {
      DayOpensMonth(Date(d.year, d.month, 1 + day - a), day);
    }
  }

  lemma DayOpensMonth(d: Date, day: int)
    requires ValidDate(d) && day == DayNumber(d)
    ensures OpensWindow(Monthly, day) <==> d.day == 1
  {
    DateOfDayNumber(d);
  }

  lemma SpanUnique(c: Cadence, v: Window, w: Window, t: Instant)
    requires SpansWindow(c, v) && SpansWindow(c, w) && Within(v, t) && Within(w, t) && IsInstant(t)
    ensures v == w
  {
  }

  // ---------- windows partition time ----------

  lemma WindowsPartitionTime(c: Cadence, t: Instant, u: Instant)
    requires IsInstant(t) && IsInstant(u)
    ensures Within(WindowOf(c, t), t)
    ensures Within(WindowOf(c, t), u) <==> WindowOf(c, u) == WindowOf(c, t)
    ensures WindowOf(c, WindowOf(c, t).end).start == WindowOf(c, t).end
    ensures WindowOf(c, t).start == t <==> IsBoundary(c, t)
  {
    Partition(c, t, u, WindowOf(c, t), WindowOf(c, u), WindowOf(c, WindowOf(c, t).end));
  }

  lemma Partition(c: Cadence, t: Instant, u: Instant, v: Window, w: Window, next: Window)
    requires IsInstant(t) && IsInstant(u)
    requires v == WindowOf(c, t) && w == WindowOf(c, u) && next == WindowOf(c, v.end)
    ensures Within(v, t) && (Within(v, u) <==> w == v) && next.start == v.end && (v.start == t <==> IsBoundary(c, t))
  {
    WindowSpans(c, t);
    WindowSpans(c, u);
    WindowSpans(c, v.end);
    if Within(v, u) {
      SpanUnique(c, v, w, u);
    }
  }

  // ---------- the next run is the least boundary not before the reference ----------

  ghost predicate LeastBoundaryFrom(c: Cadence, t: Instant, b: Instant) {
    IsBoundary(c, b) && AtMost(t, b) && forall e :: IsBoundary(c, e) && AtMost(t, e) ==> AtMost(b, e)
  }

  lemma WindowEdgeIsLeast(c: Cadence, t: Instant, w: Window)
    requires IsInstant(t) && SpansWindow(c, w) && Within(w, t)
    ensures LeastBoundaryFrom(c, t, if t == w.start then t else w.end)
  {
  }

  /** Next runs in terms of the window the reference lies in. */
  lemma NextRunInWindow(c: Cadence, t: Instant, w: Window)
    requires Supported(t) && SpansWindow(c, w) && Within(w, t)
    ensures NextRunAt(c, t) == if w.end.day >= LIMIT_DAY then Failure(OutOfRange)
                               else Success(if t == w.start then t else w.end)
  {
    WindowSpans(c, t);
    SpanUnique(c, w, WindowOf(c, t), t);
  }

  lemma NextRunIsLeastBoundary(c: Cadence, reference: Instant)
    requires Supported(reference)
    ensures NextRunAt(c, reference).Success? <==> WindowOf(c, reference).end.day < LIMIT_DAY
    ensures NextRunAt(c, reference).Success? ==> LeastBoundaryFrom(c, reference, NextRunAt(c, reference).value)
  {
    var w := WindowOf(c, reference);
    WindowSpans(c, reference);
    WindowEdgeIsLeast(c, reference, w);
    NextRunInWindow(c, reference, w);
  }

  /** Asking again at the answer gives the answer, except at the last boundary before the year 10000. */
  lemma NextRunIdempotent(c: Cadence, reference: Instant)
    requires Supported(reference) && NextRunAt(c, reference).Success?
    ensures var b := NextRunAt(c, reference).value;
            Supported(b) && (NextRunAt(c, b) == Success(b) <==> WindowOf(c, b).end.day < LIMIT_DAY)
  {
    var w := WindowOf(c, reference);
    WindowSpans(c, reference);
    NextRunInWindow(c, reference, w);
    var b := if reference == w.start then w.start else w.end;
    var v := WindowOf(c, b);
    WindowSpans(c, b);
    NextRunInWindow(c, b, v);
  }

  /** Where the last two months before the year 10000 begin; a literal year would be unfolded year by year. */
  lemma LastMonths(year: int)
    requires year == 9999
    ensures DayNumber(Date(year, 11, 1)) == LIMIT_DAY - 61 && DayNumber(Date(year, 12, 1)) == LIMIT_DAY - 31
    ensures DayNumber(Date(year + 1, 1, 1)) == LIMIT_DAY
  {
    Anchors(year + 1);
    MonthAhead(Date(year, 11, 1));
    MonthAhead(Date(year, 12, 1));
  }

  /** The exception is real: 1 December 9999 is the next monthly run of the day before, and has no next run itself. */
  lemma LastBoundaryHasNoNextRun(year: int, december: Instant)
    requires year == 9999 && december == Midnight(DayNumber(Date(year, 12, 1)))
    ensures Supported(PlusDays(december, -1)) && NextRunAt(Monthly, PlusDays(december, -1)) == Success(december)
    ensures Supported(december) && NextRunAt(Monthly, december) == Failure(OutOfRange)
  {
    LastMonths(year);
    var november, january := Midnight(LIMIT_DAY - 61), Midnight(LIMIT_DAY);
    MonthInterior(Date(year, 11, 1), Window(november, december));
    MonthInterior(Date(year, 12, 1), Window(december, january));
    NextRunInWindow(Monthly, PlusDays(december, -1), Window(november, december));
    NextRunInWindow(Monthly, december, Window(december, january));
  }

  // ---------- advancing from boundary to boundary ----------

  /** Nanoseconds since the first midnight. */
  function NanosOf(t: Instant): int {
    t.day * 86_400_000_000_000 + t.nano
  }

  /** The tick added or taken off is a thousand million nanoseconds, across midnight too. */
  lemma TicksAreSeconds(t: Instant)
    requires IsInstant(t)
    ensures 0 <= PlusSecond(t).nano < 86_400_000_000_000 && NanosOf(PlusSecond(t)) == NanosOf(t) + 1_000_000_000
    ensures 0 <= MinusSecond(t).nano < 86_400_000_000_000 && NanosOf(MinusSecond(t)) == NanosOf(t) - 1_000_000_000
  {
  }

  /** Off a boundary, advancing skips one less than a second ahead; otherwise it finds the next one. */
  lemma AdvanceFindsNextBoundary(c: Cadence, t: Instant)
    requires Supported(t) && AdvanceToNextRunAt(c, t).Success?
    ensures LeastBoundaryFrom(c, PlusSecond(t), AdvanceToNextRunAt(c, t).value)
    ensures (forall e :: IsBoundary(c, e) && Before(t, e) ==> AtMost(AdvanceToNextRunAt(c, t).value, e))
       <==> (forall e :: IsBoundary(c, e) && Before(t, e) ==> AtMost(PlusSecond(t), e))
  {
    NextRunIsLeastBoundary(c, PlusSecond(t));
    AdvanceGap(c, t, AdvanceToNextRunAt(c, t).value);
  }

  /**
   * It happens at every boundary that is not the last: from half a second before, the next run found is the one
   * after.
   */
  lemma AdvanceSkipsBoundary(c: Cadence, b: Instant)
    requires Supported(b) && IsBoundary(c, b) && b.day > 0 && WindowOf(c, b).end.day < LIMIT_DAY
    ensures var t := Instant(b.day - 1, 86_399_500_000_000);
            && Supported(t) && Before(t, b) && Before(b, WindowOf(c, b).end)
            && AdvanceToNextRunAt(c, t) == Success(WindowOf(c, b).end)
  {
    var t := Instant(b.day - 1, 86_399_500_000_000);
    WindowSpans(c, b);
    SkipsFrom(c, b, t, WindowOf(c, b));
  }

  lemma SkipsFrom(c: Cadence, b: Instant, t: Instant, w: Window)
    requires Supported(b) && b.nano == 0 && b.day > 0 && t == Instant(b.day - 1, 86_399_500_000_000)
    requires SpansWindow(c, w) && w.start == b && w.end.day < LIMIT_DAY
    ensures Supported(t) && Before(t, b) && Before(b, w.end) && AdvanceToNextRunAt(c, t) == Success(w.end)
  {
    assert PlusSecond(t) == Instant(b.day, 500_000_000);
    NextRunInWindow(c, PlusSecond(t), w);
  }

  lemma AdvanceGap(c: Cadence, t: Instant, b: Instant)
    requires IsInstant(t) && LeastBoundaryFrom(c, PlusSecond(t), b)
    ensures (forall e :: IsBoundary(c, e) && Before(t, e) ==> AtMost(b, e))
       <==> (forall e :: IsBoundary(c, e) && Before(t, e) ==> AtMost(PlusSecond(t), e))
  {
  }

  lemma AdvanceFromBoundary(c: Cadence, b: Instant)
    requires Supported(b) && IsBoundary(c, b)
    ensures AdvanceToNextRunAt(c, b)
         == if WindowOf(c, b).end.day < LIMIT_DAY then Success(WindowOf(c, b).end) else Failure(OutOfRange)
    ensures SpansWindow(c, WindowOf(c, b)) && WindowOf(c, b).start == b
  {
    var w := WindowOf(c, b);
    WindowSpans(c, b);
    NextRunInWindow(c, PlusSecond(b), w);
  }

  /** One advance of a schedule, as a function value. */
  ghost function AdvanceStep(c: Cadence): Instant -> Result<Instant, ScheduleError> {
    t => if Supported(t) then AdvanceToNextRunAt(c, t) else Failure(OutOfRange)
  }

  /** The schedule after n advances. */
  ghost function Iterate(step: Instant -> Result<Instant, ScheduleError>, first: Instant,
                         n: nat): Result<Instant, ScheduleError> {
    if n == 0 then Success(first)
    else
      var previous :- Iterate(step, first, n - 1);
      step(previous)
  }

  /** step takes each representable boundary to the next one. */
  ghost predicate Follows(c: Cadence, step: Instant -> Result<Instant, ScheduleError>) {
    forall w :: SpansWindow(c, w) && Supported(w.start) ==>
                  step(w.start) == if w.end.day < LIMIT_DAY then Success(w.end) else Failure(OutOfRange)
  }

  lemma AdvanceFollows(c: Cadence)
    ensures Follows(c, AdvanceStep(c))
  {
    forall w | SpansWindow(c, w) && Supported(w.start)
      ensures AdvanceStep(c)(w.start) == if w.end.day < LIMIT_DAY then Success(w.end) else Failure(OutOfRange)
    {
      AdvanceFromBoundary(c, w.start);
      SpanUnique(c, w, WindowOf(c, w.start), w.start);
    }
  }

  lemma SpanFrom(c: Cadence, b: Instant) returns (w: Window)
    requires IsBoundary(c, b)
    ensures SpansWindow(c, w) && w.start == b
  {
    w := WindowOf(c, b);
    WindowSpans(c, b);
  }

  lemma {:induction false} RunsAreBoundaries(c: Cadence, step: Instant -> Result<Instant, ScheduleError>,
                                             first: Instant, n: nat)
    returns (w: Window)
    requires Follows(c, step) && Supported(first) && IsBoundary(c, first) && Iterate(step, first, n).Success?
    ensures SpansWindow(c, w) && Supported(w.start) && w.start == Iterate(step, first, n).value
  {
    if n == 0 {
      w := SpanFrom(c, first);
    } else {
      var v := RunsAreBoundaries(c, step, first, n - 1);
      w := SpanFrom(c, v.end);
    }
  }

  lemma {:induction false} RunsAscend(c: Cadence, step: Instant -> Result<Instant, ScheduleError>, first: Instant,
                                      m: nat, n: nat)
    requires Follows(c, step) && Supported(first) && IsBoundary(c, first) && m < n && Iterate(step, first, n).Success?
    ensures Iterate(step, first, m).Success? && Iterate(step, first, m).value.day < Iterate(step, first, n).value.day
  {
    var w := RunsAreBoundaries(c, step, first, n - 1);
    if m < n - 1 {
      RunsAscend(c, step, first, m, n - 1);
    }
  }

  /** Some run opens the window that holds the day. */
  lemma {:induction false} RunReaching(c: Cadence, step: Instant -> Result<Instant, ScheduleError>, first: Instant,
                                       day: int)
    returns (n: nat, w: Window)
    requires Follows(c, step) && Supported(first) && IsBoundary(c, first) && first.day <= day < LIMIT_DAY
    ensures Iterate(step, first, n) == Success(w.start) && SpansWindow(c, w) && w.start.day <= day < w.end.day
    ensures Supported(w.start)
    decreases day - first.day
  {
    if day == first.day {
      n := 0;
      w := SpanFrom(c, first);
    } else {
      n, w := RunReaching(c, step, first, day - 1);
      if w.end.day == day {
        w := RunAfter(c, step, first, n, w);
        n := n + 1;
      }
    }
  }

  /** The run after one that opens w opens the window at w's end. */
  lemma RunAfter(c: Cadence, step: Instant -> Result<Instant, ScheduleError>, first: Instant, n: nat, w: Window)
    returns (v: Window)
    requires Follows(c, step) && Iterate(step, first, n) == Success(w.start)
    requires SpansWindow(c, w) && Supported(w.start) && w.end.day < LIMIT_DAY
    ensures Iterate(step, first, n + 1) == Success(v.start) && SpansWindow(c, v) && v.start == w.end
            && Supported(v.start)
    ensures v.start.day < v.end.day
  {
    v := SpanFrom(c, w.end);
  }

  lemma TargetsVisitedOnce(c: Cadence, step: Instant -> Result<Instant, ScheduleError>, first: Instant, target: Instant)
    requires Follows(c, step) && Supported(first) && IsBoundary(c, first) && Supported(target) && AtMost(first, target)
    ensures IsBoundary(c, target) <==> exists n: nat :: Iterate(step, first, n) == Success(target)
    ensures forall m: nat, n: nat :: Iterate(step, first, m) == Success(target) == Iterate(step, first, n) ==> m == n
  {
    if IsBoundary(c, target) {
      var n, w := RunReaching(c, step, first, target.day);
      assert w.start == target;
    }
    forall n: nat | Iterate(step, first, n) == Success(target) ensures IsBoundary(c, target) {
      var w := RunsAreBoundaries(c, step, first, n);
    }
    forall m: nat, n: nat | Iterate(step, first, m) == Success(target) == Iterate(step, first, n) ensures m == n {
      if m < n {
        RunsAscend(c, step, first, m, n);
      } else if n < m {
        RunsAscend(c, step, first, n, m);
      }
    }
  }

  /** Every boundary from the first on is visited, once, and nothing else is. */
  lemma EveryBoundaryVisitedOnce(c: Cadence, first: Instant, target: Instant)
    requires Supported(first) && IsBoundary(c, first) && Supported(target) && AtMost(first, target)
    ensures IsBoundary(c, target) <==> exists n: nat :: Iterate(AdvanceStep(c), first, n) == Success(target)
    ensures forall m: nat, n: nat ::
              Iterate(AdvanceStep(c), first, m) == Success(target) == Iterate(AdvanceStep(c), first, n) ==> m == n
  {
    AdvanceFollows(c);
    TargetsVisitedOnce(c, AdvanceStep(c), first, target);
  }

  /** Runs come in time order, each a representable boundary. */
  lemma RunsInOrder(c: Cadence, first: Instant, m: nat, n: nat)
    requires Supported(first) && IsBoundary(c, first) && m < n && Iterate(AdvanceStep(c), first, n).Success?
    ensures Iterate(AdvanceStep(c), first, m).Success?
            && Before(Iterate(AdvanceStep(c), first, m).value, Iterate(AdvanceStep(c), first, n).value)
    ensures IsBoundary(c, Iterate(AdvanceStep(c), first, m).value) && Supported(Iterate(AdvanceStep(c), first, m).value)
    ensures IsBoundary(c, Iterate(AdvanceStep(c), first, n).value) && Supported(Iterate(AdvanceStep(c), first, n).value)
  {
    AdvanceFollows(c);
    RunsAscend(c, AdvanceStep(c), first, m, n);
    var v := RunsAreBoundaries(c, AdvanceStep(c), first, m);
    var w := RunsAreBoundaries(c, AdvanceStep(c), first, n);
  }

  // ---------- the windows of consecutive runs tile time ----------

  lemma WindowBefore(c: Cadence, boundary: Instant)
    requires Supported(boundary) && IsBoundary(c, boundary)
    ensures SpansWindow(c, WindowOf(c, MinusSecond(boundary))) && WindowOf(c, MinusSecond(boundary)).end == boundary
  {
    WindowSpans(c, MinusSecond(boundary));
  }

  lemma BuildFromWindow(scheduleId: string, c: Cadence, boundary: Instant, w: Window)
    requires Supported(boundary) && ValidIdentifier(scheduleId, 160) && w == WindowOf(c, MinusSecond(boundary))
    requires w.end == boundary && w.start.day < w.end.day && w.start.nano == 0
    ensures BuildWindow(scheduleId, c, boundary) ==
            if w.start.day < 0 then Failure(OutOfRange) else Success(WindowBounds(w, WindowKey(scheduleId, c, w.start)))
  {
    NormalizeIdempotent(scheduleId);
    if w.start.day >= 0 {
      KeyAlwaysValid(Normalize(scheduleId), c, w.start, w.end);
    }
  }

  /** The report window of a boundary ends exactly there; it fails only when it would start before year 0. */
  lemma WindowOfBoundary(scheduleId: string, c: Cadence, boundary: Instant)
    requires Supported(boundary) && IsBoundary(c, boundary) && ValidIdentifier(scheduleId, 160)
    ensures var w := WindowOf(c, MinusSecond(boundary));
            && SpansWindow(c, w) && w.end == boundary
            && BuildWindow(scheduleId, c, boundary) ==
               if w.start.day < 0 then Failure(OutOfRange)
               else Success(WindowBounds(w, WindowKey(scheduleId, c, w.start)))
  {
    WindowBefore(c, boundary);
    BuildFromWindow(scheduleId, c, boundary, WindowOf(c, MinusSecond(boundary)));
  }

  /** The report window built at `run` holds t. */
  ghost predicate Reports(scheduleId: string, c: Cadence, run: Instant, t: Instant) {
    && Supported(run) && BuildWindow(scheduleId, c, run).Success?
    && Within(BuildWindow(scheduleId, c, run).value.window, t)
  }

  /** A run reports t exactly when it is the boundary that closes t's window, and that window starts in range. */
  lemma ReportsWhenClosing(scheduleId: string, c: Cadence, run: Instant, t: Instant)
    requires Supported(run) && IsBoundary(c, run) && IsInstant(t) && ValidIdentifier(scheduleId, 160)
    ensures Reports(scheduleId, c, run, t) <==> run == WindowOf(c, t).end && WindowOf(c, t).start.day >= 0
  {
    WindowOfBoundary(scheduleId, c, run);
    ClosingBoundary(c, run, t, WindowOf(c, MinusSecond(run)), WindowOf(c, t));
  }

  lemma ClosingBoundary(c: Cadence, run: Instant, t: Instant, v: Window, w: Window)
    requires IsInstant(t) && SpansWindow(c, v) && v.end == run && w == WindowOf(c, t)
    ensures Within(v, t) ==> v == w
    ensures run == w.end ==> v == w
    ensures Within(w, t)
  {
    WindowSpans(c, t);
    if Within(v, t) {
      SpanUnique(c, v, w, t);
    }
    if run == w.end {
      SpanUnique(c, v, w, Midnight(run.day - 1));
    }
  }

  /** Consecutive runs report adjacent windows with different keys. */
  lemma ConsecutiveWindowsAdjacent(scheduleId: string, c: Cadence, b: Instant, e: Instant)
    requires Supported(b) && IsBoundary(c, b) && ValidIdentifier(scheduleId, 160)
    requires AdvanceToNextRunAt(c, b) == Success(e)
    requires BuildWindow(scheduleId, c, b).Success?
    ensures Supported(e) && BuildWindow(scheduleId, c, e).Success?
    ensures BuildWindow(scheduleId, c, b).value.window.end == b == BuildWindow(scheduleId, c, e).value.window.start
    ensures BuildWindow(scheduleId, c, b).value.key != BuildWindow(scheduleId, c, e).value.key
  {
    var v, w := WindowOf(c, MinusSecond(b)), WindowOf(c, b);
    AdvanceFromBoundary(c, b);
    WindowOfBoundary(scheduleId, c, b);
    WindowOfBoundary(scheduleId, c, e);
    SpanUnique(c, w, WindowOf(c, MinusSecond(e)), MinusSecond(e));
    if WindowKey(scheduleId, c, v.start) == WindowKey(scheduleId, c, b) {
      KeysDecodeUniquely(scheduleId, c, v.start, scheduleId, c, b);
    }
  }

  /** Different boundaries report windows with different starts and different keys. */
  lemma BoundaryKeysDistinct(scheduleId: string, c: Cadence, b: Instant, e: Instant)
    requires Supported(b) && IsBoundary(c, b) && Supported(e) && IsBoundary(c, e) && b != e
             && ValidIdentifier(scheduleId, 160)
    requires BuildWindow(scheduleId, c, b).Success? && BuildWindow(scheduleId, c, e).Success?
    ensures BuildWindow(scheduleId, c, b).value.window.start != BuildWindow(scheduleId, c, e).value.window.start
    ensures BuildWindow(scheduleId, c, b).value.key != BuildWindow(scheduleId, c, e).value.key
  {
    WindowOfBoundary(scheduleId, c, b);
    WindowOfBoundary(scheduleId, c, e);
    var v, w := WindowOf(c, MinusSecond(b)), WindowOf(c, MinusSecond(e));
    if v.start == w.start {
      SpanUnique(c, v, w, v.start);
    }
    if WindowKey(scheduleId, c, v.start) == WindowKey(scheduleId, c, w.start) {
      KeysDecodeUniquely(scheduleId, c, v.start, scheduleId, c, w.start);
    }
  }

  /** Any two runs of a schedule report under different keys. */
  lemma RunKeysDistinct(scheduleId: string, c: Cadence, first: Instant, m: nat, n: nat)
    requires Supported(first) && IsBoundary(c, first) && ValidIdentifier(scheduleId, 160) && m < n
    requires Iterate(AdvanceStep(c), first, n).Success?
    ensures var b, e := Iterate(AdvanceStep(c), first, m), Iterate(AdvanceStep(c), first, n);
            && b.Success? && Supported(b.value) && Supported(e.value)
            && (BuildWindow(scheduleId, c, b.value).Success? && BuildWindow(scheduleId, c, e.value).Success? ==>
                  BuildWindow(scheduleId, c, b.value).value.key != BuildWindow(scheduleId, c, e.value).value.key)
  {
    RunsInOrder(c, first, m, n);
    var b, e := Iterate(AdvanceStep(c), first, m).value, Iterate(AdvanceStep(c), first, n).value;
    if BuildWindow(scheduleId, c, b).Success? && BuildWindow(scheduleId, c, e).Success? {
      BoundaryKeysDistinct(scheduleId, c, b, e);
    }
  }

  /**
   * From a boundary whose own window is representable, the windows of the runs cover every instant from that window's
   * start up to the last representable boundary, and each instant lies in the window of one run only.
   */
  lemma WindowsTileTime(scheduleId: string, c: Cadence, first: Instant, t: Instant)
    requires Supported(first) && IsBoundary(c, first) && ValidIdentifier(scheduleId, 160)
    requires BuildWindow(scheduleId, c, first).Success?
    requires Supported(t) && AtMost(BuildWindow(scheduleId, c, first).value.window.start, t)
    ensures WindowOf(c, t).end.day < LIMIT_DAY ==>
              exists m: nat :: Iterate(AdvanceStep(c), first, m) == Success(WindowOf(c, t).end)
                               && Reports(scheduleId, c, WindowOf(c, t).end, t)
    ensures forall m: nat, n: nat ::
              RunReports(scheduleId, c, first, m, t) && RunReports(scheduleId, c, first, n, t) ==> m == n
  {
    var w := WindowOf(c, t);
    WindowSpans(c, t);
    WindowOfBoundary(scheduleId, c, first);
    StartsWithin(c, WindowOf(c, MinusSecond(first)), w, t);
    if w.end.day < LIMIT_DAY {
      EveryBoundaryVisitedOnce(c, first, w.end);
      ReportsWhenClosing(scheduleId, c, w.end, t);
    }
    forall m: nat, n: nat | RunReports(scheduleId, c, first, m, t)
                            && RunReports(scheduleId, c, first, n, t) ensures m == n {
      RunReportsClosing(scheduleId, c, first, m, t);
      RunReportsClosing(scheduleId, c, first, n, t);
      EveryBoundaryVisitedOnce(c, first, w.end);
    }
  }

  /** The m-th run from `first` exists and reports t. */
  ghost predicate RunReports(scheduleId: string, c: Cadence, first: Instant, m: nat, t: Instant) {
    Iterate(AdvanceStep(c), first, m).Success? && Reports(scheduleId, c, Iterate(AdvanceStep(c), first, m).value, t)
  }

  lemma RunReportsClosing(scheduleId: string, c: Cadence, first: Instant, m: nat, t: Instant)
    requires Supported(first) && IsBoundary(c, first) && ValidIdentifier(scheduleId, 160) && IsInstant(t)
    requires RunReports(scheduleId, c, first, m, t)
    ensures Iterate(AdvanceStep(c), first, m) == Success(WindowOf(c, t).end) && Supported(WindowOf(c, t).end)
  {
    AdvanceFollows(c);
    var v := RunsAreBoundaries(c, AdvanceStep(c), first, m);
    ReportsWhenClosing(scheduleId, c, v.start, t);
  }

  lemma StartsWithin(c: Cadence, v: Window, w: Window, t: Instant)
    requires SpansWindow(c, v) && SpansWindow(c, w) && IsInstant(t) && AtMost(v.start, t) && Within(w, t)
    ensures v.start.day <= w.start.day && v.end.day <= w.end.day
  {
  }

  // ---------- window keys ----------

  lemma SecondsFit(t: Instant)
    requires Supported(t)
    ensures |IntText(UnixSeconds(t))| <= 12
  {
    var s := UnixSeconds(t);
    assert Pow10(11) == 100_000_000_000 by {
      assert Pow10(2) == 100;
      assert Pow10(4) == 10_000;
      assert Pow10(6) == 1_000_000;
      assert Pow10(8) == 100_000_000;
      assert Pow10(10) == 10_000_000_000;
    }
    assert Pow10(12) == 10 * Pow10(11);
    DecimalLength(if s < 0 then -s else s, if s < 0 then 11 else 12);
  }

  /** Whatever the schedule and the window, the composed key passes its own 200-character check. */
  lemma KeyAlwaysValid(scheduleId: string, c: Cadence, start: Instant, end: Instant)
    requires Supported(start) && Supported(end) && Before(start, end) && ValidIdentifier(scheduleId, 160)
    ensures ComposeWindowKey(scheduleId, c, start, end) == Success(WindowKey(scheduleId, c, start))
  {
    var key := WindowKey(scheduleId, c, start);
    NormalizeIdempotent(scheduleId);
    SecondsFit(start);
    IntTextShape(UnixSeconds(start));
    var id, seconds := Normalize(scheduleId), IntText(UnixSeconds(start));
    AppendCanonical("report-window::", id);
    AppendCanonical("report-window::" + id, "::");
    AppendCanonical("report-window::" + id + "::", CadenceText(c));
    AppendCanonical("report-window::" + id + "::" + CadenceText(c), "::");
    AppendCanonical("report-window::" + id + "::" + CadenceText(c) + "::", seconds);
    CanonicalIsNormal(key);
  }

  /**
   * The key names the schedule, the cadence and the unix second at which the window starts, counted from 1 January
   * 1970; it is refused exactly for a bad schedule id or a window that does not run forward.
   */
  lemma KeyReads(scheduleId: string, c: Cadence, start: Instant, end: Instant, year: int)
    requires Supported(start) && Supported(end) && year == 1970
    ensures ComposeWindowKey(scheduleId, c, start, end) ==
            if !(3 <= |Normalize(scheduleId)| <= 160 && AllCanonical(Normalize(scheduleId)))
            then Failure(InvalidIdentifier)
            else if !(start.day < end.day || (start.day == end.day && start.nano < end.nano))
            then Failure(WindowNotPositive)
            else Success("report-window::" + Normalize(scheduleId) + "::"
                         + (match c case Daily => "daily" case Weekly => "weekly" case Monthly => "monthly") + "::"
                         + IntText((start.day - DayNumber(Date(year, 1, 1))) * 86_400 + start.nano / 1_000_000_000))
  {
    Anchors(year);
    NormalizeIdempotent(scheduleId);
    if ValidIdentifier(scheduleId, 160) && Before(start, end) {
      KeyAlwaysValid(scheduleId, c, start, end);
    }
  }

  /** The key of a run's report is that of the window it closes, whose start it names. */
  lemma ReportKeyReads(scheduleId: string, c: Cadence, boundary: Instant, year: int)
    requires Supported(boundary) && IsBoundary(c, boundary) && ValidIdentifier(scheduleId, 160) && year == 1970
    requires BuildWindow(scheduleId, c, boundary).Success?
    ensures var bounds := BuildWindow(scheduleId, c, boundary).value;
            && SpansWindow(c, bounds.window) && bounds.window.end == boundary && bounds.window.start.nano == 0
            && bounds.key == "report-window::" + Normalize(scheduleId) + "::"
                             + (match c case Daily => "daily" case Weekly => "weekly" case Monthly => "monthly") + "::"
                             + IntText((bounds.window.start.day - DayNumber(Date(year, 1, 1))) * 86_400)
  {
    WindowOfBoundary(scheduleId, c, boundary);
    KeyReads(scheduleId, c, BuildWindow(scheduleId, c, boundary).value.window.start, boundary, year);
    KeyAlwaysValid(scheduleId, c, BuildWindow(scheduleId, c, boundary).value.window.start, boundary);
  }

  lemma AppendCanonical(a: string, b: string)
    requires AllCanonical(a) && AllCanonical(b)
    ensures AllCanonical(a + b)
  {
  }

  /** Equal keys name the same schedule, cadence and start, though a schedule id may itself contain colons. */
  lemma KeysDecodeUniquely(a: string, c: Cadence, x: Instant, b: string, d: Cadence, y: Instant)
    requires WindowKey(a, c, x) == WindowKey(b, d, y)
    requires x.nano == 0 == y.nano
    ensures Normalize(a) == Normalize(b) && c == d && x == y
  {
    IntTextShape(UnixSeconds(x));
    IntTextShape(UnixSeconds(y));
    var headA, headB := "report-window::" + Normalize(a), "report-window::" + Normalize(b);
    SplitKey(headA, CadenceText(c), IntText(UnixSeconds(x)), headB, CadenceText(d), IntText(UnixSeconds(y)));
    assert Normalize(a) == headA[15..] && Normalize(b) == headB[15..];
    assert c == d by {
      assert CadenceText(c)[0] == CadenceText(d)[0];
    }
    IntTextInjective(UnixSeconds(x), UnixSeconds(y));
  }

  lemma SplitKey(a: string, p: string, x: string, b: string, q: string, y: string)
    requires a + "::" + p + "::" + x == b + "::" + q + "::" + y
    requires ColonFree(p) && ColonFree(x) && ColonFree(q) && ColonFree(y)
    ensures a == b && p == q && x == y
  {
    assert a + "::" + p + "::" + x == (a + "::" + p + ":") + ":" + x;
    assert b + "::" + q + "::" + y == (b + "::" + q + ":") + ":" + y;
    LastColonSplit(a + "::" + p + ":", x, b + "::" + q + ":", y);
    var u, v := a + "::" + p, b + "::" + q;
    assert (u + ":")[..|u|] == u && (v + ":")[..|v|] == v;
    assert u == (a + ":") + ":" + p && v == (b + ":") + ":" + q;
    LastColonSplit(a + ":", p, b + ":", q);
    assert (a + ":")[..|a|] == a && (b + ":")[..|b|] == b;
  }
}
