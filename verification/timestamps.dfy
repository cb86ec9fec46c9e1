/**
 * The RFC 3339 text (section 5.6) of a UTC instant, as the writer used for report timestamps composes it: the fraction
 * without its trailing zeros, and no point for a whole second. Instants are unix nanoseconds in years 0 to 9999.
 */
module Timestamps {
  import opened Text
  import opened RatioFormat
  import opened Calendar

  const NANOS: int := 1_000_000_000

  const DAY_SECONDS: int := 86_400

  function SecondOf(instant: int): int {
    instant / NANOS
  }

  function DayOf(instant: int): int {
    SecondOf(instant) / DAY_SECONDS + EPOCH_DAY
  }

  predicate InRange(instant: int) {
    0 <= DayOf(instant) < LIMIT_DAY
  }

  // ---------- the text ----------

  /** n in k digits. */
  function Pad(n: nat, k: nat): (s: string)
    ensures |s| == k && AllDigits(s)
  {
    if k == 0 then "" else Pad(n / 10, k - 1) + [Digit(n % 10)]
  }

  ghost function DateText(day: int): string
    requires 0 <= day
  {
    var d := DateOf(day);
    YearNotNegative(d);
    Pad(d.year, 4) + ("-" + (Pad(d.month, 2) + ("-" + Pad(d.day, 2))))
  }

  function ClockText(second: nat): string {
    Pad(second / 3600, 2) + (":" + (Pad(second / 60 % 60, 2) + (":" + Pad(second % 60, 2))))
  }

  function FractionDigits(instant: int): string {
    StripZeros(Pad(instant % NANOS, 9))
  }

  function FractionText(instant: int): string {
    if FractionDigits(instant) == "" then "Z" else "." + (FractionDigits(instant) + "Z")
  }

  ghost function SecondText(second: int): string
    requires 0 <= second / DAY_SECONDS + EPOCH_DAY
  {
    DateText(second / DAY_SECONDS + EPOCH_DAY) + ("T" + ClockText(second % DAY_SECONDS))
  }

  ghost function TimestampText(instant: int): string
    requires InRange(instant)
  {
    SecondText(SecondOf(instant)) + FractionText(instant)
  }

  lemma YearNotNegative(d: Date)
    requires ValidDate(d) && DayNumber(d) >= 0
    ensures d.year >= 0
  {
    if d.year < 0 {
      LaterMonthLaterDay(d, Date(0, 1, 1));
    }
  }

  // ---------- the text of a date and a time of day ----------

  lemma {:induction false} PadValue(n: nat, k: nat)
    requires n < Pow10(k)
    ensures DecimalValue(Pad(n, k)) == n
  {
    if k > 0 {
      PadValue(n / 10, k - 1);
      assert Pad(n, k)[..k - 1] == Pad(n / 10, k - 1);
    }
  }

  lemma YearFits(d: Date)
    requires ValidDate(d) && 0 <= d.year < 10_000
    ensures 0 <= DayNumber(d) < LIMIT_DAY
  {
    Anchors(10_000);
    DayNumberBounds(d);
    YearsAscend(0, d.year);
    YearsAscend(d.year + 1, 10_000);
  }

  /** The instant of a date and a time of day, counted from 1 January 1970. */
  function InstantOf(d: Date, epoch: Date, hour: nat, minute: nat, second: nat, nanos: nat): int
    requires 1 <= d.month <= 12 && 1 <= epoch.month <= 12
  {
    (((DayNumber(d) - DayNumber(epoch)) * 24 + hour) * 60 + minute) * 60_000_000_000 + second * 1_000_000_000 + nanos
  }

  lemma InstantParts(day: int, hour: nat, minute: nat, second: nat, nanos: nat)
    requires hour < 24 && minute < 60 && second < 60 && nanos < 1_000_000_000
    ensures var t := ((day * 24 + hour) * 60 + minute) * 60_000_000_000 + second * 1_000_000_000 + nanos;
            && t % NANOS == nanos && SecondOf(t) / DAY_SECONDS == day
            && SecondOf(t) % DAY_SECONDS == (hour * 60 + minute) * 60 + second
  {
    var s := ((day * 24 + hour) * 60 + minute) * 60 + second;
    QuotientIs(s * NANOS + nanos, NANOS, s);
    QuotientIs(s, DAY_SECONDS, day);
  }

  lemma ClockParts(hour: nat, minute: nat, second: nat)
    requires minute < 60 && second < 60
    ensures var s := (hour * 60 + minute) * 60 + second; s / 3600 == hour && s / 60 % 60 == minute && s % 60 == second
  {
    var s := (hour * 60 + minute) * 60 + second;
    QuotientIs(s, 3600, hour);
    QuotientIs(s, 60, hour * 60 + minute);
  }

  lemma ClockReads(s: nat, hour: nat, minute: nat, second: nat)
    requires s / 3600 == hour && s / 60 % 60 == minute && s % 60 == second
    ensures ClockText(s) == Pad(hour, 2) + (":" + (Pad(minute, 2) + (":" + Pad(second, 2))))
  {
  }

  /** The text of an instant is its date and time of day, field by field, and the fraction without trailing zeros. */
  lemma TimestampReads(d: Date, epoch: Date, hour: nat, minute: nat, second: nat, nanos: nat)
    requires ValidDate(d) && 0 <= d.year < 10_000 && epoch == Date(1970, 1, 1)
    requires hour < 24 && minute < 60 && second < 60 && nanos < 1_000_000_000
    ensures InRange(InstantOf(d, epoch, hour, minute, second, nanos))
    ensures TimestampText(InstantOf(d, epoch, hour, minute, second, nanos))
         == Pad(d.year, 4) + "-" + Pad(d.month, 2) + "-" + Pad(d.day, 2) + "T"
            + Pad(hour, 2) + ":" + Pad(minute, 2) + ":" + Pad(second, 2)
            + if nanos == 0 then "Z" else "." + StripZeros(Pad(nanos, 9)) + "Z"
  {
    var instant := InstantOf(d, epoch, hour, minute, second, nanos);
    InstantOfParts(d, epoch, hour, minute, second, nanos);
    ClockParts(hour, minute, second);
    FractionReads(instant);
    TextReads(instant, d, (hour * 60 + minute) * 60 + second, hour, minute, second);
  }

  lemma InstantOfParts(d: Date, epoch: Date, hour: nat, minute: nat, second: nat, nanos: nat)
    requires ValidDate(d) && 0 <= d.year < 10_000 && epoch == Date(1970, 1, 1)
    requires hour < 24 && minute < 60 && second < 60 && nanos < 1_000_000_000
    ensures var t := InstantOf(d, epoch, hour, minute, second, nanos);
            && InRange(t) && DayOf(t) == DayNumber(d) && t % NANOS == nanos
            && SecondOf(t) % DAY_SECONDS == (hour * 60 + minute) * 60 + second
  {
    Anchors(epoch.year);
    YearFits(d);
    InstantParts(DayNumber(d) - EPOCH_DAY, hour, minute, second, nanos);
  }

  lemma TextReads(instant: int, d: Date, s: nat, hour: nat, minute: nat, second: nat)
    requires InRange(instant) && ValidDate(d) && d.year >= 0 && DayOf(instant) == DayNumber(d)
    requires SecondOf(instant) % DAY_SECONDS == s && s / 3600 == hour && s / 60 % 60 == minute && s % 60 == second
    ensures TimestampText(instant)
         == Pad(d.year, 4) + "-" + Pad(d.month, 2) + "-" + Pad(d.day, 2) + "T"
            + Pad(hour, 2) + ":" + Pad(minute, 2) + ":" + Pad(second, 2) + FractionText(instant)
  {
    DateOfDayNumber(d);
    ClockReads(s, hour, minute, second);
    Flatten(Pad(d.year, 4), Pad(d.month, 2), Pad(d.day, 2), Pad(hour, 2), Pad(minute, 2), Pad(second, 2));
  }

  lemma FractionReads(instant: int)
    ensures FractionText(instant)
         == if instant % NANOS == 0 then "Z" else "." + StripZeros(Pad(instant % NANOS, 9)) + "Z"
  {
    var n := instant % NANOS;
    NinePower();
    PadZero(9);
    StripsToNothing(9);
    if StripZeros(Pad(n, 9)) == "" {
      StripZerosShape(Pad(n, 9));
      assert Pad(n, 9) == "" + Zeros(9) == Pad(0, 9);
      PadValue(n, 9);
      PadValue(0, 9);
    } else {
      assert "." + (StripZeros(Pad(n, 9)) + "Z") == "." + StripZeros(Pad(n, 9)) + "Z";
    }
  }

  lemma Flatten(y: string, m: string, d: string, h: string, n: string, s: string)
    ensures (y + ("-" + (m + ("-" + d)))) + ("T" + (h + (":" + (n + (":" + s)))))
         == y + "-" + m + "-" + d + "T" + h + ":" + n + ":" + s
  {
  }

  // ---------- where two texts first differ ----------

  predicate DifferAt(a: string, b: string, k: nat) {
    k < |a| && k < |b| && a[..k] == b[..k] && a[k] < b[k]
  }

  ghost predicate Precedes(a: string, b: string) {
    exists k: nat :: DifferAt(a, b, k)
  }

  lemma PrecedingIsLess(a: string, b: string)
    requires Precedes(a, b)
    ensures TextLeq(a, b) && !TextLeq(b, a)
  {
    var k: nat :| DifferAt(a, b, k);
    var x, y := a[k..], b[k..];
    assert a == a[..k] + x && b == a[..k] + y;
    TextLeqSharedPrefix(a[..k], x, y);
    TextLeqSharedPrefix(a[..k], y, x);
  }

  /** Whatever follows the difference. */
  lemma PrecedesLonger(a: string, b: string, x: string, y: string)
    requires Precedes(a, b)
    ensures Precedes(a + x, b + y)
  {
    var k: nat :| DifferAt(a, b, k);
    assert (a + x)[..k] == a[..k] && (b + y)[..k] == b[..k];
    assert DifferAt(a + x, b + y, k);
  }

  lemma PrecedesAfter(p: string, a: string, b: string)
    requires Precedes(a, b)
    ensures Precedes(p + a, p + b)
  {
    var k: nat :| DifferAt(a, b, k);
    assert (p + a)[..|p| + k] == p + a[..k] && (p + b)[..|p| + k] == p + b[..k];
    assert DifferAt(p + a, p + b, |p| + k);
  }

  /** A leading part decides, or the parts after equal ones do. */
  lemma PrecedesByParts(a: string, b: string, x: string, y: string)
    requires Precedes(a, b) || (a == b && Precedes(x, y))
    ensures Precedes(a + x, b + y)
  {
    if Precedes(a, b) {
      PrecedesLonger(a, b, x, y);
    } else {
      PrecedesAfter(a, x, y);
    }
  }

  lemma {:induction false} PadPrecedes(n: nat, m: nat, k: nat)
    requires n < m < Pow10(k)
    ensures Precedes(Pad(n, k), Pad(m, k))
  {
    if n / 10 < m / 10 {
      PadPrecedes(n / 10, m / 10, k - 1);
      PrecedesLonger(Pad(n / 10, k - 1), Pad(m / 10, k - 1), [Digit(n % 10)], [Digit(m % 10)]);
    } else {
      assert DifferAt([Digit(n % 10)], [Digit(m % 10)], 0);
      PrecedesAfter(Pad(n / 10, k - 1), [Digit(n % 10)], [Digit(m % 10)]);
    }
  }

  /** Two fields and the separator between them. */
  lemma FieldsPrecede(n: nat, m: nat, k: nat, separator: string, x: string, y: string)
    requires n < m < Pow10(k) || (n == m && Precedes(x, y))
    ensures Precedes(Pad(n, k) + (separator + x), Pad(m, k) + (separator + y))
  {
    if n < m {
      PadPrecedes(n, m, k);
    } else {
      PrecedesAfter(separator, x, y);
    }
    PrecedesByParts(Pad(n, k), Pad(m, k), separator + x, separator + y);
  }

  // ---------- later seconds have greater texts ----------

  lemma Powers()
    ensures Pow10(2) == 100 && Pow10(4) == 10_000
  {
    assert Pow10(1) == 10 * Pow10(0);
    assert Pow10(2) == 10 * Pow10(1);
    assert Pow10(3) == 10 * Pow10(2);
  }

  lemma NinePower()
    ensures Pow10(9) == NANOS
  {
    Powers();
    assert Pow10(5) == 10 * Pow10(4);
    assert Pow10(6) == 10 * Pow10(5);
    assert Pow10(7) == 10 * Pow10(6);
    assert Pow10(8) == 10 * Pow10(7);
  }

  /** Hour, minute and second of the day. */
  lemma ClockFields(s: nat, t: nat)
    requires s < t < DAY_SECONDS
    ensures t / 3600 < 24
    ensures s / 3600 < t / 3600 || (s / 3600 == t / 3600 && s % 3600 < t % 3600)
  {
  }

  lemma MinuteFields(s: nat, t: nat)
    requires s % 3600 < t % 3600
    ensures s / 60 % 60 < t / 60 % 60 || (s / 60 % 60 == t / 60 % 60 && s % 60 < t % 60)
  {
    MinuteOfHour(s);
    MinuteOfHour(t);
  }

  lemma MinuteOfHour(s: nat)
    ensures s / 60 % 60 == s % 3600 / 60 && s % 60 == s % 3600 % 60
  {
    var h := s / 3600;
    assert s == 3600 * h + s % 3600;
    assert s / 60 == 60 * h + s % 3600 / 60;
  }

  lemma ClockPrecedes(s: nat, t: nat)
    requires s < t < DAY_SECONDS
    ensures Precedes(ClockText(s), ClockText(t))
  {
    Powers();
    ClockFields(s, t);
    if s / 3600 == t / 3600 {
      MinuteFields(s, t);
      MinutesPrecede(s / 60 % 60, t / 60 % 60, s % 60, t % 60);
    }
    FieldsPrecede(s / 3600, t / 3600, 2, ":", Pad(s / 60 % 60, 2) + (":" + Pad(s % 60, 2)),
                  Pad(t / 60 % 60, 2) + (":" + Pad(t % 60, 2)));
  }

  lemma MinutesPrecede(m: nat, n: nat, s: nat, t: nat)
    requires n < 60 && t < 60 && (m < n || (m == n && s < t))
    ensures Precedes(Pad(m, 2) + (":" + Pad(s, 2)), Pad(n, 2) + (":" + Pad(t, 2)))
  {
    Powers();
    if m == n {
      PadPrecedes(s, t, 2);
    }
    FieldsPrecede(m, n, 2, ":", Pad(s, 2), Pad(t, 2));
  }

  lemma YearInFourDigits(d: Date)
    requires ValidDate(d) && DayNumber(d) < LIMIT_DAY
    ensures d.year < 10_000
  {
    Anchors(10_000);
    if d.year >= 10_000 {
      DayNumberBounds(d);
      YearsAscend(10_000, d.year);
    }
  }

  lemma DatePrecedes(d: int, e: int)
    requires 0 <= d < e < LIMIT_DAY
    ensures Precedes(DateText(d), DateText(e))
  {
    DatesPrecede(DateOf(d), DateOf(e));
  }

  lemma DatesPrecede(x: Date, y: Date)
    requires ValidDate(x) && ValidDate(y) && 0 <= DayNumber(x) < DayNumber(y) < LIMIT_DAY
    ensures x.year >= 0 && y.year >= 0
    ensures Precedes(Pad(x.year, 4) + ("-" + (Pad(x.month, 2) + ("-" + Pad(x.day, 2)))),
                     Pad(y.year, 4) + ("-" + (Pad(y.month, 2) + ("-" + Pad(y.day, 2)))))
  {
    Powers();
    YearNotNegative(x);
    YearNotNegative(y);
    YearInFourDigits(y);
    if y.year < x.year || (y.year == x.year && y.month < x.month) {
      LaterMonthLaterDay(y, x);
    }
    if x.year == y.year && x.month == y.month {
      PadPrecedes(x.day, y.day, 2);
    }
    if x.year == y.year {
      FieldsPrecede(x.month, y.month, 2, "-", Pad(x.day, 2), Pad(y.day, 2));
    }
    FieldsPrecede(x.year, y.year, 4, "-", Pad(x.month, 2) + ("-" + Pad(x.day, 2)),
                  Pad(y.month, 2) + ("-" + Pad(y.day, 2)));
  }

  lemma SecondPrecedes(s: int, t: int)
    requires s < t && 0 <= s / DAY_SECONDS + EPOCH_DAY && t / DAY_SECONDS + EPOCH_DAY < LIMIT_DAY
    ensures Precedes(SecondText(s), SecondText(t))
  {
    SecondPartsPrecede(s / DAY_SECONDS + EPOCH_DAY, t / DAY_SECONDS + EPOCH_DAY, s % DAY_SECONDS, t % DAY_SECONDS);
  }

  lemma SecondPartsPrecede(d: int, e: int, s: nat, t: nat)
    requires 0 <= d && e < LIMIT_DAY && t < DAY_SECONDS && (d < e || (d == e && s < t))
    ensures Precedes(DateText(d) + ("T" + ClockText(s)), DateText(e) + ("T" + ClockText(t)))
  {
    if d < e {
      DatePrecedes(d, e);
    } else {
      ClockPrecedes(s, t);
      PrecedesAfter("T", ClockText(s), ClockText(t));
    }
    PrecedesByParts(DateText(d), DateText(e), "T" + ClockText(s), "T" + ClockText(t));
  }

  // ---------- within one second ----------

  /** e is earlier in the same second as f, and its fraction digits are the first of those of f. */
  predicate Clash(e: int, f: int) {
    e < f && SecondOf(e) == SecondOf(f) && FractionDigits(e) < FractionDigits(f)
  }

  /** Past its stripped digits a fraction is zeros. */
  lemma StrippedIs(digits: string, k: nat)
    requires k < |digits|
    ensures |StripZeros(digits)| <= |digits|
    ensures if k < |StripZeros(digits)| then StripZeros(digits)[k] == digits[k] else digits[k] == '0'
  {
    StripZerosShape(digits);
  }

  lemma StrippedPrefix(digits: string)
    ensures StripZeros(digits) <= digits
  {
    StripZerosShape(digits);
  }

  /** Of two fractions, the digits of the lesser differ from those of the greater, unless they are its first digits. */
  lemma FractionsDiffer(n: nat, m: nat)
    requires n < m < NANOS
    ensures var p, q := StripZeros(Pad(n, 9)), StripZeros(Pad(m, 9)); p < q || Precedes(p, q)
  {
    NinePower();
    PadPrecedes(n, m, 9);
    var a, b := Pad(n, 9), Pad(m, 9);
    StrippedDiffer(a, b);
  }

  lemma StrippedDiffer(a: string, b: string)
    requires |a| == |b| && AllDigits(a) && Precedes(a, b)
    ensures StripZeros(a) < StripZeros(b) || Precedes(StripZeros(a), StripZeros(b))
  {
    var k: nat :| DifferAt(a, b, k);
    var p, q := StripZeros(a), StripZeros(b);
    StrippedIs(a, k);
    StrippedIs(b, k);
    StrippedPrefix(a);
    StrippedPrefix(b);
    assert k < |q|;
    if k < |p| {
      assert p[..k] == a[..k] == b[..k] == q[..k];
      assert DifferAt(p, q, k);
    } else {
      assert p == a[..k][..|p|] == b[..k][..|p|] == q[..|p|];
    }
  }

  lemma PrefixFollows(p: string, q: string)
    requires p < q && AllDigits(q)
    ensures Precedes(q + "Z", p + "Z")
  {
    assert (q + "Z")[..|p|] == p == (p + "Z")[..|p|];
    assert IsDigit(q[|p|]);
    assert DifferAt(q + "Z", p + "Z", |p|);
  }

  lemma DigitsStripped(instant: int)
    ensures AllDigits(FractionDigits(instant))
  {
    StrippedPrefix(Pad(instant % NANOS, 9));
  }

  /** Within one second the later text is the smaller one exactly when the two clash. */
  lemma FractionOrder(e: int, f: int)
    requires e < f && SecondOf(e) == SecondOf(f)
    ensures if Clash(e, f) then Precedes(FractionText(f), FractionText(e))
            else Precedes(FractionText(e), FractionText(f))
  {
    var p, q := FractionDigits(e), FractionDigits(f);
    DigitsStripped(f);
    assert e % NANOS < f % NANOS;
    FractionsDiffer(e % NANOS, f % NANOS);
    if p == "" {
      assert DifferAt(FractionText(f), FractionText(e), 0);
    } else if p < q {
      PrefixFollows(p, q);
      PrecedesAfter(".", q + "Z", p + "Z");
    } else {
      PrecedesLonger(p, q, "Z", "Z");
      PrecedesAfter(".", p + "Z", q + "Z");
    }
  }

  /** The writer's texts are ordered as their instants, except that of two that clash the later is the smaller. */
  lemma TextOrder(e: int, f: int)
    requires InRange(e) && InRange(f) && e < f
    ensures TextLeq(TimestampText(e), TimestampText(f)) <==> !Clash(e, f)
    ensures TextLeq(TimestampText(f), TimestampText(e)) <==> Clash(e, f)
  {
    var s, t := SecondOf(e), SecondOf(f);
    if s < t {
      SecondPrecedes(s, t);
      PrecedesLonger(SecondText(s), SecondText(t), FractionText(e), FractionText(f));
      PrecedingIsLess(TimestampText(e), TimestampText(f));
    } else {
      FractionOrder(e, f);
      if Clash(e, f) {
        PrecedesAfter(SecondText(s), FractionText(f), FractionText(e));
        PrecedingIsLess(TimestampText(f), TimestampText(e));
      } else {
        PrecedesAfter(SecondText(s), FractionText(e), FractionText(f));
        PrecedingIsLess(TimestampText(e), TimestampText(f));
      }
    }
  }

  /** As a comparison of texts, for instants that may be equal. */
  lemma WrittenInOrder(e: int, f: int, x: string, y: string)
    requires InRange(e) && InRange(f) && e <= f && x == TimestampText(e) && y == TimestampText(f)
    ensures TextLeq(x, y) <==> !Clash(e, f)
  {
    if e < f {
      TextOrder(e, f);
    } else {
      TextLeqReflexive(x);
    }
  }

  /** A whole second clashes with every later instant of that second. */
  lemma WholeSecondClashes(e: int, f: int)
    requires e % NANOS == 0 && e < f < e + NANOS
    ensures Clash(e, f)
  {
    assert SecondOf(e) == SecondOf(f) && f % NANOS > 0;
    FractionsDiffer(0, f % NANOS);
    PadZero(9);
    StripZerosShape(Pad(0, 9));
    StripsToNothing(9);
  }

  lemma {:induction false} PadZero(k: nat)
    ensures Pad(0, k) == Zeros(k)
  {
    if k > 0 {
      PadZero(k - 1);
    }
  }

  lemma {:induction false} StripsToNothing(k: nat)
    ensures StripZeros(Zeros(k)) == ""
  {
    if k > 0 {
      assert Zeros(k)[..k - 1] == Zeros(k - 1);
      StripsToNothing(k - 1);
    }
  }
}
