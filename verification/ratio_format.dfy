/** Ratio rendering: the 12-decimal text of a number with its redundant zeros trimmed. */
module RatioFormat {
  import opened Text

  /** A number as `{value:.12}` prints it: sign bit, integer part, twelve fraction digits. */
  datatype Fixed = Fixed(negative: bool, whole: nat, fraction: string)

  predicate IsFixed(f: Fixed) {
    |f.fraction| == 12 && AllDigits(f.fraction)
  }

  function Head(f: Fixed): string {
    (if f.negative then "-" else "") + Decimal(f.whole)
  }

  function FixedText(f: Fixed): string {
    Head(f) + "." + f.fraction
  }

  function StripZeros(digits: string): string {
    if digits != "" && digits[|digits| - 1] == '0' then StripZeros(digits[..|digits| - 1]) else digits
  }

  function ShortFraction(digits: string): string {
    if StripZeros(digits) == "" then "0" else StripZeros(digits)
  }

  function RatioText(f: Fixed): string {
    Head(f) + "." + ShortFraction(f.fraction)
  }

  function Zeros(n: nat): string {
    seq(n, _ => '0')
  }

  /** The fraction written out to twelve digits again. */
  function Padded(digits: string): string
    requires |digits| <= 12
  {
    digits + Zeros(12 - |digits|)
  }

  lemma {:induction false} StripZerosShape(digits: string)
    ensures |StripZeros(digits)| <= |digits|
    ensures digits == StripZeros(digits) + Zeros(|digits| - |StripZeros(digits)|)
    ensures StripZeros(digits) != "" ==> StripZeros(digits)[|StripZeros(digits)| - 1] != '0'
  {
    if digits != "" && digits[|digits| - 1] == '0' {
      StripZerosShape(digits[..|digits| - 1]);
      assert digits == digits[..|digits| - 1] + "0";
    }
  }

  /** The trim loop of format_ratio_decimal; its final comparison with "-0" never succeeds. */
  method FormatRatioDecimal(value: Fixed) returns (formatted: string)
    requires IsFixed(value)
    ensures formatted == RatioText(value)
  {
    formatted := FixedText(value);
    ghost var head := Head(value) + ".";
    ghost var kept := value.fraction;
    while '.' in formatted && formatted[|formatted| - 1] == '0'
      invariant formatted == head + kept && kept <= value.fraction
      invariant StripZeros(kept) == StripZeros(value.fraction)
      decreases |formatted|
    {
      assert head[|head| - 1] == '.';
      formatted := formatted[..|formatted| - 1];
      kept := kept[..|kept| - 1];
    }
    assert formatted[|Head(value)|] == '.';
    if formatted[|formatted| - 1] == '.' {
      DigitsHaveNoPoint(kept);
      formatted := formatted + "0";
    }
    if formatted == "-0" {
      formatted := "0";
    }
  }

  lemma DigitsHaveNoPoint(digits: string)
    requires AllDigits(digits)
    ensures '.' !in digits
  {
  }

  /** At least one fraction digit, no redundant zero, and the twelve digits come back by padding. */
  lemma ShortFractionShape(digits: string)
    requires |digits| == 12 && AllDigits(digits)
    ensures var short := ShortFraction(digits);
            && 1 <= |short| <= 12 && AllDigits(short)
            && (|short| > 1 ==> short[|short| - 1] != '0')
            && Padded(short) == digits
  {
    StripZerosShape(digits);
    var stripped := StripZeros(digits);
    assert stripped == digits[..|stripped|];
    assert Padded("0") == Zeros(12);
  }

  /** A ratio's text: the sign, the whole part, a point, and the fraction without its redundant zeros. */
  lemma RatioReads(f: Fixed) returns (digits: string)
    requires IsFixed(f)
    ensures RatioText(f) == (if f.negative then "-" else "") + Decimal(f.whole) + "." + digits
    ensures 1 <= |digits| <= 12 && digits + Zeros(12 - |digits|) == f.fraction
    ensures |digits| > 1 ==> digits[|digits| - 1] != '0'
    ensures DecimalValue(Decimal(f.whole)) == f.whole && (|Decimal(f.whole)| > 1 ==> Decimal(f.whole)[0] != '0')
  {
    digits := ShortFraction(f.fraction);
    ShortFractionShape(f.fraction);
    DecimalRoundTrip(f.whole);
    DecimalLeads(f.whole);
  }

  lemma SplitAtPoint(a: string, x: string, b: string, y: string)
    requires a + "." + x == b + "." + y && '.' !in x && '.' !in y
    ensures a == b && x == y
  {
    PointPosition(a, x, a + "." + x);
    PointPosition(b, y, a + "." + x);
  }

  lemma PointPosition(a: string, x: string, s: string)
    requires s == a + "." + x && '.' !in x
    ensures |a| < |s| && s[|a|] == '.' && s[..|a|] == a && s[|a| + 1..] == x
    ensures forall i :: |a| < i < |s| ==> s[i] != '.'
  {
    forall i | |a| < i < |s| ensures s[i] != '.' {
      assert s[i] == x[i - |a| - 1];
    }
  }

  /** Different 12-decimal renderings stay different: the trim loses nothing. */
  lemma RatioTextInjective(f: Fixed, g: Fixed)
    requires IsFixed(f) && IsFixed(g) && RatioText(f) == RatioText(g)
    ensures f == g
  {
    ShortFractionShape(f.fraction);
    ShortFractionShape(g.fraction);
    DigitsHaveNoPoint(ShortFraction(f.fraction));
    DigitsHaveNoPoint(ShortFraction(g.fraction));
    SplitAtPoint(Head(f), ShortFraction(f.fraction), Head(g), ShortFraction(g.fraction));
    assert f.negative <==> Head(f)[0] == '-';
    assert g.negative <==> Head(g)[0] == '-';
    assert Decimal(f.whole) == Head(f)[if f.negative then 1 else 0..];
    assert Decimal(g.whole) == Head(g)[if g.negative then 1 else 0..];
    DecimalRoundTrip(f.whole);
    DecimalRoundTrip(g.whole);
  }

  /** So negative zero keeps its sign, although the source means to drop it. */
  lemma NegativeZeroKept()
    ensures RatioText(Fixed(true, 0, Zeros(12))) == "-0.0"
    ensures RatioText(Fixed(true, 0, Zeros(12))) != RatioText(Fixed(false, 0, Zeros(12)))
  {
    StripZerosShape(Zeros(12));
    assert Decimal(0) == "0";
    assert Zeros(12)[|StripZeros(Zeros(12))| - 1 + if StripZeros(Zeros(12)) == "" then 1 else 0] == '0';
  }
}
