/** Identifier text: trimming, ASCII lower case, code-point order, decimal numbers and colon-separated keys. */
module Text {
  import StableSort

  // ---------- trim and ASCII lower case ----------

  /** The Unicode White_Space characters, which Rust's str::trim removes. */
  predicate IsWhitespace(c: char) {
    '\t' <= c <= '\r' || c == ' ' || c == '\U{85}' || c == '\U{A0}' || c == '\U{1680}' ||
    '\U{2000}' <= c <= '\U{200A}' || c == '\U{2028}' || c == '\U{2029}' || c == '\U{202F}' ||
    c == '\U{205F}' || c == '\U{3000}'
  }

  function TrimStart(s: string): string {
    if s != [] && IsWhitespace(s[0]) then TrimStart(s[1..]) else s
  }

  function TrimEnd(s: string): string {
    if s != [] && IsWhitespace(s[|s| - 1]) then TrimEnd(s[..|s| - 1]) else s
  }

  function Trim(s: string): string {
    TrimEnd(TrimStart(s))
  }

  predicate Blank(s: string) {
    Trim(s) == ""
  }

  predicate Trimmed(s: string) {
    s == "" || (!IsWhitespace(s[0]) && !IsWhitespace(s[|s| - 1]))
  }

  function LowerChar(c: char): char {
    if 'A' <= c <= 'Z' then (c as int - 'A' as int + 'a' as int) as char else c
  }

  function Lower(s: string): (r: string)
    ensures |r| == |s| && forall i :: 0 <= i < |s| ==> r[i] == LowerChar(s[i])
  {
    seq(|s|, i requires 0 <= i < |s| => LowerChar(s[i]))
  }

  /** raw.trim().to_ascii_lowercase(), the one normaliser every domain module repeats. */
  function Normalize(s: string): string {
    Lower(Trim(s))
  }

  lemma TrimStartShape(s: string)
    ensures TrimStart(s) == "" || !IsWhitespace(TrimStart(s)[0])
  {
  }

  lemma TrimEndShape(s: string)
    ensures TrimEnd(s) == "" || !IsWhitespace(TrimEnd(s)[|TrimEnd(s)| - 1])
    ensures TrimEnd(s) <= s
  {
  }

  lemma TrimIsTrimmed(s: string)
    ensures Trimmed(Trim(s))
  {
    TrimStartShape(s);
    TrimEndShape(TrimStart(s));
  }

  lemma TrimmedIsFixed(s: string)
    requires Trimmed(s)
    ensures Trim(s) == s
  {
  }

  lemma NormalizeIdempotent(s: string)
    ensures Normalize(Normalize(s)) == Normalize(s)
  {
    TrimIsTrimmed(s);
    TrimmedIsFixed(Lower(Trim(s)));
    assert Lower(Lower(Trim(s))) == Lower(Trim(s));
  }

  lemma {:induction false} TrimStartKeeps(s: string, i: nat)
    requires i < |s| && !IsWhitespace(s[i])
    ensures TrimStart(s) != ""
  {
    if IsWhitespace(s[0]) {
      TrimStartKeeps(s[1..], i - 1);
    }
  }

  /** Text with a visible character is not blank. */
  lemma NotBlank(s: string, i: nat)
    requires i < |s| && !IsWhitespace(s[i])
    ensures !Blank(s)
  {
    TrimStartKeeps(s, i);
    TrimStartShape(s);
    TrimEndKeeps(TrimStart(s));
  }

  lemma TrimEndKeeps(s: string)
    requires s != "" && !IsWhitespace(s[0])
    ensures TrimEnd(s) != ""
  {
  }

  predicate AllWhitespace(s: string) {
    forall i :: 0 <= i < |s| ==> IsWhitespace(s[i])
  }

  lemma {:induction false} TrimStartDrops(s: string) returns (a: string)
    ensures s == a + TrimStart(s) && AllWhitespace(a)
  {
    if s != "" && IsWhitespace(s[0]) {
      var rest := TrimStartDrops(s[1..]);
      a := [s[0]] + rest;
    } else {
      a := "";
    }
  }

  lemma {:induction false} TrimEndDrops(s: string) returns (b: string)
    ensures s == TrimEnd(s) + b && AllWhitespace(b)
  {
    if s != "" && IsWhitespace(s[|s| - 1]) {
      var rest := TrimEndDrops(s[..|s| - 1]);
      b := rest + [s[|s| - 1]];
    } else {
      b := "";
    }
  }

  /**
   * Trimming drops whitespace at the two ends until none is left there; normalising then moves the capitals A to Z to
   * a to z and leaves every other character alone.
   */
  lemma NormalizeReads(s: string) returns (a: string, b: string)
    ensures s == a + Trim(s) + b && AllWhitespace(a) && AllWhitespace(b)
    ensures Trim(s) != "" ==> !IsWhitespace(Trim(s)[0]) && !IsWhitespace(Trim(s)[|Trim(s)| - 1])
    ensures |Normalize(s)| == |Trim(s)|
    ensures forall i :: 0 <= i < |Trim(s)| ==>
                          var c := Trim(s)[i]; Normalize(s)[i] as int == c as int + if 'A' <= c <= 'Z' then 32 else 0
  {
    TrimIsTrimmed(s);
    a := TrimStartDrops(s);
    b := TrimEndDrops(TrimStart(s));
  }

  lemma NormalizeKeepsBlank(s: string)
    ensures Blank(Normalize(s)) <==> Blank(s)
  {
    TrimIsTrimmed(s);
    TrimmedIsFixed(Lower(Trim(s)));
  }

  // ---------- canonical identifiers ----------

  predicate IsCanonicalChar(c: char) {
    'a' <= c <= 'z' || '0' <= c <= '9' || c in "._:-"
  }

  predicate AllCanonical(s: string) {
    forall i :: 0 <= i < |s| ==> IsCanonicalChar(s[i])
  }

  lemma CanonicalIsNormal(s: string)
    requires AllCanonical(s)
    ensures Normalize(s) == s
  {
    assert forall i :: 0 <= i < |s| ==> IsCanonicalChar(s[i]) && !IsWhitespace(s[i]);
    TrimmedIsFixed(s);
    assert Lower(s) == s;
  }

  /** The domain's shared identifier rule: 3 to 120 canonical characters once trimmed and lower-cased. */
  predicate CanonicalId(value: string) {
    3 <= |Normalize(value)| <= 120 && AllCanonical(Normalize(value))
  }

  lemma CanonicalIdReads(value: string)
    ensures CanonicalId(value) <==>
            && 3 <= |Normalize(value)| <= 120
            && forall i :: 0 <= i < |Normalize(value)| ==>
                             Normalize(value)[i] in "abcdefghijklmnopqrstuvwxyz0123456789._:-"
  {
    forall c: char ensures IsCanonicalChar(c) <==> c in "abcdefghijklmnopqrstuvwxyz0123456789._:-" {
      CanonicalCharReads(c);
    }
  }

  lemma CanonicalCharReads(c: char)
    ensures IsCanonicalChar(c) <==> c in "abcdefghijklmnopqrstuvwxyz0123456789._:-"
  {
  }

  // ---------- code-point order ----------

  /** Rust's String order: bytewise on UTF-8, which is the order of code points. */
  predicate TextLeq(a: string, b: string) {
    a == "" || (b != "" && (a[0] < b[0] || (a[0] == b[0] && TextLeq(a[1..], b[1..]))))
  }

  lemma TextLeqReflexive(a: string)
    ensures TextLeq(a, a)
  {
  }

  lemma TextLeqTotal(a: string, b: string)
    ensures TextLeq(a, b) || TextLeq(b, a)
  {
  }

  lemma {:induction false} TextLeqAntisymmetric(a: string, b: string)
    requires TextLeq(a, b) && TextLeq(b, a)
    ensures a == b
  {
    if a != "" {
      TextLeqAntisymmetric(a[1..], b[1..]);
      assert a == [a[0]] + a[1..] && b == [b[0]] + b[1..];
    }
  }

  lemma {:induction false} TextLeqTransitive(a: string, b: string, c: string)
    requires TextLeq(a, b) && TextLeq(b, c)
    ensures TextLeq(a, c)
  {
    if a != "" && a[0] == b[0] && b[0] == c[0] {
      TextLeqTransitive(a[1..], b[1..], c[1..]);
    }
  }

  lemma TextLeqOrder()
    ensures StableSort.TotalPreorder(TextLeq)
  {
    forall x, y ensures TextLeq(x, y) || TextLeq(y, x) {
      TextLeqTotal(x, y);
    }
    forall x, y, z | TextLeq(x, y) && TextLeq(y, z) ensures TextLeq(x, z) {
      TextLeqTransitive(x, y, z);
    }
  }

  lemma {:induction false} TextLeqSharedPrefix(p: string, a: string, b: string)
    ensures TextLeq(p + a, p + b) == TextLeq(a, b)
  {
    if p == "" {
      assert p + a == a && p + b == b;
    } else {
      assert (p + a)[1..] == p[1..] + a && (p + b)[1..] == p[1..] + b;
      TextLeqSharedPrefix(p[1..], a, b);
    }
  }

  // ---------- timestamps ordered by their text ----------

  predicate LatestFirst(times: seq<int>) {
    forall i, j :: 0 <= i < j < |times| ==> times[i] >= times[j]
  }

  /** The texts of a whole second and of the instant half a second later. */
  predicate HalfSecondApart(whole: string, half: string) {
    whole == "2026-04-06T15:00:00Z" && half == "2026-04-06T15:00:00.5Z"
  }

  /** The later text is the smaller one. */
  lemma HalfSecondSortsFirst(whole: string, half: string)
    requires HalfSecondApart(whole, half)
    ensures TextLeq(half, whole) && !TextLeq(whole, half)
  {
    assert half == "2026-04-06T15:00:00" + ".5Z" && whole == "2026-04-06T15:00:00" + "Z";
    PointBeforeZ("2026-04-06T15:00:00", whole, half);
  }

  lemma PointBeforeZ(stem: string, whole: string, half: string)
    requires whole == stem + "Z" && half == stem + ".5Z"
    ensures TextLeq(half, whole) && !TextLeq(whole, half)
  {
    TextLeqSharedPrefix(stem, ".5Z", "Z");
    TextLeqSharedPrefix(stem, "Z", ".5Z");
  }

  // ---------- decimal numbers ----------

  predicate IsDigit(c: char) {
    '0' <= c <= '9'
  }

  predicate AllDigits(s: string) {
    forall i :: 0 <= i < |s| ==> IsDigit(s[i])
  }

  function Digit(d: nat): (c: char)
    requires d < 10
    ensures IsDigit(c)
  {
    ('0' as int + d) as char
  }

  function Decimal(n: nat): (s: string)
    ensures s != "" && AllDigits(s)
  {
    if n < 10 then [Digit(n)] else Decimal(n / 10) + [Digit(n % 10)]
  }

  function DecimalValue(s: string): nat
    requires AllDigits(s)
  {
    if s == "" then 0 else 10 * DecimalValue(s[..|s| - 1]) + (s[|s| - 1] as int - '0' as int)
  }

  lemma {:induction false} DecimalRoundTrip(n: nat)
    ensures DecimalValue(Decimal(n)) == n
  {
    if n >= 10 {
      DecimalRoundTrip(n / 10);
      assert Decimal(n)[..|Decimal(n)| - 1] == Decimal(n / 10);
    } else {
      assert Decimal(n)[..0] == "";
    }
  }

  /** No redundant zero in front. */
  lemma {:induction false} DecimalLeads(n: nat)
    ensures n > 0 ==> Decimal(n)[0] != '0'
    ensures |Decimal(n)| > 1 ==> Decimal(n)[0] != '0'
  {
    if n >= 10 {
      DecimalLeads(n / 10);
      assert Decimal(n)[0] == Decimal(n / 10)[0];
    }
  }

  function IntText(i: int): string {
    if i < 0 then "-" + Decimal(-i) else Decimal(i)
  }

  /** A minus sign for numbers below zero, then decimal digits without a redundant zero in front. */
  lemma IntTextReads(i: int) returns (digits: string)
    ensures IntText(i) == (if i < 0 then "-" else "") + digits
    ensures digits != "" && AllDigits(digits) && DecimalValue(digits) == if i < 0 then -i else i
    ensures |digits| > 1 ==> digits[0] != '0'
  {
    digits := Decimal(if i < 0 then -i else i);
    DecimalRoundTrip(if i < 0 then -i else i);
    DecimalLeads(if i < 0 then -i else i);
  }

  lemma IntTextInjective(i: int, j: int)
    requires IntText(i) == IntText(j)
    ensures i == j
  {
    DecimalRoundTrip(if i < 0 then -i else i);
    DecimalRoundTrip(if j < 0 then -j else j);
    assert i < 0 ==> IntText(i)[0] == '-' && IntText(i)[1..] == Decimal(-i);
    assert j < 0 ==> IntText(j)[0] == '-' && IntText(j)[1..] == Decimal(-j);
  }

  function Pow10(k: nat): nat
    ensures Pow10(k) > 0
  {
    if k == 0 then 1 else 10 * Pow10(k - 1)
  }

  lemma {:induction false} DecimalLength(n: nat, k: nat)
    requires k > 0 && n < Pow10(k)
    ensures |Decimal(n)| <= k
  {
    if n >= 10 {
      assert k > 1 by {
        assert Pow10(1) == 10 * Pow10(0) == 10;
      }
      DecimalLength(n / 10, k - 1);
    }
  }

  // ---------- colon-separated keys ----------

  predicate ColonFree(s: string) {
    ':' !in s
  }

  /** Where the last colon of s is. */
  lemma LastColon(a: string, x: string, s: string)
    requires s == a + ":" + x && ColonFree(x)
    ensures |a| < |s| && s[|a|] == ':' && s[..|a|] == a && s[|a| + 1..] == x
    ensures forall i :: |a| < i < |s| ==> s[i] != ':'
  {
    forall i | |a| < i < |s| ensures s[i] != ':' {
      assert s[i] == x[i - |a| - 1];
    }
  }

  /** The text after the last colon is determined by the whole, so a key is read back from the right. */
  lemma LastColonSplit(a: string, x: string, b: string, y: string)
    requires a + ":" + x == b + ":" + y
    requires ColonFree(x) && ColonFree(y)
    ensures a == b && x == y
  {
    LastColon(a, x, a + ":" + x);
    LastColon(b, y, a + ":" + x);
  }

  lemma IntTextShape(i: int)
    ensures IntText(i) != "" && ColonFree(IntText(i)) && AllCanonical(IntText(i))
  {
  }
}
