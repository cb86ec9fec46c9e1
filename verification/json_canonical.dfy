/**
 * Canonical restore output: metadata fields dropped, object fields sorted, ratio numbers rendered as text. An object
 * is the sequence of fields its map iterates over; serde_json keeps their keys distinct, and its numbers always read
 * back as a finite f64, so the source's two ratio errors cannot occur.
 */
module JsonCanonical {
  import opened Wrappers
  import opened Text
  import opened StableSort
  import opened RatioFormat

  /** A number: the text it is stored as, and its f64 reading at twelve decimals. */
  datatype JsonNumber = JsonNumber(token: string, reading: Fixed)

  datatype Field = Field(key: string, value: Json)

  datatype Json =
    | Null
    | Bool(truth: bool)
    | Number(number: JsonNumber)
    | Str(text: string)
    | Array(items: seq<Json>)
    | Object(fields: seq<Field>)

  ghost predicate DistinctKeys(fields: seq<Field>) {
    forall i, j :: 0 <= i < j < |fields| ==> fields[i].key != fields[j].key
  }

  ghost predicate WellFormed(j: Json) {
    match j
    case Number(n) => IsFixed(n.reading)
    case Array(items) => forall i :: 0 <= i < |items| ==> WellFormed(items[i])
    case Object(fields) => DistinctKeys(fields) && forall i :: 0 <= i < |fields| ==> WellFormed(fields[i].value)
    case _ => true
  }

  // ---------- the canonical form ----------

  const EXCLUDED := {
    "run_id", "started_at_utc", "completed_at_utc", "duration_ms", "duration_seconds",
    "wall_clock_duration_ms", "wall_clock_duration_seconds"
  }

  predicate Excluded(key: string) {
    Lower(key) in EXCLUDED
  }

  predicate Shown(f: Field) {
    !Excluded(f.key)
  }

  predicate Contains(s: string, part: string) {
    part <= s || (s != "" && Contains(s[1..], part))
  }

  predicate IsRatioKey(key: Option<string>) {
    key.Some? && (Contains(Lower(key.value), "ratio") || Contains(Lower(key.value), "mismatch_rate"))
  }

  predicate KeyLeq(f: Field, g: Field) {
    TextLeq(f.key, g.key)
  }

  /** The fields that stay, in key order. */
  function Visible(fields: seq<Field>): (kept: seq<Field>)
    ensures forall f :: f in kept <==> f in fields && !Excluded(f.key)
  {
    SortContents(KeyLeq, fields);
    Filter(Shown, Sort(KeyLeq, fields))
  }

  function Canonical(j: Json, key: Option<string>): Json {
    match j
    case Array(items) => Array(seq(|items|, i requires 0 <= i < |items| => Canonical(items[i], None)))
    case Object(fields) =>
      var kept := Visible(fields);
      assert forall i :: 0 <= i < |kept| ==> kept[i] in fields;
      Object(seq(|kept|, i requires 0 <= i < |kept| => Field(kept[i].key, Canonical(kept[i].value, Some(kept[i].key)))))
    case Number(n) => if IsRatioKey(key) then Str(RatioText(n.reading)) else j
    case _ => j
  }

  function CanonicalField(f: Field): Field {
    Field(f.key, Canonical(f.value, Some(f.key)))
  }

  lemma FilterNext(fields: seq<Field>, i: nat)
    requires i < |fields|
    ensures Filter(Shown, fields[..i + 1]) == Filter(Shown, fields[..i]) + if Shown(fields[i]) then [fields[i]] else []
  {
    assert fields[..i + 1] == fields[..i] + [fields[i]];
    FilterAppend(Shown, fields[..i], [fields[i]]);
  }

  /** canonicalize_json_value; its array and object loops follow. */
  method CanonicalizeJsonValue(j: Json, key: Option<string>) returns (r: Json)
    requires WellFormed(j)
    ensures r == Canonical(j, key)
    decreases j, 1
  {
    match j
    case Array(items) =>
      r := CanonicalizeArray(j, key);
    case Object(fields) =>
      r := CanonicalizeObject(j, key);
    case Number(n) =>
      if IsRatioKey(key) {
        var text := FormatRatioDecimal(n.reading);
        r := Str(text);
      } else {
        r := j;
      }
    case Null => r := j;
    case Bool(_) => r := j;
    case Str(_) => r := j;
  }

  method CanonicalizeArray(j: Json, key: Option<string>) returns (r: Json)
    requires WellFormed(j) && j.Array?
    ensures r == Canonical(j, key)
    decreases j, 0
  {
    var canonical := [];
    for i := 0 to |j.items|
      invariant |canonical| == i
      invariant forall k :: 0 <= k < i ==> canonical[k] == Canonical(j.items[k], None)
    {
      var entry := CanonicalizeJsonValue(j.items[i], None);
      canonical := canonical + [entry];
    }
    r := Array(canonical);
  }

  method CanonicalizeObject(j: Json, key: Option<string>) returns (r: Json)
    requires WellFormed(j) && j.Object?
    ensures r == Canonical(j, key)
    decreases j, 0
  {
    var sorted := Sort(KeyLeq, j.fields);
    SortContents(KeyLeq, j.fields);
    var canonical := [];
    ghost var kept := [];
    for i := 0 to |sorted|
      invariant kept == Filter(Shown, sorted[..i]) && |canonical| == |kept|
      invariant forall k :: 0 <= k < |kept| ==> canonical[k] == CanonicalField(kept[k])
    {
      FieldOf(j, sorted[i]);
      FilterNext(sorted, i);
      if !Excluded(sorted[i].key) {
        var entry := CanonicalizeJsonValue(sorted[i].value, Some(sorted[i].key));
        canonical, kept := canonical + [Field(sorted[i].key, entry)], kept + [sorted[i]];
      }
    }
    assert sorted[..|sorted|] == sorted && kept == Visible(j.fields);
    CanonicalObject(j.fields, canonical, key);
    r := Object(canonical);
  }

  lemma FieldOf(j: Json, f: Field)
    requires WellFormed(j) && j.Object? && f in j.fields
    ensures WellFormed(f.value) && f.value < j
  {
  }

  lemma CanonicalObject(fields: seq<Field>, out: seq<Field>, key: Option<string>)
    requires |out| == |Visible(fields)|
    requires forall i :: 0 <= i < |out| ==> out[i] == CanonicalField(Visible(fields)[i])
    ensures Canonical(Object(fields), key) == Object(out)
  {
    assert Canonical(Object(fields), key).fields == out;
  }

  // ---------- reference: what a document says, order and metadata aside ----------

  datatype Doc =
    | DNull
    | DBool(truth: bool)
    | DNumber(number: JsonNumber)
    | DText(text: string)
    | DList(items: seq<Doc>)
    | DFields(fields: map<string, Doc>)

  ghost function VisibleKeys(fields: seq<Field>): set<string> {
    set f | f in fields && !Excluded(f.key) :: f.key
  }

  ghost function Lookup(fields: seq<Field>, key: string): (v: Json)
    requires exists f :: f in fields && f.key == key
    ensures Field(key, v) in fields
  {
    var f :| f in fields && f.key == key;
    f.value
  }

  ghost function Meaning(j: Json, key: Option<string>): Doc {
    match j
    case Null => DNull
    case Bool(b) => DBool(b)
    case Str(s) => DText(s)
    case Number(n) => if IsRatioKey(key) then DText(RatioText(n.reading)) else DNumber(n)
    case Array(items) => DList(seq(|items|, i requires 0 <= i < |items| => Meaning(items[i], None)))
    case Object(fields) =>
      DFields(map k | k in VisibleKeys(fields) :: Meaning(Lookup(fields, k), Some(k)))
  }

  // ---------- keys of the visible fields ----------

  lemma KeyLeqIsOrder()
    ensures TotalPreorder(KeyLeq)
  {
    forall f, g ensures KeyLeq(f, g) || KeyLeq(g, f) {
      TextLeqTotal(f.key, g.key);
    }
    forall f, g, h | KeyLeq(f, g) && KeyLeq(g, h) ensures KeyLeq(f, h) {
      TextLeqTransitive(f.key, g.key, h.key);
    }
  }

  lemma DistinctMembers(fields: seq<Field>, f: Field, g: Field)
    requires DistinctKeys(fields) && f in fields && g in fields && f.key == g.key
    ensures f == g
  {
  }

  lemma LookupMember(fields: seq<Field>, f: Field)
    requires DistinctKeys(fields) && f in fields
    ensures Lookup(fields, f.key) == f.value
  {
    DistinctMembers(fields, f, Field(f.key, Lookup(fields, f.key)));
  }

  /** Filtering keeps order and multiplicity. */
  lemma {:induction false} FilterSorted<T(!new)>(leq: (T, T) -> bool, keep: T -> bool, s: seq<T>)
    requires Sorted(leq, s)
    ensures Sorted(leq, Filter(keep, s))
    ensures multiset(Filter(keep, s)) <= multiset(s)
  {
    if s != [] {
      FilterSorted(leq, keep, s[1..]);
      assert s == [s[0]] + s[1..];
      var rest := Filter(keep, s[1..]);
      forall j | 0 <= j < |rest| ensures leq(s[0], rest[j]) {
        assert rest[j] in s[1..];
      }
    }
  }

  lemma DistinctFromMultiset(s: seq<Field>, t: seq<Field>)
    requires DistinctKeys(s) && multiset(t) <= multiset(s)
    ensures DistinctKeys(t)
  {
    var key := (f: Field) => f.key;
    assert forall i, j :: 0 <= i < j < |s| ==> key(s[i]) == s[i].key && key(s[j]) == s[j].key;
    DistinctDrawn(key, s, t);
    forall i, j | 0 <= i < j < |t| ensures t[i].key != t[j].key {
      assert key(t[i]) != key(t[j]);
    }
  }

  lemma VisibleStrict(fields: seq<Field>)
    requires DistinctKeys(fields)
    ensures Sorted(KeyLeq, Visible(fields)) && DistinctKeys(Visible(fields))
  {
    KeyLeqIsOrder();
    SortSorted(KeyLeq, fields);
    SortContents(KeyLeq, fields);
    FilterSorted(KeyLeq, Shown, Sort(KeyLeq, fields));
    DistinctFromMultiset(fields, Visible(fields));
  }

  ghost function KeysOf(fields: seq<Field>): set<string> {
    set f | f in fields :: f.key
  }

  lemma {:induction false} SameKeysSameOrder(s: seq<Field>, t: seq<Field>)
    requires Sorted(KeyLeq, s) && DistinctKeys(s) && Sorted(KeyLeq, t) && DistinctKeys(t)
    requires KeysOf(s) == KeysOf(t)
    ensures |s| == |t| && forall i :: 0 <= i < |s| ==> s[i].key == t[i].key
  {
    assert s != [] ==> s[0] in s && s[0].key in KeysOf(t);
    assert t != [] ==> t[0] in t && t[0].key in KeysOf(s);
    if s != [] {
      HeadKeyLeast(s, t[0].key);
      HeadKeyLeast(t, s[0].key);
      TextLeqAntisymmetric(s[0].key, t[0].key);
      TailKeys(s);
      TailKeys(t);
      SameKeysSameOrder(s[1..], t[1..]);
    }
  }

  lemma HeadKeyLeast(s: seq<Field>, key: string)
    requires Sorted(KeyLeq, s) && key in KeysOf(s)
    ensures TextLeq(s[0].key, key)
  {
    TextLeqReflexive(s[0].key);
    var f :| f in s && f.key == key;
    assert KeyLeq(s[0], f);
  }

  lemma TailKeys(s: seq<Field>)
    requires DistinctKeys(s) && s != []
    ensures KeysOf(s[1..]) == KeysOf(s) - {s[0].key}
  {
    forall f | f in s && f.key != s[0].key ensures f in s[1..] {
    }
    forall f | f in s[1..] ensures f.key != s[0].key {
    }
  }

  // ---------- the canonical form determines, and is determined by, the meaning ----------

  lemma {:induction false} CanonicalKeepsMeaning(j: Json, key: Option<string>)
    requires WellFormed(j)
    ensures WellFormed(Canonical(j, key)) && Meaning(Canonical(j, key), key) == Meaning(j, key)
    decreases j
  {
    match j
    case Array(items) =>
      forall i | 0 <= i < |items|
        ensures WellFormed(Canonical(items[i], None))
                && Meaning(Canonical(items[i], None), None) == Meaning(items[i], None)
      {
        CanonicalKeepsMeaning(items[i], None);
      }
    case Object(fields) =>
      var kept, out := Visible(fields), Canonical(j, key).fields;
      forall i | 0 <= i < |kept|
        ensures kept[i] in fields && out[i].key == kept[i].key && WellFormed(out[i].value)
        ensures Meaning(out[i].value, Some(out[i].key)) == Meaning(kept[i].value, Some(out[i].key))
      {
        assert kept[i] in kept;
        CanonicalKeepsMeaning(kept[i].value, Some(kept[i].key));
      }
      ObjectKeepsMeaning(fields, out, key);
    case _ =>
  }

  /** out carries the visible fields, in order, with values of the same meaning. */
  ghost predicate CarriesVisible(fields: seq<Field>, out: seq<Field>) {
    && |out| == |Visible(fields)|
    && forall i :: 0 <= i < |out| ==>
                     && Visible(fields)[i] in fields && out[i].key == Visible(fields)[i].key && WellFormed(out[i].value)
                     && Meaning(out[i].value, Some(out[i].key)) == Meaning(Visible(fields)[i].value, Some(out[i].key))
  }

  lemma MeaningByKeys(fs: seq<Field>, gs: seq<Field>, key: Option<string>)
    requires VisibleKeys(fs) == VisibleKeys(gs)
    requires forall k :: k in VisibleKeys(fs) ==> Meaning(Lookup(fs, k), Some(k)) == Meaning(Lookup(gs, k), Some(k))
    ensures Meaning(Object(fs), key) == Meaning(Object(gs), key)
  {
    assert Meaning(Object(fs), key).fields == Meaning(Object(gs), key).fields;
  }

  lemma CarriedWellFormed(fields: seq<Field>, out: seq<Field>)
    requires DistinctKeys(fields) && CarriesVisible(fields, out)
    ensures WellFormed(Object(out))
  {
    CarriedKeysDistinct(fields, out);
  }

  lemma ObjectKeepsMeaning(fields: seq<Field>, out: seq<Field>, key: Option<string>)
    requires DistinctKeys(fields) && CarriesVisible(fields, out)
    ensures WellFormed(Object(out)) && Meaning(Object(out), key) == Meaning(Object(fields), key)
  {
    CarriedKeysDistinct(fields, out);
    CarriedWellFormed(fields, out);
    CanonicalKeys(fields, out);
    forall k | k in VisibleKeys(out) ensures Meaning(Lookup(out, k), Some(k)) == Meaning(Lookup(fields, k), Some(k)) {
      FieldKeepsMeaning(fields, out, k);
    }
    MeaningByKeys(out, fields, key);
  }

  lemma CarriedKeysDistinct(fields: seq<Field>, out: seq<Field>)
    requires DistinctKeys(fields) && CarriesVisible(fields, out)
    ensures DistinctKeys(out)
  {
    VisibleStrict(fields);
    assert forall i :: 0 <= i < |out| ==> out[i].key == Visible(fields)[i].key;
  }

  lemma FieldKeepsMeaning(fields: seq<Field>, out: seq<Field>, k: string)
    requires DistinctKeys(fields) && DistinctKeys(out) && CarriesVisible(fields, out)
    requires k in VisibleKeys(out) && k in VisibleKeys(fields)
    ensures Meaning(Lookup(out, k), Some(k)) == Meaning(Lookup(fields, k), Some(k))
  {
    var f :| f in out && f.key == k;
    var i :| 0 <= i < |out| && out[i] == f;
    LookupMember(out, f);
    LookupMember(fields, Visible(fields)[i]);
  }

  lemma CanonicalKeys(fields: seq<Field>, out: seq<Field>)
    requires |out| == |Visible(fields)| && forall i :: 0 <= i < |out| ==> out[i].key == Visible(fields)[i].key
    ensures VisibleKeys(out) == VisibleKeys(fields)
  {
    var kept := Visible(fields);
    forall k | k in VisibleKeys(fields) ensures k in VisibleKeys(out) {
      var f :| f in fields && !Excluded(f.key) && f.key == k;
      assert f in kept;
      var i :| 0 <= i < |kept| && kept[i] == f;
      assert out[i] in out;
    }
    forall k | k in VisibleKeys(out) ensures k in VisibleKeys(fields) {
      var f :| f in out && !Excluded(f.key) && f.key == k;
      var i :| 0 <= i < |out| && out[i] == f;
      assert kept[i] in kept;
    }
  }

  lemma VisibleAligned(fs: seq<Field>, gs: seq<Field>)
    requires DistinctKeys(fs) && DistinctKeys(gs) && VisibleKeys(fs) == VisibleKeys(gs)
    ensures |Visible(fs)| == |Visible(gs)|
    ensures forall i :: 0 <= i < |Visible(fs)| ==>
                          var f, g := Visible(fs)[i], Visible(gs)[i];
                          && f in fs && g in gs && f.key == g.key && f.key in VisibleKeys(fs)
                          && f.value == Lookup(fs, f.key) && g.value == Lookup(gs, f.key)
  {
    var s, t := Visible(fs), Visible(gs);
    VisibleStrict(fs);
    VisibleStrict(gs);
    assert VisibleKeys(fs) == KeysOf(s) && VisibleKeys(gs) == KeysOf(t);
    SameKeysSameOrder(s, t);
    forall i | 0 <= i < |s|
      ensures s[i] in fs && t[i] in gs && s[i].key in VisibleKeys(fs)
      ensures s[i].value == Lookup(fs, s[i].key) && t[i].value == Lookup(gs, s[i].key)
    {
      assert s[i] in s && t[i] in t;
      LookupMember(fs, s[i]);
      LookupMember(gs, t[i]);
    }
  }

  lemma SameCanonicalObject(fs: seq<Field>, gs: seq<Field>, key: Option<string>)
    requires |Visible(fs)| == |Visible(gs)|
    requires forall i :: 0 <= i < |Visible(fs)| ==> CanonicalField(Visible(fs)[i]) == CanonicalField(Visible(gs)[i])
    ensures Canonical(Object(fs), key) == Canonical(Object(gs), key)
  {
    CanonicalObject(gs, seq(|Visible(gs)|, i requires 0 <= i < |Visible(gs)| => CanonicalField(Visible(gs)[i])), key);
    CanonicalObject(fs, Canonical(Object(gs), key).fields, key);
  }

  lemma {:induction false} MeaningFixesCanonical(a: Json, b: Json, key: Option<string>)
    requires WellFormed(a) && WellFormed(b) && Meaning(a, key) == Meaning(b, key)
    ensures Canonical(a, key) == Canonical(b, key)
    decreases a
  {
    match a
    case Array(items) =>
      forall i | 0 <= i < |items| ensures Canonical(items[i], None) == Canonical(b.items[i], None) {
        assert Meaning(items[i], None) == Meaning(a, key).items[i] == Meaning(b, key).items[i];
        MeaningFixesCanonical(items[i], b.items[i], None);
      }
    case Object(fields) =>
      var s, t := Visible(fields), Visible(b.fields);
      assert VisibleKeys(fields) == Meaning(a, key).fields.Keys == Meaning(b, key).fields.Keys == VisibleKeys(b.fields);
      VisibleAligned(fields, b.fields);
      forall i | 0 <= i < |s| ensures CanonicalField(s[i]) == CanonicalField(t[i]) {
        assert Meaning(a, key).fields[s[i].key] == Meaning(b, key).fields[s[i].key];
        MeaningFixesCanonical(s[i].value, t[i].value, Some(s[i].key));
      }
      SameCanonicalObject(fields, b.fields, key);
    case _ =>
  }

  /** Equal canonical forms are exactly equal meanings. */
  lemma CanonicalIffMeaning(a: Json, b: Json, key: Option<string>)
    requires WellFormed(a) && WellFormed(b)
    ensures Canonical(a, key) == Canonical(b, key) <==> Meaning(a, key) == Meaning(b, key)
  {
    CanonicalKeepsMeaning(a, key);
    CanonicalKeepsMeaning(b, key);
    if Meaning(a, key) == Meaning(b, key) {
      MeaningFixesCanonical(a, b, key);
    }
  }

  lemma CanonicalIdempotent(j: Json, key: Option<string>)
    requires WellFormed(j)
    ensures Canonical(Canonical(j, key), key) == Canonical(j, key)
  {
    CanonicalKeepsMeaning(j, key);
    MeaningFixesCanonical(Canonical(j, key), j, key);
  }

  // ---------- reordering fields and editing metadata change nothing ----------

  /** Alike but for the order of fields and for excluded fields, at every depth. */
  ghost predicate AgreeOutsideMetadata(a: Json, b: Json) {
    match (a, b)
    case (Array(xs), Array(ys)) => |xs| == |ys| && forall i :: 0 <= i < |xs| ==> AgreeOutsideMetadata(xs[i], ys[i])
    case (Object(fs), Object(gs)) =>
      && VisibleKeys(fs) == VisibleKeys(gs)
      && forall k :: k in VisibleKeys(fs) ==> AgreeOutsideMetadata(Lookup(fs, k), Lookup(gs, k))
    case _ => a == b
  }

  lemma {:induction false} AgreeingMeansSame(a: Json, b: Json, key: Option<string>)
    requires AgreeOutsideMetadata(a, b)
    ensures Meaning(a, key) == Meaning(b, key)
    decreases a
  {
    match (a, b)
    case (Array(xs), Array(ys)) =>
      forall i | 0 <= i < |xs| ensures Meaning(xs[i], None) == Meaning(ys[i], None) {
        AgreeingMeansSame(xs[i], ys[i], None);
      }
    case (Object(fs), Object(gs)) =>
      forall k | k in VisibleKeys(fs) ensures Meaning(Lookup(fs, k), Some(k)) == Meaning(Lookup(gs, k), Some(k)) {
        AgreeingMeansSame(Lookup(fs, k), Lookup(gs, k), Some(k));
      }
      MeaningByKeys(fs, gs, key);
    case _ =>
  }

  /** Permuting fields or adding, removing or editing metadata anywhere leaves the canonical form alone. */
  lemma CanonicalIgnoresMetadata(a: Json, b: Json, key: Option<string>)
    requires WellFormed(a) && WellFormed(b) && AgreeOutsideMetadata(a, b)
    ensures Canonical(a, key) == Canonical(b, key)
  {
    AgreeingMeansSame(a, b, key);
    MeaningFixesCanonical(a, b, key);
  }

  // ---------- replay evidence ----------

  datatype ReplayEvidence = ReplayEvidence(signature: string, prior: Option<string>, matches: Option<bool>,
                                           mismatchReported: bool)

  /** `sign` stands for JSON text followed by SHA-256. */
  function BuildReplayEvidence(output: Json, prior: Option<string>, sign: Json -> string): ReplayEvidence {
    var signature := sign(Canonical(output, None));
    var matches := if prior.Some? then Some(prior.value == signature) else None;
    ReplayEvidence(signature, prior, matches, matches == Some(false))
  }

  /**
   * Against the signature of an earlier output's evidence, a replay matches exactly when the two outputs mean the same,
   * which is when the two signatures are equal; without one there is nothing to match.
   */
  lemma ReplayMatchesIffSameMeaning(earlier: Json, later: Json, prior: Option<string>, sign: Json -> string)
    requires WellFormed(earlier) && WellFormed(later)
    requires sign(Canonical(earlier, None)) == sign(Canonical(later, None)) ==>
               Canonical(earlier, None) == Canonical(later, None)
    ensures var first := BuildReplayEvidence(earlier, prior, sign);
            var evidence := BuildReplayEvidence(later, Some(first.signature), sign);
            && evidence.matches == Some(Meaning(earlier, None) == Meaning(later, None))
            && (evidence.mismatchReported <==> Meaning(earlier, None) != Meaning(later, None))
            && (evidence.signature == first.signature <==> Meaning(earlier, None) == Meaning(later, None))
            && evidence.prior == Some(first.signature) && evidence.signature == sign(Canonical(later, None))
            && first.prior == prior && (prior == None ==> first.matches == None && !first.mismatchReported)
  {
    CanonicalIffMeaning(earlier, later, None);
  }

  // ---------- the canonical form read off the fields ----------

  predicate OccursAt(part: string, s: string, i: int) {
    0 <= i <= |s| - |part| && s[i..i + |part|] == part
  }

  /** part occurs in s. */
  ghost predicate OccursIn(part: string, s: string) {
    exists i :: OccursAt(part, s, i)
  }

  lemma {:induction false} ContainsIff(s: string, part: string)
    ensures Contains(s, part) <==> OccursIn(part, s)
  {
    if Contains(s, part) {
      var i := WhereContained(s, part);
    }
    if i :| OccursAt(part, s, i) {
      OccurrenceContained(s, part, i);
    }
  }

  lemma {:induction false} WhereContained(s: string, part: string) returns (i: nat)
    requires Contains(s, part)
    ensures OccursAt(part, s, i)
  {
    if part <= s {
      i := 0;
    } else {
      var k := WhereContained(s[1..], part);
      i := k + 1;
    }
  }

  lemma {:induction false} OccurrenceContained(s: string, part: string, i: nat)
    requires OccursAt(part, s, i)
    ensures Contains(s, part)
  {
    if i > 0 {
      assert s[1..][i - 1..i - 1 + |part|] == part;
      OccurrenceContained(s[1..], part, i - 1);
    }
  }

  ghost predicate HasField(fields: seq<Field>, key: string) {
    exists f :: f in fields && f.key == key
  }

  /**
   * Of an object's fields exactly those stay whose key, in lower case, is none of seven; a number under a key that
   * mentions a ratio or a mismatch rate becomes text, and every other plain value stays as it is.
   */
  lemma FieldsRead(fields: seq<Field>, key: Option<string>, f: Field)
    requires WellFormed(Object(fields)) && f in fields
    ensures var kept := Canonical(Object(fields), key).fields;
            && (HasField(kept, f.key) <==>
                Lower(f.key) !in {"run_id", "started_at_utc", "completed_at_utc", "duration_ms", "duration_seconds",
                                  "wall_clock_duration_ms", "wall_clock_duration_seconds"})
            && (forall i, j :: 0 <= i < j < |kept| ==> kept[i].key != kept[j].key && TextLeq(kept[i].key, kept[j].key))
            && forall g :: g in kept && g.key == f.key ==>
                             match f.value
                             case Number(n) =>
                               g.value == if OccursIn("ratio", Lower(f.key)) || OccursIn("mismatch_rate", Lower(f.key))
                                          then Str(RatioText(n.reading)) else f.value
                             case Null => g.value == f.value
                             case Bool(_) => g.value == f.value
                             case Str(_) => g.value == f.value
                             case Array(_) => g.value == Canonical(f.value, None)
                             case Object(_) => g.value == Canonical(f.value, None)
  {
    KeptInOrder(fields, key);
    FieldKept(fields, key, f);
    FieldValueReads(f);
  }

  lemma FieldValueReads(f: Field)
    ensures match f.value
            case Number(n) =>
              CanonicalField(f).value
              == if OccursIn("ratio", Lower(f.key)) || OccursIn("mismatch_rate", Lower(f.key))
                 then Str(RatioText(n.reading)) else f.value
            case Array(_) => CanonicalField(f).value == Canonical(f.value, None)
            case Object(_) => CanonicalField(f).value == Canonical(f.value, None)
            case _ => CanonicalField(f).value == f.value
  {
    ContainsIff(Lower(f.key), "ratio");
    ContainsIff(Lower(f.key), "mismatch_rate");
  }

  /** A field stays exactly when it is not excluded, and then canonical and under its key only. */
  lemma FieldKept(fields: seq<Field>, key: Option<string>, f: Field)
    requires WellFormed(Object(fields)) && f in fields
    ensures var kept := Canonical(Object(fields), key).fields;
            && (HasField(kept, f.key) <==> !Excluded(f.key))
            && forall g :: g in kept && g.key == f.key ==> g == CanonicalField(f)
  {
    var kept, visible := Canonical(Object(fields), key).fields, Visible(fields);
    forall i | 0 <= i < |visible| && visible[i].key == f.key ensures kept[i] == CanonicalField(f) {
      assert visible[i] in visible;
      DistinctMembers(fields, visible[i], f);
    }
    if !Excluded(f.key) {
      assert f in visible;
      var i :| 0 <= i < |visible| && visible[i] == f;
      assert kept[i] in kept;
    } else {
      forall g | g in kept ensures g.key != f.key {
        var i :| 0 <= i < |kept| && kept[i] == g;
        assert visible[i] in visible;
      }
    }
  }

  lemma KeptInOrder(fields: seq<Field>, key: Option<string>)
    requires DistinctKeys(fields)
    ensures var kept := Canonical(Object(fields), key).fields;
            forall i, j :: 0 <= i < j < |kept| ==> kept[i].key != kept[j].key && TextLeq(kept[i].key, kept[j].key)
  {
    VisibleStrict(fields);
    var kept, visible := Canonical(Object(fields), key).fields, Visible(fields);
    forall i, j | 0 <= i < j < |kept| ensures kept[i].key != kept[j].key && TextLeq(kept[i].key, kept[j].key) {
      assert KeyLeq(visible[i], visible[j]);
    }
  }

  /** The elements of an array stay, canonical, in place; its numbers stay as they are. */
  lemma ElementsRead(items: seq<Json>, key: Option<string>, i: nat)
    requires i < |items|
    ensures var kept := Canonical(Array(items), key).items;
            && |kept| == |items| && kept[i] == Canonical(items[i], None)
            && (!items[i].Array? && !items[i].Object? ==> kept[i] == items[i])
  {
  }
}
