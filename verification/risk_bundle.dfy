/**
 * The canonical risk-limit bundle behind a recovery checksum: identifiers normalised, rules sorted. The risk
 * validators are parameters; rendering a bundle to text and hashing it is one function, free of collisions on the
 * bundles compared.
 */
module RiskBundle {
  import opened Wrappers
  import opened Text
  import opened StableSort

  datatype RecoveryError = InvalidPayload

  datatype LimitScope = PortfolioScope | MarketScope | StrategyScope

  datatype Status = Active | Pending | Denied

  datatype ScopeLimit = ScopeLimit(scope: LimitScope, scopeId: string, maxNotional: real, maxInventory: real,
                                   maxConcentration: real)

  datatype Profile = Profile(
    profileKey: string, version: int, portfolio: ScopeLimit, market: ScopeLimit, strategy: ScopeLimit, status: Status,
    approvalReference: Option<string>, actorId: string, reasonCode: string, correlationId: string, updatedAt: string)

  datatype Rule = Rule(
    ruleId: string, profileKey: string, profileVersion: int, scope: LimitScope, scopeId: string, maxPosition: real,
    maxOrderSize: real,
    maxConcentration: real, actorId: string, correlationId: string, updatedAt: string)

  datatype CanonicalRule = CanonicalRule(
    ruleId: string, scope: string, scopeId: string, maxPosition: real, maxOrderSize: real, maxConcentration: real,
    actorId: string, correlationId: string, updatedAt: string)

  datatype CanonicalLimit = CanonicalLimit(scope: string, scopeId: string, maxNotional: real, maxInventory: real,
                                           maxConcentration: real)

  datatype Bundle = Bundle(
    profileKey: string, version: int, status: string, approvalReference: Option<string>, actorId: string,
    reasonCode: string,
    correlationId: string, updatedAt: string, portfolio: CanonicalLimit, market: CanonicalLimit,
    strategy: CanonicalLimit,
    rules: seq<CanonicalRule>)

  /** Outside code: the validators of profiles and rules. */
  datatype Env = Env(validProfile: Profile -> bool, validRule: Rule -> bool)

  function ScopeText(s: LimitScope): string {
    match s
    case PortfolioScope => "portfolio"
    case MarketScope => "market"
    case StrategyScope => "strategy"
  }

  function StatusText(s: Status): string {
    match s
    case Active => "active"
    case Pending => "pending"
    case Denied => "denied"
  }

  function OptionalText(value: Option<string>): Option<string> {
    if value.Some? && !Blank(value.value) then Some(Trim(value.value)) else None
  }

  function CanonicalLimitOf(l: ScopeLimit): CanonicalLimit {
    CanonicalLimit(ScopeText(l.scope), Normalize(l.scopeId), l.maxNotional, l.maxInventory, l.maxConcentration)
  }

  function CanonicalRuleOf(r: Rule): CanonicalRule {
    CanonicalRule(Normalize(r.ruleId), ScopeText(r.scope), Normalize(r.scopeId), r.maxPosition, r.maxOrderSize,
                  r.maxConcentration,
                  Normalize(r.actorId), Normalize(r.correlationId), r.updatedAt)
  }

  function CanonicalRules(rules: seq<Rule>): seq<CanonicalRule> {
    Map(CanonicalRuleOf, rules)
  }

  /** By scope, then scope id, then rule id. */
  function RuleOrder(): (CanonicalRule, CanonicalRule) -> bool {
    Then(Then(By((r: CanonicalRule) => r.scope, TextLeq), By((r: CanonicalRule) => r.scopeId, TextLeq)),
         By((r: CanonicalRule) => r.ruleId, TextLeq))
  }

  predicate Accepts(env: Env, profile: Profile, r: Rule) {
    env.validRule(r) && Normalize(r.profileKey) == Normalize(profile.profileKey) && r.profileVersion == profile.version
  }

  predicate AllAccepted(env: Env, profile: Profile, rules: seq<Rule>) {
    forall r :: r in rules ==> Accepts(env, profile, r)
  }

  function BundleOf(profile: Profile, rules: seq<CanonicalRule>): Bundle {
    Bundle(Normalize(profile.profileKey), profile.version, StatusText(profile.status),
           OptionalText(profile.approvalReference),
           Normalize(profile.actorId), profile.reasonCode, Normalize(profile.correlationId), profile.updatedAt,
           CanonicalLimitOf(profile.portfolio), CanonicalLimitOf(profile.market), CanonicalLimitOf(profile.strategy),
           rules)
  }

  function Canonicalize(env: Env, profile: Profile, rules: seq<Rule>): Result<Bundle, RecoveryError> {
    if !env.validProfile(profile) || !AllAccepted(env, profile, rules) then Failure(InvalidPayload)
    else Success(BundleOf(profile, Sort(RuleOrder(), CanonicalRules(rules))))
  }

  lemma AcceptedAppend(env: Env, profile: Profile, init: seq<Rule>, r: Rule)
    ensures AllAccepted(env, profile, init + [r]) <==> AllAccepted(env, profile, init) && Accepts(env, profile, r)
  {
    assert r in init + [r];
  }

  method CollectCanonicalRules(env: Env, profile: Profile, rules: seq<Rule>)
    returns (r: Result<seq<CanonicalRule>, RecoveryError>)
    ensures r.Success? <==> AllAccepted(env, profile, rules)
    ensures r.Success? ==> r.value == CanonicalRules(rules)
  {
    var profileKey := Normalize(profile.profileKey);
    var canonical: seq<CanonicalRule> := [];
    for i := 0 to |rules|
      invariant AllAccepted(env, profile, rules[..i])
      invariant canonical == CanonicalRules(rules[..i])
    {
      assert rules[..i + 1] == rules[..i] + [rules[i]];
      if !env.validRule(rules[i]) || Normalize(rules[i].profileKey) != profileKey
         || rules[i].profileVersion != profile.version {
        assert !Accepts(env, profile, rules[i]);
        return Failure(InvalidPayload);
      }
      AcceptedAppend(env, profile, rules[..i], rules[i]);
      MapAppend(CanonicalRuleOf, rules[..i], [rules[i]]);
      canonical := canonical + [CanonicalRuleOf(rules[i])];
    }
    assert rules[..|rules|] == rules;
    return Success(canonical);
  }

  method CanonicalizeRiskLimitBundle(env: Env, profile: Profile, rules: seq<Rule>)
    returns (r: Result<Bundle, RecoveryError>)
    ensures r == Canonicalize(env, profile, rules)
  {
    if !env.validProfile(profile) {
      return Failure(InvalidPayload);
    }
    var canonical := CollectCanonicalRules(env, profile, rules);
    if canonical.Failure? {
      return Failure(InvalidPayload);
    }
    return Success(BundleOf(profile, Sort(RuleOrder(), canonical.value)));
  }

  // ---------- a complete invariant ----------

  function RuleKey(r: CanonicalRule): (string, string, string) {
    (r.scope, r.scopeId, r.ruleId)
  }

  lemma RuleOrderTotal()
    ensures TotalPreorder(RuleOrder())
  {
    var scope, scopeId, ruleId := (r: CanonicalRule) => r.scope, (r: CanonicalRule) => r.scopeId,
                                  (r: CanonicalRule) => r.ruleId;
    TextLeqOrder();
    ByTotal(scope, TextLeq);
    ByTotal(scopeId, TextLeq);
    ByTotal(ruleId, TextLeq);
    ThenTotal(By(scope, TextLeq), By(scopeId, TextLeq));
    ThenTotal(Then(By(scope, TextLeq), By(scopeId, TextLeq)), By(ruleId, TextLeq));
  }

  /** Rules tie exactly when scope, scope id and rule id agree. */
  lemma TiesShareKeys(x: CanonicalRule, y: CanonicalRule)
    ensures RuleOrder()(x, y) && RuleOrder()(y, x) <==> RuleKey(x) == RuleKey(y)
  {
    TextLeqReflexive(x.scope);
    TextLeqReflexive(x.scopeId);
    TextLeqReflexive(x.ruleId);
    if RuleOrder()(x, y) && RuleOrder()(y, x) {
      TextLeqAntisymmetric(x.scope, y.scope);
      TextLeqAntisymmetric(x.scopeId, y.scopeId);
      TextLeqAntisymmetric(x.ruleId, y.ruleId);
    }
  }

  lemma DistinctKeysTieFree(rules: seq<CanonicalRule>)
    requires DistinctBy(RuleKey, rules)
    ensures TieFree(RuleOrder(), rules)
  {
    forall x, y | x in rules && y in rules && RuleOrder()(x, y) && RuleOrder()(y, x) ensures x == y {
      TiesShareKeys(x, y);
      var i :| 0 <= i < |rules| && rules[i] == x;
      var j :| 0 <= j < |rules| && rules[j] == y;
    }
  }

  /** Equal bundles always mean the same rules, whatever their keys. */
  /** Profiles that differ at most in how their identifiers are written. */
  predicate SameProfile(p: Profile, q: Profile) {
    && Normalize(p.profileKey) == Normalize(q.profileKey) && p.version == q.version && p.status == q.status
    && OptionalText(p.approvalReference) == OptionalText(q.approvalReference)
    && Normalize(p.actorId) == Normalize(q.actorId)
    && p.reasonCode == q.reasonCode && Normalize(p.correlationId) == Normalize(q.correlationId)
    && p.updatedAt == q.updatedAt
    && SameLimit(p.portfolio, q.portfolio) && SameLimit(p.market, q.market) && SameLimit(p.strategy, q.strategy)
  }

  predicate SameLimit(l: ScopeLimit, m: ScopeLimit) {
    && l.scope == m.scope && Normalize(l.scopeId) == Normalize(m.scopeId)
    && l.maxNotional == m.maxNotional && l.maxInventory == m.maxInventory && l.maxConcentration == m.maxConcentration
  }

  /**
   * Rules that differ at most in how their identifiers are written; their profile key and version are the profile's.
   */
  predicate SameRule(r: Rule, s: Rule) {
    && Normalize(r.ruleId) == Normalize(s.ruleId) && r.scope == s.scope && Normalize(r.scopeId) == Normalize(s.scopeId)
    && r.maxPosition == s.maxPosition && r.maxOrderSize == s.maxOrderSize && r.maxConcentration == s.maxConcentration
    && Normalize(r.actorId) == Normalize(s.actorId) && Normalize(r.correlationId) == Normalize(s.correlationId)
    && r.updatedAt == s.updatedAt
  }

  lemma RulesAgreeIff(r: Rule, s: Rule)
    ensures CanonicalRuleOf(r) == CanonicalRuleOf(s) <==> SameRule(r, s)
  {
    ScopeTextInjective(r.scope, s.scope);
  }

  lemma ScopeTextInjective(s: LimitScope, t: LimitScope)
    ensures ScopeText(s) == ScopeText(t) ==> s == t
  {
    assert ScopeText(s)[0] == ScopeText(t)[0] ==> s == t;
  }

  lemma LimitsAgreeIff(l: ScopeLimit, m: ScopeLimit)
    ensures CanonicalLimitOf(l) == CanonicalLimitOf(m) <==> SameLimit(l, m)
  {
    ScopeTextInjective(l.scope, m.scope);
  }

  /** Across profiles, bundles agree exactly when the profiles and the canonical rules do. */
  lemma BundlesAgreeIff(p: Profile, q: Profile, rules: seq<CanonicalRule>, others: seq<CanonicalRule>)
    ensures BundleOf(p, rules) == BundleOf(q, others) <==> SameProfile(p, q) && rules == others
  {
    LimitsAgreeIff(p.portfolio, q.portfolio);
    LimitsAgreeIff(p.market, q.market);
    LimitsAgreeIff(p.strategy, q.strategy);
    assert StatusText(p.status)[0] == StatusText(q.status)[0] ==> p.status == q.status;
  }

  /** Some arrangement of the second list has the rules of the first, up to how identifiers are written. */
  ghost predicate SameRules(s: seq<Rule>, t: seq<Rule>) {
    exists u :: multiset(u) == multiset(t) && AlikeInTurn(s, u)
  }

  predicate AlikeInTurn(s: seq<Rule>, u: seq<Rule>) {
    |s| == |u| && forall i :: 0 <= i < |s| ==> SameRule(s[i], u[i])
  }

  lemma SameRulesIff(s: seq<Rule>, t: seq<Rule>)
    ensures multiset(CanonicalRules(s)) == multiset(CanonicalRules(t)) <==> SameRules(s, t)
  {
    if multiset(CanonicalRules(s)) == multiset(CanonicalRules(t)) {
      var u := MapArranges(CanonicalRuleOf, s, t);
      AlikeIff(s, u);
    }
    if SameRules(s, t) {
      var u :| multiset(u) == multiset(t) && AlikeInTurn(s, u);
      AlikeIff(s, u);
      MapPermutes(CanonicalRuleOf, u, t);
    }
  }

  lemma AlikeIff(s: seq<Rule>, u: seq<Rule>)
    ensures CanonicalRules(s) == CanonicalRules(u) <==> AlikeInTurn(s, u)
  {
    forall i | 0 <= i < |s| && i < |u| ensures CanonicalRules(s)[i] == CanonicalRules(u)[i] <==> SameRule(s[i], u[i]) {
      RulesAgreeIff(s[i], u[i]);
    }
  }

  /**
   * Two accepted rule lists, the first with distinct keys, give one bundle exactly when their profiles and their rules
   * are the same up to how identifiers are written, the rules in whatever order.
   */
  lemma SameBundleIffSameRules(env: Env, p: Profile, s: seq<Rule>, q: Profile, t: seq<Rule>)
    requires Canonicalize(env, p, s).Success? && Canonicalize(env, q, t).Success?
    requires DistinctBy(RuleKey, CanonicalRules(s))
    ensures Canonicalize(env, p, s) == Canonicalize(env, q, t) <==> SameProfile(p, q) && SameRules(s, t)
  {
    BundlesAgreeIff(p, q, Sort(RuleOrder(), CanonicalRules(s)), Sort(RuleOrder(), CanonicalRules(t)));
    SameRulesIff(s, t);
    SortsAlikeIff(CanonicalRules(s), CanonicalRules(t));
  }

  lemma SortsAlikeIff(rules: seq<CanonicalRule>, others: seq<CanonicalRule>)
    requires DistinctBy(RuleKey, rules)
    ensures Sort(RuleOrder(), rules) == Sort(RuleOrder(), others) <==> multiset(rules) == multiset(others)
  {
    SortContents(RuleOrder(), rules);
    SortContents(RuleOrder(), others);
    if multiset(rules) == multiset(others) {
      RuleOrderTotal();
      DistinctKeysTieFree(rules);
      SortForgetsOrder(RuleOrder(), rules, others);
    }
  }

  // ---------- exactly when the order of the rules does not matter ----------

  ghost predicate OrderFree(env: Env, profile: Profile, rules: seq<Rule>) {
    forall other :: multiset(other) == multiset(rules) ==>
                      Canonicalize(env, profile, other) == Canonicalize(env, profile, rules)
  }

  /** Two different rules that tie, first in either order, sort into different lists. */
  lemma TiedPairShows(x: CanonicalRule, y: CanonicalRule, rest: seq<CanonicalRule>)
    requires x != y && RuleKey(x) == RuleKey(y)
    ensures Sort(RuleOrder(), [x, y] + rest) != Sort(RuleOrder(), [y, x] + rest)
  {
    var tied := (r: CanonicalRule) => RuleKey(r) == RuleKey(x);
    forall r, q | tied(r) && tied(q) ensures RuleOrder()(r, q) {
      TiesShareKeys(r, q);
    }
    SortStable(RuleOrder(), tied, [x, y] + rest);
    SortStable(RuleOrder(), tied, [y, x] + rest);
    KeepsPair(tied, x, y, rest);
    KeepsPair(tied, y, x, rest);
  }

  lemma KeepsPair(keep: CanonicalRule -> bool, x: CanonicalRule, y: CanonicalRule, rest: seq<CanonicalRule>)
    requires keep(x) && keep(y)
    ensures |Filter(keep, [x, y] + rest)| > 0 && Filter(keep, [x, y] + rest)[0] == x
  {
    FilterAppend(keep, [x], [y] + rest);
    assert [x] + ([y] + rest) == [x, y] + rest;
  }

  lemma BringForward(rules: seq<Rule>, i: nat, j: nat) returns (rest: seq<Rule>)
    requires i < j < |rules|
    ensures multiset([rules[i], rules[j]] + rest) == multiset(rules)
            && multiset([rules[j], rules[i]] + rest) == multiset(rules)
  {
    TakeOut(rules, j);
    var others := rules[..j] + rules[j + 1..];
    TakeOut(others, i);
    rest := others[..i] + others[i + 1..];
    assert others[i] == rules[i];
  }

  /**
   * The bundle ignores the order of accepted rules exactly when no two different rules share scope, scope id and rule
   * id.
   */
  lemma OrderFreeIffTieFree(env: Env, profile: Profile, rules: seq<Rule>)
    requires Canonicalize(env, profile, rules).Success?
    ensures OrderFree(env, profile, rules) <==> TieFree(RuleOrder(), CanonicalRules(rules))
  {
    if TieFree(RuleOrder(), CanonicalRules(rules)) {
      forall other | multiset(other) == multiset(rules)
        ensures Canonicalize(env, profile, other) == Canonicalize(env, profile, rules)
      {
        SameContents(other, rules);
        MapPermutes(CanonicalRuleOf, other, rules);
        RuleOrderTotal();
        SortForgetsOrder(RuleOrder(), CanonicalRules(rules), CanonicalRules(other));
      }
    } else {
      TiesMakeOrderMatter(env, profile, rules);
    }
  }

  lemma TiesMakeOrderMatter(env: Env, profile: Profile, rules: seq<Rule>)
    requires Canonicalize(env, profile, rules).Success? && !TieFree(RuleOrder(), CanonicalRules(rules))
    ensures !OrderFree(env, profile, rules)
  {
    var i, j := TiedIndices(CanonicalRules(rules));
    var rest := BringForward(rules, i, j);
    var one, other := [rules[i], rules[j]] + rest, [rules[j], rules[i]] + rest;
    PairsShow(rules[i], rules[j], rest);
    AcceptedPermutes(env, profile, rules, one);
    AcceptedPermutes(env, profile, rules, other);
    DifferentBundles(env, profile, one, other);
    TwoOrders(env, profile, rules, one, other);
  }

  lemma AcceptedPermutes(env: Env, profile: Profile, s: seq<Rule>, t: seq<Rule>)
    requires multiset(s) == multiset(t) && AllAccepted(env, profile, s)
    ensures AllAccepted(env, profile, t)
  {
    SameContents(s, t);
  }

  lemma TwoOrders(env: Env, profile: Profile, rules: seq<Rule>, one: seq<Rule>, other: seq<Rule>)
    requires multiset(one) == multiset(rules) && multiset(other) == multiset(rules)
    requires Canonicalize(env, profile, one) != Canonicalize(env, profile, other)
    ensures !OrderFree(env, profile, rules)
  {
  }

  lemma PairsShow(x: Rule, y: Rule, rest: seq<Rule>)
    requires CanonicalRuleOf(x) != CanonicalRuleOf(y) && RuleKey(CanonicalRuleOf(x)) == RuleKey(CanonicalRuleOf(y))
    ensures Sort(RuleOrder(), CanonicalRules([x, y] + rest)) != Sort(RuleOrder(), CanonicalRules([y, x] + rest))
  {
    MapAppend(CanonicalRuleOf, [x, y], rest);
    MapAppend(CanonicalRuleOf, [y, x], rest);
    TiedPairShows(CanonicalRuleOf(x), CanonicalRuleOf(y), CanonicalRules(rest));
    assert Map(CanonicalRuleOf, [x, y]) == [CanonicalRuleOf(x), CanonicalRuleOf(y)];
    assert Map(CanonicalRuleOf, [y, x]) == [CanonicalRuleOf(y), CanonicalRuleOf(x)];
  }

  lemma DifferentBundles(env: Env, profile: Profile, s: seq<Rule>, t: seq<Rule>)
    requires env.validProfile(profile) && AllAccepted(env, profile, s) && AllAccepted(env, profile, t)
    requires Sort(RuleOrder(), CanonicalRules(s)) != Sort(RuleOrder(), CanonicalRules(t))
    ensures Canonicalize(env, profile, s) != Canonicalize(env, profile, t)
  {
  }

  lemma TiedIndices(canonical: seq<CanonicalRule>) returns (i: nat, j: nat)
    requires !TieFree(RuleOrder(), canonical)
    ensures i < j < |canonical| && canonical[i] != canonical[j] && RuleKey(canonical[i]) == RuleKey(canonical[j])
  {
    var x, y :| x in canonical && y in canonical && RuleOrder()(x, y) && RuleOrder()(y, x) && x != y;
    TiesShareKeys(x, y);
    var a: nat :| a < |canonical| && canonical[a] == x;
    var b: nat :| b < |canonical| && canonical[b] == y;
    i, j := if a < b then a else b, if a < b then b else a;
  }

  // ---------- the checksum gate ----------

  predicate IsHex(c: char) {
    '0' <= c <= '9' || 'a' <= c <= 'f'
  }

  predicate IsDigest(s: string) {
    |s| == 64 && forall i :: 0 <= i < |s| ==> IsHex(s[i])
  }

  function ChecksumGate(approved: string, computed: string): Result<bool, RecoveryError> {
    if !IsDigest(Normalize(approved)) || !IsDigest(Normalize(computed)) then Failure(InvalidPayload)
    else Success(Normalize(approved) == Normalize(computed))
  }

  lemma DigestIsNormal(s: string)
    requires IsDigest(s)
    ensures Normalize(s) == s
  {
    assert forall i :: 0 <= i < |s| ==> IsHex(s[i]);
    CanonicalIsNormal(s);
  }

  /** Rendering and hashing give two bundles digests, which agree only if the bundles do. */
  ghost predicate Digested(checksum: Bundle -> string, a: Bundle, b: Bundle) {
    IsDigest(checksum(a)) && IsDigest(checksum(b)) && (checksum(a) == checksum(b) ==> a == b)
  }

  /**
   * The gate opens between two accepted rule lists, the first with distinct keys, exactly when their profiles and rules
   * are the same up to how identifiers are written.
   */
  lemma GateOpensIffSameRules(env: Env, p: Profile, s: seq<Rule>, q: Profile, t: seq<Rule>, checksum: Bundle -> string)
    requires Canonicalize(env, p, s).Success? && Canonicalize(env, q, t).Success?
    requires DistinctBy(RuleKey, CanonicalRules(s))
    requires Digested(checksum, Canonicalize(env, p, s).value, Canonicalize(env, q, t).value)
    ensures ChecksumGate(checksum(Canonicalize(env, p, s).value), checksum(Canonicalize(env, q, t).value))
         == Success(SameProfile(p, q) && SameRules(s, t))
  {
    var a, b := Canonicalize(env, p, s).value, Canonicalize(env, q, t).value;
    DigestIsNormal(checksum(a));
    DigestIsNormal(checksum(b));
    SameBundleIffSameRules(env, p, s, q, t);
  }

  // ---------- the bundle read off the profile and the rules ----------

  /**
   * A bundle is built exactly from a valid profile and valid rules under its key and version. It carries the profile's
   * fields and limits and one canonical rule for each rule, in turn, with identifiers normalised and every figure under
   * its own name; word is the lower-case word of a scope, and canon and limit write out a rule and a limit with it.
   */
  lemma BundleReads(env: Env, p: Profile, rules: seq<Rule>, word: LimitScope -> string, canon: Rule -> CanonicalRule,
                    limit: ScopeLimit -> CanonicalLimit)
    requires word(PortfolioScope) == "portfolio" && word(MarketScope) == "market" && word(StrategyScope) == "strategy"
    requires forall l: ScopeLimit :: limit(l) == CanonicalLimit(word(l.scope), Normalize(l.scopeId), l.maxNotional,
                                                                l.maxInventory, l.maxConcentration)
    requires forall r: Rule :: canon(r) == CanonicalRule(
                                 Normalize(r.ruleId), word(r.scope), Normalize(r.scopeId), r.maxPosition,
                                 r.maxOrderSize, r.maxConcentration, Normalize(r.actorId),
                                 Normalize(r.correlationId), r.updatedAt)
    ensures Canonicalize(env, p, rules).Success? <==>
            && env.validProfile(p)
            && forall r :: r in rules ==> env.validRule(r) && Normalize(r.profileKey) == Normalize(p.profileKey)
                                          && r.profileVersion == p.version
    ensures Canonicalize(env, p, rules).Success? ==>
              var b := Canonicalize(env, p, rules).value;
              && multiset(b.rules) == multiset(Map(canon, rules))
              && (forall i, j :: 0 <= i < j < |b.rules| ==>
                                   var r, s := b.rules[i], b.rules[j];
                                   && TextLeq(r.scope, s.scope)
                                   && (r.scope == s.scope ==> TextLeq(r.scopeId, s.scopeId))
                                   && (r.scope == s.scope && r.scopeId == s.scopeId ==> TextLeq(r.ruleId, s.ruleId)))
              && b.profileKey == Normalize(p.profileKey) && b.version == p.version
              && b.status == (match p.status case Active => "active" case Pending => "pending" case Denied => "denied")
              && (p.approvalReference == None ==> b.approvalReference == None)
              && (p.approvalReference != None ==>
                    var text := Trim(p.approvalReference.value);
                    b.approvalReference == if text == "" then None else Some(text))
              && b.actorId == Normalize(p.actorId) && b.reasonCode == p.reasonCode
              && b.correlationId == Normalize(p.correlationId) && b.updatedAt == p.updatedAt
              && b.portfolio == limit(p.portfolio) && b.market == limit(p.market) && b.strategy == limit(p.strategy)
  {
    if Canonicalize(env, p, rules).Success? {
      forall r ensures canon(r) == CanonicalRuleOf(r) {
        RuleReads(r, word);
      }
      assert Map(canon, rules) == CanonicalRules(rules);
      SortContents(RuleOrder(), CanonicalRules(rules));
      SortedInTurn(CanonicalRules(rules));
      LimitReads(p.portfolio, word);
      LimitReads(p.market, word);
      LimitReads(p.strategy, word);
    }
  }

  lemma RuleReads(r: Rule, word: LimitScope -> string)
    requires word(PortfolioScope) == "portfolio" && word(MarketScope) == "market" && word(StrategyScope) == "strategy"
    ensures CanonicalRuleOf(r)
         == CanonicalRule(Normalize(r.ruleId), word(r.scope), Normalize(r.scopeId), r.maxPosition, r.maxOrderSize,
                          r.maxConcentration, Normalize(r.actorId), Normalize(r.correlationId), r.updatedAt)
  {
  }

  lemma LimitReads(l: ScopeLimit, word: LimitScope -> string)
    requires word(PortfolioScope) == "portfolio" && word(MarketScope) == "market" && word(StrategyScope) == "strategy"
    ensures CanonicalLimitOf(l)
         == CanonicalLimit(word(l.scope), Normalize(l.scopeId), l.maxNotional, l.maxInventory, l.maxConcentration)
  {
  }

  /** The least scope word first, then the least scope id, then the least rule id. */
  lemma SortedInTurn(rules: seq<CanonicalRule>)
    ensures var sorted := Sort(RuleOrder(), rules);
            forall i, j :: 0 <= i < j < |sorted| ==>
                             var r, s := sorted[i], sorted[j];
                             && TextLeq(r.scope, s.scope)
                             && (r.scope == s.scope ==> TextLeq(r.scopeId, s.scopeId))
                             && (r.scope == s.scope && r.scopeId == s.scopeId ==> TextLeq(r.ruleId, s.ruleId))
  {
    RuleOrderTotal();
    SortSorted(RuleOrder(), rules);
    var sorted := Sort(RuleOrder(), rules);
    forall i, j | 0 <= i < j < |sorted|
      ensures var r, s := sorted[i], sorted[j];
              && TextLeq(r.scope, s.scope)
              && (r.scope == s.scope ==> TextLeq(r.scopeId, s.scopeId))
              && (r.scope == s.scope && r.scopeId == s.scopeId ==> TextLeq(r.ruleId, s.ruleId))
    {
      assert RuleOrder()(sorted[i], sorted[j]);
      OrderReads(sorted[i], sorted[j]);
    }
  }

  lemma OrderReads(r: CanonicalRule, s: CanonicalRule)
    requires RuleOrder()(r, s)
    ensures TextLeq(r.scope, s.scope)
    ensures r.scope == s.scope ==> TextLeq(r.scopeId, s.scopeId)
    ensures r.scope == s.scope && r.scopeId == s.scopeId ==> TextLeq(r.ruleId, s.ruleId)
  {
    TextLeqReflexive(r.scope);
    TextLeqReflexive(r.scopeId);
  }

  /** The gate takes two SHA-256 digests in hex, in any case and with outer blanks, and opens when they are the same. */
  lemma GateReads(approved: string, computed: string, hex: char -> bool)
    requires forall c :: hex(c) <==> c in "0123456789abcdef"
    ensures var a, c := Normalize(approved), Normalize(computed);
            ChecksumGate(approved, computed) ==
            if |a| == 64 == |c| && (forall i :: 0 <= i < 64 ==> hex(a[i])) && (forall i :: 0 <= i < 64 ==> hex(c[i]))
            then Success(a == c) else Failure(InvalidPayload)
  {
    forall c ensures hex(c) <==> IsHex(c) {
      HexReads(c);
    }
  }

  lemma HexReads(c: char)
    ensures IsHex(c) <==> c in "0123456789abcdef"
  {
  }
}
