/** Atomic eligibility rules and rule sets (eligibility/rules.py). A profile is
    a map from field name to value; a field is missing exactly when its key
    is absent. */
module Rules {
  import opened PyText

  /** The Python values a profile or a rule literal can hold. `NoneVal` is
      Python's `None`, which a present key may carry. */
  datatype Value =
    | Int(i: int)
    | Bool(b: bool)
    | Str(s: string)
    | List(items: seq<Value>)
    | NoneVal

  type Profile = map<string, Value>

  /** The operator tag: one of the four enum members, or `Unrecognised(tag)`
      for a plain string stored in the rule's `op` slot, which the dataclass
      does not reject. */
  datatype Comparison = LTE | GTE | EQ | IN | Unrecognised(tag: string)

  /** The string value of each enum member (`Comparison` is a `str` enum). */
  function EnumValue(m: Comparison): string
  {
    match m
    case LTE => "<="
    case GTE => ">="
    case EQ => "=="
    case IN => "in"
    case Unrecognised(tag) => tag
  }

  /** The enum member `op` compares equal to: a `str` enum member equals its
      string value, so a plain "<=" stored in `op` is `Comparison.LTE` for
      `self.op == Comparison.LTE`. Any other string is no member. */
  function AsMember(op: Comparison): Comparison
  {
    match op
    case Unrecognised(tag) =>
      if tag == "<=" then LTE
      else if tag == ">=" then GTE
      else if tag == "==" then EQ
      else if tag == "in" then IN
      else op
    case _ => op
  }

  /** An operator is taken as member `m` exactly when it is `m` itself or the
      plain string value of `m`; a string that is none of the four values
      stays unrecognised. */
  lemma {:induction false} AsMemberIff(op: Comparison, m: Comparison)
    requires !m.Unrecognised?
    ensures AsMember(op) == m <==> op == m || op == Unrecognised(EnumValue(m))
    ensures AsMember(op).Unrecognised? <==> op.Unrecognised? && op.tag !in {"<=", ">=", "==", "in"}
  {
  }

  datatype AtomicRule = AtomicRule(field: string, op: Comparison, value: Value, description: string)

  /** `True`, `False` or `None` (unknown). */
  datatype Outcome = Known(holds: bool) | Unknown

  // ---------------------------------------------------------------------------
  // Python comparison semantics
  // ---------------------------------------------------------------------------

  /** `bool` is a subtype of `int` in Python, so both compare as numbers. */
  predicate IsNumber(v: Value)
  {
    v.Int? || v.Bool?
  }

  function NumberOf(v: Value): int
    requires IsNumber(v)
  {
    if v.Int? then v.i else if v.b then 1 else 0
  }

  /** Python `a == b` on these values (it never raises). */
  predicate PyEq(a: Value, b: Value)
  {
    if IsNumber(a) && IsNumber(b) then NumberOf(a) == NumberOf(b)
    else match (a, b)
      case (Str(x), Str(y)) => x == y
      case (NoneVal, NoneVal) => true
      case (List(xs), List(ys)) => |xs| == |ys| && forall k :: 0 <= k < |xs| ==> PyEq(xs[k], ys[k])
      case _ => false
  }

  lemma {:induction false} PyEqReflexive(a: Value)
    ensures PyEq(a, a)
  {
    if a.List? {
      forall k | 0 <= k < |a.items| ensures PyEq(a.items[k], a.items[k]) {
        PyEqReflexive(a.items[k]);
      }
    }
  }

  /** The pairs Python's `<=` accepts without raising `TypeError`. Lists are
      left out (see README). */
  predicate Orderable(a: Value, b: Value)
  {
    (IsNumber(a) && IsNumber(b)) || (a.Str? && b.Str?)
  }

  /** Python `a <= b`. */
  predicate PyLe(a: Value, b: Value)
    requires Orderable(a, b)
  {
    if IsNumber(a) then NumberOf(a) <= NumberOf(b) else StrLe(a.s, b.s)
  }

  predicate IsSubstring(s: string, t: string)
  {
    (|s| <= |t| && t[..|s|] == s) || (t != [] && IsSubstring(s, t[1..]))
  }

  /** The pairs Python's `v in container` accepts without raising. */
  predicate CanContain(container: Value, v: Value)
  {
    container.List? || (container.Str? && v.Str?)
  }

  /** Python `v in container`: `==`-membership for a list, substring for a string. */
  predicate PyIn(v: Value, container: Value)
    requires CanContain(container, v)
  {
    if container.List? then exists k :: 0 <= k < |container.items| && PyEq(v, container.items[k])
    else IsSubstring(v.s, container.s)
  }

  /** The operator can be applied to these operands without a `TypeError`. */
  predicate Applicable(op: Comparison, v: Value, literal: Value)
  {
    match op
    case LTE => Orderable(v, literal)
    case GTE => Orderable(literal, v)
    case EQ => true
    case IN => CanContain(literal, v)
    case Unrecognised(_) => true
  }

  /** Evaluating the rule against the profile does not raise. */
  predicate WellTyped(rule: AtomicRule, profile: Profile)
  {
    rule.field in profile ==> Applicable(AsMember(rule.op), profile[rule.field], rule.value)
  }

  // ---------------------------------------------------------------------------
  // AtomicRule.evaluate
  // ---------------------------------------------------------------------------

  function Evaluate(rule: AtomicRule, profile: Profile): (r: Outcome)
    requires WellTyped(rule, profile)
    ensures r.Unknown? <==> rule.field !in profile || AsMember(rule.op).Unrecognised?
  {
    if rule.field !in profile then Unknown
    else
      var v := profile[rule.field];
      match AsMember(rule.op)
      case LTE => Known(PyLe(v, rule.value))
      case GTE => Known(PyLe(rule.value, v))
      case EQ => Known(PyEq(v, rule.value))
      case IN => Known(PyIn(v, rule.value))
      case Unrecognised(_) => Unknown
  }

  /** A missing field gives unknown whatever the operator and the literal. */
  lemma {:induction false} MissingFieldIsUnknown(rule: AtomicRule, profile: Profile)
    requires rule.field !in profile
    ensures WellTyped(rule, profile) && Evaluate(rule, profile) == Unknown
  {
  }

  /** With the field present, each operator compares the profile's value `v`
      with the literal as Python does: numerically for numbers (`True` is 1),
      by code point for strings. */
  lemma {:induction false} EvaluatePresent(rule: AtomicRule, profile: Profile)
    requires rule.field in profile && WellTyped(rule, profile)
    ensures var v := profile[rule.field];
      && (AsMember(rule.op) == LTE && IsNumber(v) ==> Evaluate(rule, profile) == Known(NumberOf(v) <= NumberOf(rule.value)))
      && (AsMember(rule.op) == GTE && IsNumber(v) ==> Evaluate(rule, profile) == Known(NumberOf(v) >= NumberOf(rule.value)))
      && (AsMember(rule.op) == LTE && v.Str? ==> Evaluate(rule, profile) == Known(StrLe(v.s, rule.value.s)))
      && (AsMember(rule.op) == GTE && v.Str? ==> Evaluate(rule, profile) == Known(StrLe(rule.value.s, v.s)))
      && (AsMember(rule.op) == EQ ==> Evaluate(rule, profile) == Known(PyEq(v, rule.value)))
      && (AsMember(rule.op) == IN && rule.value.List? ==>
            Evaluate(rule, profile) == Known(exists k :: 0 <= k < |rule.value.items| && PyEq(v, rule.value.items[k])))
      && (AsMember(rule.op) == IN && rule.value.Str? ==>
            v.Str? && Evaluate(rule, profile) == Known(IsSubstring(v.s, rule.value.s)))
  {
  }

  /** A rule whose `op` is the plain string "<=" compares like
      `Comparison.LTE`: an age of 5 satisfies `<= 18`. */
  lemma {:induction false} PlainStringOperator()
    ensures Evaluate(AtomicRule("age", Unrecognised("<="), Int(18), "d"), map["age" := Int(5)]) == Known(true)
    ensures Evaluate(AtomicRule("age", Unrecognised("<"), Int(18), "d"), map["age" := Int(5)]) == Unknown
  {
  }

  /** Only the rule's own field matters: profiles that agree on it give the
      same outcome, whatever other keys they hold. */
  lemma {:induction false} EvaluateLocal(rule: AtomicRule, p1: Profile, p2: Profile)
    requires rule.field in p1 <==> rule.field in p2
    requires rule.field in p1 ==> p1[rule.field] == p2[rule.field]
    requires WellTyped(rule, p1)
    ensures WellTyped(rule, p2) && Evaluate(rule, p1) == Evaluate(rule, p2)
  {
  }

  /** A present, orderable value satisfies at least one of `<= c` and `>= c`,
      and both exactly when it equals `c`. */
  lemma {:induction false} OrderRulesCoverAll(v: Value, c: Value)
    requires Orderable(v, c)
    ensures PyLe(v, c) || PyLe(c, v)
    ensures PyLe(v, c) && PyLe(c, v) <==> PyEq(v, c)
  {
    if v.Str? {
      StrLtTrichotomy(v.s, c.s);
      if StrLt(v.s, c.s) {
        StrLtAsymmetric(v.s, c.s);
      }
    }
  }

  /** Membership in a one-element list is equality with that element. */
  lemma {:induction false} InSingletonIsEq(v: Value, c: Value)
    ensures PyIn(v, List([c])) <==> PyEq(v, c)
  {
    assert [c][0] == c;
  }

  // ---------------------------------------------------------------------------
  // EligibilityRuleSet.evaluate
  // ---------------------------------------------------------------------------

  datatype RuleSet = RuleSet(schemeId: string, rules: seq<AtomicRule>, provenance: map<string, Value>)

  /** One entry of `results`: the rule and what it evaluated to. */
  datatype RuleResult = RuleResult(rule: AtomicRule, value: Outcome)

  datatype Label = Eligible | NotEligible | InsufficientInfo

  datatype Verdict = Verdict(
    schemeId: string,
    eligibility: Label,
    results: seq<RuleResult>,
    missingFields: seq<string>,
    provenance: map<string, Value>)

  predicate AllWellTyped(rules: seq<AtomicRule>, profile: Profile)
  {
    forall k :: 0 <= k < |rules| ==> WellTyped(rules[k], profile)
  }

  /** The `results` list: every rule with its own outcome, in rule order. */
  function RuleResults(rules: seq<AtomicRule>, profile: Profile): (rs: seq<RuleResult>)
    requires AllWellTyped(rules, profile)
    ensures |rs| == |rules|
    ensures forall k :: 0 <= k < |rs| ==> rs[k] == RuleResult(rules[k], Evaluate(rules[k], profile))
  {
    if rules == [] then []
    else RuleResults(rules[..|rules| - 1], profile) + [RuleResult(rules[|rules| - 1], Evaluate(rules[|rules| - 1], profile))]
  }

  /** The `missing` list: the fields of the unknown results, in order, with repeats. */
  function Missing(results: seq<RuleResult>): (m: seq<string>)
    ensures forall f :: f in m <==> exists k :: 0 <= k < |results| && results[k].value.Unknown? && results[k].rule.field == f
  {
    if results == [] then []
    else
      var last := results[|results| - 1];
      Missing(results[..|results| - 1]) + (if last.value.Unknown? then [last.rule.field] else [])
  }

  predicate HasFailure(results: seq<RuleResult>)
  {
    exists k :: 0 <= k < |results| && results[k].value == Known(false)
  }

  function LabelFor(results: seq<RuleResult>, missing: seq<string>): Label
  {
    if HasFailure(results) then NotEligible
    else if missing != [] then InsufficientInfo
    else Eligible
  }

  /** What `EligibilityRuleSet.evaluate` returns. */
  function EvaluateRuleSet(rs: RuleSet, profile: Profile): Verdict
    requires AllWellTyped(rs.rules, profile)
  {
    var results := RuleResults(rs.rules, profile);
    var missing := Missing(results);
    Verdict(rs.schemeId, LabelFor(results, missing), results, SortedDistinct(missing), rs.provenance)
  }

  lemma {:induction false} RuleResultsSnoc(rules: seq<AtomicRule>, i: nat, profile: Profile)
    requires i < |rules| && AllWellTyped(rules, profile)
    ensures AllWellTyped(rules[..i], profile) && AllWellTyped(rules[..i + 1], profile)
    ensures RuleResults(rules[..i + 1], profile)
         == RuleResults(rules[..i], profile) + [RuleResult(rules[i], Evaluate(rules[i], profile))]
  {
    assert rules[..i + 1][..i] == rules[..i];
  }

  lemma {:induction false} MissingSnoc(results: seq<RuleResult>, x: RuleResult)
    ensures Missing(results + [x]) == Missing(results) + (if x.value.Unknown? then [x.rule.field] else [])
  {
    assert (results + [x])[..|results|] == results;
  }

  /** The loop of `EligibilityRuleSet.evaluate`: every rule is evaluated, with
      no early exit; then the label and the sorted missing fields. */
  method RuleSetEvaluate(rs: RuleSet, profile: Profile) returns (v: Verdict)
    requires AllWellTyped(rs.rules, profile)
    ensures v == EvaluateRuleSet(rs, profile)
  {
    var results: seq<RuleResult> := [];
    var missing: seq<string> := [];
    for i := 0 to |rs.rules|
      invariant results == RuleResults(rs.rules[..i], profile)
      invariant missing == Missing(results)
    {
      var r := rs.rules[i];
      var val := Evaluate(r, profile);
      if val.Unknown? {
        missing := missing + [r.field];
      }
      MissingSnoc(results, RuleResult(r, val));
      RuleResultsSnoc(rs.rules, i, profile);
      results := results + [RuleResult(r, val)];
    }
    assert rs.rules[..|rs.rules|] == rs.rules;
    var eligibility;
    if HasFailure(results) {
      eligibility := NotEligible;
    } else if missing != [] {
      eligibility := InsufficientInfo;
    } else {
      eligibility := Eligible;
    }
    v := Verdict(rs.schemeId, eligibility, results, SortedDistinct(missing), rs.provenance);
  }

  /** `results` has one entry per rule, in rule order, pairing each rule with
      its own outcome; scheme id and provenance pass through unchanged. */
  lemma {:induction false} VerdictShape(rs: RuleSet, profile: Profile)
    requires AllWellTyped(rs.rules, profile)
    ensures var v := EvaluateRuleSet(rs, profile);
      && v.schemeId == rs.schemeId && v.provenance == rs.provenance
      && |v.results| == |rs.rules|
      && forall k :: 0 <= k < |rs.rules| ==> v.results[k].rule == rs.rules[k] && v.results[k].value == Evaluate(rs.rules[k], profile)
  {
  }

  /** The label's priority: any failing rule makes the scheme NOT_ELIGIBLE even
      when other fields are missing; otherwise any unknown rule makes it
      INSUFFICIENT_INFO; otherwise (every rule true, or no rules) ELIGIBLE. */
  lemma {:induction false} LabelPriority(rs: RuleSet, profile: Profile)
    requires AllWellTyped(rs.rules, profile)
    ensures var v := EvaluateRuleSet(rs, profile);
      && (v.eligibility == NotEligible <==> exists k :: 0 <= k < |rs.rules| && Evaluate(rs.rules[k], profile) == Known(false))
      && (v.eligibility == InsufficientInfo <==>
            (forall k :: 0 <= k < |rs.rules| ==> Evaluate(rs.rules[k], profile) != Known(false))
            && exists k :: 0 <= k < |rs.rules| && Evaluate(rs.rules[k], profile) == Unknown)
      && (v.eligibility == Eligible <==> forall k :: 0 <= k < |rs.rules| ==> Evaluate(rs.rules[k], profile) == Known(true))
  {
    var results := RuleResults(rs.rules, profile);
    MissingNonEmptyIff(results);
    assert HasFailure(results) <==> exists k :: 0 <= k < |rs.rules| && Evaluate(rs.rules[k], profile) == Known(false) by {
      if HasFailure(results) {
        var k :| 0 <= k < |results| && results[k].value == Known(false);
        assert Evaluate(rs.rules[k], profile) == Known(false);
      }
    }
    assert (exists k :: 0 <= k < |results| && results[k].value.Unknown?)
       <==> exists k :: 0 <= k < |rs.rules| && Evaluate(rs.rules[k], profile) == Unknown by {
      if exists k :: 0 <= k < |rs.rules| && Evaluate(rs.rules[k], profile) == Unknown {
        var k :| 0 <= k < |rs.rules| && Evaluate(rs.rules[k], profile) == Unknown;
        assert results[k].value.Unknown?;
      }
    }
  }

  /** Some field is missing exactly when some result is unknown. */
  lemma {:induction false} MissingNonEmptyIff(results: seq<RuleResult>)
    ensures Missing(results) != [] <==> exists k :: 0 <= k < |results| && results[k].value.Unknown?
  {
    var missing := Missing(results);
    if missing != [] {
      assert missing[0] in missing;
    }
    if exists k :: 0 <= k < |results| && results[k].value.Unknown? {
      var k :| 0 <= k < |results| && results[k].value.Unknown?;
      assert results[k].rule.field in missing;
    }
  }

  /** `missing_fields` is strictly sorted (so free of repeats) and holds exactly
      the fields of the rules that evaluated to unknown. */
  lemma {:induction false} MissingFieldsExact(rs: RuleSet, profile: Profile)
    requires AllWellTyped(rs.rules, profile)
    ensures var v := EvaluateRuleSet(rs, profile);
      && StrictlySorted(v.missingFields)
      && forall f :: f in v.missingFields <==>
           exists k :: 0 <= k < |rs.rules| && Evaluate(rs.rules[k], profile) == Unknown && rs.rules[k].field == f
  {
    var results := RuleResults(rs.rules, profile);
    forall f ensures f in Missing(results) <==>
      exists k :: 0 <= k < |rs.rules| && Evaluate(rs.rules[k], profile) == Unknown && rs.rules[k].field == f
    {
      if f in Missing(results) {
        var k :| 0 <= k < |results| && results[k].value.Unknown? && results[k].rule.field == f;
        assert Evaluate(rs.rules[k], profile) == Unknown;
      }
    }
  }

  predicate Occurs(rules: seq<AtomicRule>, profile: Profile, o: Outcome)
    requires AllWellTyped(rules, profile)
  {
    exists k :: 0 <= k < |rules| && Evaluate(rules[k], profile) == o
  }

  lemma {:induction false} SameRulesSameOutcomes(r1: seq<AtomicRule>, r2: seq<AtomicRule>, profile: Profile, o: Outcome)
    requires AllWellTyped(r1, profile) && AllWellTyped(r2, profile)
    requires forall r :: r in r1 <==> r in r2
    ensures Occurs(r1, profile, o) <==> Occurs(r2, profile, o)
  {
    if Occurs(r1, profile, o) {
      var k :| 0 <= k < |r1| && Evaluate(r1[k], profile) == o;
      assert r1[k] in r2;
    }
    if Occurs(r2, profile, o) {
      var k :| 0 <= k < |r2| && Evaluate(r2[k], profile) == o;
      assert r2[k] in r1;
    }
  }

  /** Rule order affects only the order of `results`: two rule sets listing
      the same rules, in any order and with any repetition, get the same label
      and the same `missing_fields`. */
  lemma {:induction false} VerdictIgnoresRuleOrder(rs1: RuleSet, rs2: RuleSet, profile: Profile)
    requires AllWellTyped(rs1.rules, profile) && AllWellTyped(rs2.rules, profile)
    requires forall r :: r in rs1.rules <==> r in rs2.rules
    ensures EvaluateRuleSet(rs1, profile).eligibility == EvaluateRuleSet(rs2, profile).eligibility
    ensures EvaluateRuleSet(rs1, profile).missingFields == EvaluateRuleSet(rs2, profile).missingFields
  {
    LabelByOccurs(rs1, profile);
    LabelByOccurs(rs2, profile);
    SameRulesSameOutcomes(rs1.rules, rs2.rules, profile, Known(false));
    SameRulesSameOutcomes(rs1.rules, rs2.rules, profile, Unknown);
    SameRulesSameMissing(rs1, rs2, profile);
  }

  lemma {:induction false} LabelByOccurs(rs: RuleSet, profile: Profile)
    requires AllWellTyped(rs.rules, profile)
    ensures EvaluateRuleSet(rs, profile).eligibility ==
      if Occurs(rs.rules, profile, Known(false)) then NotEligible
      else if Occurs(rs.rules, profile, Unknown) then InsufficientInfo
      else Eligible
  {
    LabelPriority(rs, profile);
  }

  lemma {:induction false} SameRulesSameMissing(rs1: RuleSet, rs2: RuleSet, profile: Profile)
    requires AllWellTyped(rs1.rules, profile) && AllWellTyped(rs2.rules, profile)
    requires forall r :: r in rs1.rules <==> r in rs2.rules
    ensures EvaluateRuleSet(rs1, profile).missingFields == EvaluateRuleSet(rs2, profile).missingFields
  {
    MissingFieldsExact(rs1, profile);
    MissingFieldsExact(rs2, profile);
    var m1, m2 := EvaluateRuleSet(rs1, profile).missingFields, EvaluateRuleSet(rs2, profile).missingFields;
    forall f ensures f in m1 <==> f in m2 {
      SameRulesSameUnknownField(rs1.rules, rs2.rules, profile, f);
    }
    StrictlySortedUnique(m1, m2);
  }

  predicate HasUnknownField(rules: seq<AtomicRule>, profile: Profile, f: string)
    requires AllWellTyped(rules, profile)
  {
    exists k :: 0 <= k < |rules| && Evaluate(rules[k], profile) == Unknown && rules[k].field == f
  }

  lemma {:induction false} SameRulesSameUnknownField(r1: seq<AtomicRule>, r2: seq<AtomicRule>, profile: Profile, f: string)
    requires AllWellTyped(r1, profile) && AllWellTyped(r2, profile)
    requires forall r :: r in r1 <==> r in r2
    ensures HasUnknownField(r1, profile, f) <==> HasUnknownField(r2, profile, f)
  {
    if HasUnknownField(r1, profile, f) {
      var k :| 0 <= k < |r1| && Evaluate(r1[k], profile) == Unknown && r1[k].field == f;
      assert r1[k] in r2;
    }
    if HasUnknownField(r2, profile, f) {
      var k :| 0 <= k < |r2| && Evaluate(r2[k], profile) == Unknown && r2[k].field == f;
      assert r2[k] in r1;
    }
  }

  /** `q` holds every field of `p`, with the same values, and possibly more. */
  predicate Extends(q: Profile, p: Profile)
  {
    forall f :: f in p ==> f in q && q[f] == p[f]
  }

  /** Supplying more fields never reverses a definite verdict: NOT_ELIGIBLE and
      ELIGIBLE stay as they are. */
  lemma {:induction false} DefiniteVerdictStable(rs: RuleSet, p: Profile, q: Profile)
    requires AllWellTyped(rs.rules, p) && AllWellTyped(rs.rules, q)
    requires Extends(q, p)
    ensures EvaluateRuleSet(rs, p).eligibility == NotEligible ==> EvaluateRuleSet(rs, q).eligibility == NotEligible
    ensures EvaluateRuleSet(rs, p).eligibility == Eligible ==> EvaluateRuleSet(rs, q).eligibility == Eligible
  {
    LabelPriority(rs, p);
    LabelPriority(rs, q);
    forall k | 0 <= k < |rs.rules| && Evaluate(rs.rules[k], p).Known?
      ensures Evaluate(rs.rules[k], q) == Evaluate(rs.rules[k], p)
    {
      EvaluateLocal(rs.rules[k], p, q);
    }
    if EvaluateRuleSet(rs, p).eligibility == NotEligible {
      var k :| 0 <= k < |rs.rules| && Evaluate(rs.rules[k], p) == Known(false);
      assert Evaluate(rs.rules[k], q) == Known(false);
    }
  }
}
