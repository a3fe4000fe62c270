/** The response-building part of the `/query` handler (api/server.py): each
    engine verdict becomes one response result whose explanation lists every
    rule with its status. Also the profile dictionary the handler builds from
    the request body and the demo rule set it registers at startup. */
module Server {
  import opened PyText
  import opened Rules
  import Engine

  // ---------------------------------------------------------------------------
  // Labels and rule statuses as text
  // ---------------------------------------------------------------------------

  /** The label strings of eligibility/rules.py. */
  function LabelName(l: Label): string
  {
    match l
    case Eligible => "ELIGIBLE"
    case NotEligible => "NOT_ELIGIBLE"
    case InsufficientInfo => "INSUFFICIENT_INFO"
  }

  function ParseLabel(s: string): Option<Label>
  {
    if s == "ELIGIBLE" then Some(Eligible)
    else if s == "NOT_ELIGIBLE" then Some(NotEligible)
    else if s == "INSUFFICIENT_INFO" then Some(InsufficientInfo)
    else None
  }

  /** The three label strings are distinct: a client can read the label back. */
  lemma {:induction false} LabelNameRoundTrip(l: Label)
    ensures ParseLabel(LabelName(l)) == Some(l)
  {
  }

  /** `"unknown"` for `None`, `"ok"` for true, `"fail"` for false. */
  function StatusText(o: Outcome): string
  {
    if o.Unknown? then "unknown" else if o.holds then "ok" else "fail"
  }

  /** One explanation segment: `"{description} [{status}]"`. */
  function RuleText(rr: RuleResult): string
  {
    rr.rule.description + " [" + StatusText(rr.value) + "]"
  }

  /** The `rule_texts` list: one segment per rule, in rule order. */
  function RuleTexts(results: seq<RuleResult>): seq<string>
  {
    seq(|results|, k requires 0 <= k < |results| => RuleText(results[k]))
  }

  /** `" | ".join(rule_texts)`. */
  function Explanation(results: seq<RuleResult>): string
  {
    Join(" | ", RuleTexts(results))
  }

  /** Reads a segment back into its description and status. */
  function ParseRuleText(seg: string): Option<(string, Outcome)>
  {
    if EndsWith(seg, " [ok]") then Some((seg[..|seg| - 5], Known(true)))
    else if EndsWith(seg, " [fail]") then Some((seg[..|seg| - 7], Known(false)))
    else if EndsWith(seg, " [unknown]") then Some((seg[..|seg| - 10], Unknown))
    else None
  }

  /** A segment determines the rule's description and its outcome. */
  lemma {:induction false} RuleTextRoundTrip(rr: RuleResult)
    ensures ParseRuleText(RuleText(rr)) == Some((rr.rule.description, rr.value))
  {
    var d := rr.rule.description;
    var seg := RuleText(rr);
    if rr.value == Known(true) {
      assert seg == d + " [ok]";
    } else if rr.value == Known(false) {
      assert seg == d + " [fail]";
      assert seg[|seg| - 5..] == "fail]";
    } else {
      assert seg == d + " [unknown]";
      assert seg[|seg| - 5..] == "nown]";
      assert seg[|seg| - 7..] == "nknown]";
    }
  }

  /** `seg` occurs in `x` starting at index `o`. */
  predicate OccursAt(x: string, o: nat, seg: string)
  {
    o + |seg| <= |x| && x[o..o + |seg|] == seg
  }

  /** The explanation enumerates every rule: segment k sits at its offset,
      followed by `" | "` unless it is the last. */
  lemma {:induction false} ExplanationListsEveryRule(results: seq<RuleResult>, k: nat)
    requires k < |results|
    ensures OccursAt(Explanation(results), Offset(" | ", RuleTexts(results), k), RuleText(results[k]))
    ensures k < |results| - 1 ==>
      OccursAt(Explanation(results), Offset(" | ", RuleTexts(results), k) + |RuleText(results[k])|, " | ")
    ensures |Explanation(results)| == Offset(" | ", RuleTexts(results), |results| - 1) + |RuleText(results[|results| - 1])|
  {
    ExplanationLength(results);
    var ts := RuleTexts(results);
    var x, o, seg := Explanation(results), Offset(" | ", ts, k), RuleText(results[k]);
    assert x == Join(" | ", ts) && seg == ts[k];
    JoinPieceAt(" | ", ts, k);
    assert OccursAt(x, o, seg);
    if k < |results| - 1 {
      JoinSeparatorAfter(" | ", ts, k);
      assert OccursAt(x, o + |seg|, " | ");
    }
  }

  /** The explanation ends where the last rule's segment ends. */
  lemma {:induction false} ExplanationLength(results: seq<RuleResult>)
    requires results != []
    ensures |Explanation(results)| == Offset(" | ", RuleTexts(results), |results| - 1) + |RuleText(results[|results| - 1])|
  {
    var ts := RuleTexts(results);
    JoinLength(" | ", ts);
    assert ts[|results| - 1] == RuleText(results[|results| - 1]);
  }

  /** The explanation is empty exactly when the rule set has no rules. */
  lemma {:induction false} ExplanationEmptyIff(results: seq<RuleResult>)
    ensures Explanation(results) == "" <==> results == []
  {
    JoinEmptyIff(" | ", RuleTexts(results));
  }

  // ---------------------------------------------------------------------------
  // The response loop
  // ---------------------------------------------------------------------------

  /** `SchemeEligibilityResult`; the evidence chunks are carried as they are. */
  datatype SchemeEligibilityResult<E> = SchemeEligibilityResult(
    schemeId: string,
    labelName: string,
    missingFields: seq<string>,
    explanation: string,
    evidence: seq<E>)

  /** The `for er in eligibility_results` loop: one result per verdict, in
      order, with scheme id, label and missing fields copied, the explanation
      rendered from the verdict's rule results, and the same evidence list on
      every result. */
  method BuildResults<E>(eligibilityResults: seq<Verdict>, evidence: seq<E>)
      returns (results: seq<SchemeEligibilityResult<E>>)
    ensures |results| == |eligibilityResults|
    ensures forall k :: 0 <= k < |results| ==>
      var er := eligibilityResults[k];
      results[k] == SchemeEligibilityResult(er.schemeId, LabelName(er.eligibility), er.missingFields,
                                            Explanation(er.results), evidence)
  {
    results := [];
    for i := 0 to |eligibilityResults|
      invariant |results| == i
      invariant forall k :: 0 <= k < i ==>
        var er := eligibilityResults[k];
        results[k] == SchemeEligibilityResult(er.schemeId, LabelName(er.eligibility), er.missingFields,
                                              Explanation(er.results), evidence)
    {
      var er := eligibilityResults[i];
      var labelName := LabelName(er.eligibility);
      var missing := er.missingFields;
      var explanation := RenderExplanation(er.results);
      results := results + [SchemeEligibilityResult(er.schemeId, labelName, missing, explanation, evidence)];
    }
  }

  /** The inner loop over `er["results"]` and the join: builds `rule_texts`
      one segment per rule, then joins them with `" | "`. */
  method RenderExplanation(ruleResults: seq<RuleResult>) returns (explanation: string)
    ensures explanation == Explanation(ruleResults)
  {
    var ruleTexts: seq<string> := [];
    for j := 0 to |ruleResults|
      invariant ruleTexts == RuleTexts(ruleResults[..j])
    {
      var r := ruleResults[j].rule;
      var status := ruleResults[j].value;
      var statusStr := if status.Unknown? then "unknown" else if status.holds then "ok" else "fail";
      assert ruleResults[..j + 1][..j] == ruleResults[..j];
      ruleTexts := ruleTexts + [r.description + " [" + statusStr + "]"];
    }
    assert ruleResults[..|ruleResults|] == ruleResults;
    explanation := Join(" | ", ruleTexts);
  }

  // ---------------------------------------------------------------------------
  // The profile dictionary (api/models.py `UserProfile`, `request.profile.dict()`)
  // ---------------------------------------------------------------------------

  /** The request's profile; every attribute is optional. Income is a whole
      number here (see README). */
  datatype UserProfile = UserProfile(
    age: Option<int>,
    gender: Option<string>,
    income: Option<int>,
    category: Option<string>,
    state: Option<string>,
    district: Option<string>,
    occupation: Option<string>,
    disability: Option<bool>,
    student: Option<bool>)

  function IntOrNone(o: Option<int>): Value
  {
    if o.Some? then Int(o.value) else NoneVal
  }

  function StrOrNone(o: Option<string>): Value
  {
    if o.Some? then Str(o.value) else NoneVal
  }

  function BoolOrNone(o: Option<bool>): Value
  {
    if o.Some? then Bool(o.value) else NoneVal
  }

  const ProfileFields: set<string> :=
    {"age", "gender", "income", "category", "state", "district", "occupation", "disability", "student"}

  /** `request.profile.dict()` as the handler calls it: every attribute
      becomes a key, an unset one with the value `None`. */
  function ProfileDictAsWritten(p: UserProfile): (d: Profile)
    ensures d.Keys == ProfileFields
  {
    map[
      "age" := IntOrNone(p.age), "gender" := StrOrNone(p.gender), "income" := IntOrNone(p.income),
      "category" := StrOrNone(p.category), "state" := StrOrNone(p.state),
      "district" := StrOrNone(p.district), "occupation" := StrOrNone(p.occupation),
      "disability" := BoolOrNone(p.disability), "student" := BoolOrNone(p.student)]
  }

  /** The dictionary with the unset attributes left out
      (`request.profile.dict(exclude_none=True)`), so that an unset attribute
      reads as a missing field. */
  function ProfileDict(p: UserProfile): (d: Profile)
    ensures forall f :: f in d <==> f in ProfileFields && ProfileDictAsWritten(p)[f] != NoneVal
    ensures forall f :: f in d ==> d[f] == ProfileDictAsWritten(p)[f]
  {
    var all := ProfileDictAsWritten(p);
    map f | f in all && all[f] != NoneVal :: all[f]
  }

  /** The demo scheme registered at startup. */
  const AgeRule := AtomicRule("age", GTE, Int(18), "Age must be at least 18.")
  const IncomeRule := AtomicRule("income", LTE, Int(250000), "Income at most 2.5L.")
  const DemoRuleSet := RuleSet("SCHEME_DEMO", [AgeRule, IncomeRule],
                               map["doc_id" := Str("demo_doc"), "section" := Str("eligibility")])

  /** As written, no attribute of the request profile is ever missing, so a
      rule on one of them never reports it in `missing_fields`... */
  lemma {:induction false} AsWrittenNothingMissing(p: UserProfile, rule: AtomicRule)
    requires rule.field in ProfileFields && !AsMember(rule.op).Unrecognised?
    requires WellTyped(rule, ProfileDictAsWritten(p))
    ensures Evaluate(rule, ProfileDictAsWritten(p)).Known?
  {
  }

  /** ...and an unset age reaches the demo rule `age >= 18` as `None`, which
      Python cannot order against 18: the handler raises a `TypeError`
      instead of answering INSUFFICIENT_INFO. */
  lemma {:induction false} AsWrittenUnsetAgeRaises(p: UserProfile)
    requires p.age.None?
    ensures !WellTyped(AgeRule, ProfileDictAsWritten(p))
    ensures !Engine.Accepts([DemoRuleSet], ProfileDictAsWritten(p))
  {
    var rs := [DemoRuleSet];
    assert rs[0].rules[0] == AgeRule;
    assert !AllWellTyped(rs[0].rules, ProfileDictAsWritten(p));
  }

  /** With unset attributes left out, a request without an age and with an
      income within the limit gets INSUFFICIENT_INFO with `["age"]` missing. */
  lemma {:induction false} CorrectedUnsetAgeReported(p: UserProfile)
    requires p.age.None? && p.income.Some? && p.income.value <= 250000
    ensures Engine.Accepts([DemoRuleSet], ProfileDict(p))
    ensures var vs := Engine.EvaluateProfile(Engine.EligibilityEngine([DemoRuleSet]), ProfileDict(p));
      |vs| == 1 && vs[0].eligibility == InsufficientInfo && vs[0].missingFields == ["age"]
  {
    var d := ProfileDict(p);
    assert "age" !in d;
    assert "income" in d && d["income"] == Int(p.income.value);
    AgeMissingVerdict(d, p.income.value);
  }

  /** The demo rule set on a profile with no age and an income within the
      limit: INSUFFICIENT_INFO, with `["age"]` missing. */
  lemma {:induction false} AgeMissingVerdict(d: Profile, income: int)
    requires "age" !in d && "income" in d && d["income"] == Int(income) && income <= 250000
    ensures AllWellTyped(DemoRuleSet.rules, d)
    ensures EvaluateRuleSet(DemoRuleSet, d).eligibility == InsufficientInfo
    ensures EvaluateRuleSet(DemoRuleSet, d).missingFields == ["age"]
  {
    var rs := DemoRuleSet.rules;
    assert Evaluate(rs[0], d) == Unknown;
    assert Evaluate(rs[1], d) == Known(true);
    LabelPriority(DemoRuleSet, d);
    MissingFieldsExact(DemoRuleSet, d);
    var m := EvaluateRuleSet(DemoRuleSet, d).missingFields;
    assert forall f :: f in m <==> f == "age";
    assert StrictlySorted(["age"]);
    StrictlySortedUnique(m, ["age"]);
  }

  /** The handler's verdicts for a request profile, with unset attributes
      read as missing fields. */
  function QueryVerdicts(engine: Engine.EligibilityEngine, p: UserProfile): (vs: seq<Verdict>)
    requires Engine.Accepts(engine.rulesets, ProfileDict(p))
    ensures |vs| == |engine.rulesets|
    ensures forall k :: 0 <= k < |vs| ==> vs[k] == EvaluateRuleSet(engine.rulesets[k], ProfileDict(p))
  {
    Engine.EvaluateProfile(engine, ProfileDict(p))
  }

  // ---------------------------------------------------------------------------
  // The demo scheme on sample profiles
  // ---------------------------------------------------------------------------

  /** Age 19 and income 150000: ELIGIBLE, nothing missing. */
  lemma {:induction false} DemoEligible()
    ensures var p := map["age" := Int(19), "income" := Int(150000)];
      AllWellTyped(DemoRuleSet.rules, p)
      && EvaluateRuleSet(DemoRuleSet, p).eligibility == Eligible
      && EvaluateRuleSet(DemoRuleSet, p).missingFields == []
  {
    var p := map["age" := Int(19), "income" := Int(150000)];
    var rs := DemoRuleSet.rules;
    assert Evaluate(rs[0], p) == Known(true);
    assert Evaluate(rs[1], p) == Known(true);
    LabelPriority(DemoRuleSet, p);
    MissingFieldsExact(DemoRuleSet, p);
    var m := EvaluateRuleSet(DemoRuleSet, p).missingFields;
    assert forall f :: f in m <==> f in [];
    StrictlySortedUnique(m, []);
  }

  /** Age 16 and income 150000: NOT_ELIGIBLE, and the explanation marks the
      age rule as failed and the income rule as satisfied. */
  lemma {:induction false} DemoAgeFails()
    ensures var p := map["age" := Int(16), "income" := Int(150000)];
      AllWellTyped(DemoRuleSet.rules, p)
      && EvaluateRuleSet(DemoRuleSet, p).eligibility == NotEligible
      && Explanation(EvaluateRuleSet(DemoRuleSet, p).results)
         == AgeRule.description + " [fail] | " + IncomeRule.description + " [ok]"
  {
    var p := map["age" := Int(16), "income" := Int(150000)];
    var rs := DemoRuleSet.rules;
    assert Evaluate(rs[0], p) == Known(false);
    assert Evaluate(rs[1], p) == Known(true);
    LabelPriority(DemoRuleSet, p);
    var results := EvaluateRuleSet(DemoRuleSet, p).results;
    assert results == [RuleResult(AgeRule, Known(false)), RuleResult(IncomeRule, Known(true))];
    ExplanationFailOk(AgeRule.description, IncomeRule.description, results);
  }

  /** The explanation of a failed rule followed by a satisfied one. */
  lemma {:induction false} ExplanationFailOk(d0: string, d1: string, results: seq<RuleResult>)
    requires |results| == 2
    requires results[0].rule.description == d0 && results[0].value == Known(false)
    requires results[1].rule.description == d1 && results[1].value == Known(true)
    ensures Explanation(results) == d0 + " [fail] | " + d1 + " [ok]"
  {
    var ts := RuleTexts(results);
    assert ts[1..] == [ts[1]];
    assert Join(" | ", ts) == ts[0] + " | " + ts[1];
    assert ts[0] == d0 + " [fail]" by {
      assert " [" + "fail" + "]" == " [fail]";
    }
    assert ts[1] == d1 + " [ok]" by {
      assert " [" + "ok" + "]" == " [ok]";
    }
    assert d0 + " [fail]" + " | " == d0 + " [fail] | ";
  }

  /** Age 19 and no income: INSUFFICIENT_INFO with `["income"]` missing. */
  lemma {:induction false} DemoIncomeMissing()
    ensures var p := map["age" := Int(19)];
      AllWellTyped(DemoRuleSet.rules, p)
      && EvaluateRuleSet(DemoRuleSet, p).eligibility == InsufficientInfo
      && EvaluateRuleSet(DemoRuleSet, p).missingFields == ["income"]
  {
    var p := map["age" := Int(19)];
    var rs := DemoRuleSet.rules;
    assert Evaluate(rs[0], p) == Known(true);
    assert Evaluate(rs[1], p) == Unknown;
    LabelPriority(DemoRuleSet, p);
    MissingFieldsExact(DemoRuleSet, p);
    var m := EvaluateRuleSet(DemoRuleSet, p).missingFields;
    assert forall f :: f in m <==> f == "income";
    assert StrictlySorted(["income"]);
    StrictlySortedUnique(m, ["income"]);
  }

  /** Age 10 and no income: a failed rule outranks a missing field, so
      NOT_ELIGIBLE, while `missing_fields` still reports `["income"]`. */
  lemma {:induction false} DemoFailureOutranksMissing()
    ensures var p := map["age" := Int(10)];
      AllWellTyped(DemoRuleSet.rules, p)
      && EvaluateRuleSet(DemoRuleSet, p).eligibility == NotEligible
      && EvaluateRuleSet(DemoRuleSet, p).missingFields == ["income"]
  {
    var p := map["age" := Int(10)];
    var rs := DemoRuleSet.rules;
    assert Evaluate(rs[0], p) == Known(false);
    assert Evaluate(rs[1], p) == Unknown;
    LabelPriority(DemoRuleSet, p);
    MissingFieldsExact(DemoRuleSet, p);
    var m := EvaluateRuleSet(DemoRuleSet, p).missingFields;
    assert forall f :: f in m <==> f == "income";
    assert StrictlySorted(["income"]);
    StrictlySortedUnique(m, ["income"]);
  }
}
