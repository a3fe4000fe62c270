/** The engine that evaluates one profile against every registered rule set
    (eligibility/engine.py). The rule sets are fixed when the engine is
    built and never changed, so the engine is a value. */
module Engine {
  import opened Rules

  datatype EligibilityEngine = EligibilityEngine(rulesets: seq<RuleSet>)

  /** No rule of any registered rule set raises on this profile. */
  predicate Accepts(rulesets: seq<RuleSet>, profile: Profile)
  {
    forall k :: 0 <= k < |rulesets| ==> AllWellTyped(rulesets[k].rules, profile)
  }

  /** `[rs.evaluate(profile) for rs in self.rulesets]`: one verdict per rule
      set, in registration order. */
  function EvaluateAll(rulesets: seq<RuleSet>, profile: Profile): seq<Verdict>
    requires Accepts(rulesets, profile)
  {
    seq(|rulesets|, k requires 0 <= k < |rulesets| => EvaluateRuleSet(rulesets[k], profile))
  }

  /** `EligibilityEngine.evaluate_profile`. */
  function EvaluateProfile(engine: EligibilityEngine, profile: Profile): (vs: seq<Verdict>)
    requires Accepts(engine.rulesets, profile)
    ensures |vs| == |engine.rulesets|
    ensures forall k :: 0 <= k < |vs| ==> vs[k] == EvaluateRuleSet(engine.rulesets[k], profile)
  {
    EvaluateAll(engine.rulesets, profile)
  }

  /** With no rule sets registered the result is empty. */
  lemma {:induction false} NoRuleSetsNoVerdicts(profile: Profile)
    ensures EvaluateProfile(EligibilityEngine([]), profile) == []
  {
  }

  /** Schemes are evaluated independently: the verdicts for two lists of rule
      sets registered one after the other are the two lists of verdicts, one
      after the other. */
  lemma {:induction false} EvaluateAllConcat(a: seq<RuleSet>, b: seq<RuleSet>, profile: Profile)
    requires Accepts(a, profile) && Accepts(b, profile)
    ensures Accepts(a + b, profile)
    ensures EvaluateAll(a + b, profile) == EvaluateAll(a, profile) + EvaluateAll(b, profile)
  {
    AcceptsConcat(a, b, profile);
    var l, r := EvaluateAll(a + b, profile), EvaluateAll(a, profile) + EvaluateAll(b, profile);
    forall k | 0 <= k < |l| ensures l[k] == r[k] {
      if k < |a| {
        assert (a + b)[k] == a[k];
      } else {
        assert (a + b)[k] == b[k - |a|];
      }
    }
  }

  lemma {:induction false} AcceptsConcat(a: seq<RuleSet>, b: seq<RuleSet>, profile: Profile)
    requires Accepts(a, profile) && Accepts(b, profile)
    ensures Accepts(a + b, profile)
  {
    forall k | 0 <= k < |a + b| ensures AllWellTyped((a + b)[k].rules, profile) {
      if k < |a| {
        assert (a + b)[k] == a[k];
      } else {
        assert (a + b)[k] == b[k - |a|];
      }
    }
  }

  /** A scheme's verdict depends only on its own rule set: wherever the same
      rule set is registered, in whatever engine, it gets the same verdict. */
  lemma {:induction false} VerdictDependsOnOwnRuleSet(e1: EligibilityEngine, i: nat, e2: EligibilityEngine, j: nat, profile: Profile)
    requires Accepts(e1.rulesets, profile) && Accepts(e2.rulesets, profile)
    requires i < |e1.rulesets| && j < |e2.rulesets| && e1.rulesets[i] == e2.rulesets[j]
    ensures EvaluateProfile(e1, profile)[i] == EvaluateProfile(e2, profile)[j]
  {
  }
}
