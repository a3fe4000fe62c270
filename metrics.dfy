/** The evaluation metric (evaluation/metrics.py): the share of predictions
    whose label agrees with the gold label for the same profile and scheme,
    counting only predictions that have a gold label. */
module Metrics {

  /** One prediction or gold entry: the `profile_id`, `scheme_id` and
      `label` keys of the source's dictionaries. */
  datatype Record = Record(profileId: string, schemeId: string, labelName: string)

  type Key = (string, string)

  function KeyOf(r: Record): Key
  {
    (r.profileId, r.schemeId)
  }

  /** The value `correct / total`, or `0.0` when nothing was scored, as an
      exact fraction. */
  datatype Ratio = Ratio(num: nat, den: nat)

  // ---------------------------------------------------------------------------
  // Specification
  // ---------------------------------------------------------------------------

  /** `{(g["profile_id"], g["scheme_id"]): g["label"] for g in gold}`: later
      entries overwrite earlier ones with the same key. */
  function GoldMap(gold: seq<Record>): map<Key, string>
  {
    if gold == [] then map[]
    else GoldMap(gold[..|gold| - 1])[KeyOf(gold[|gold| - 1]) := gold[|gold| - 1].labelName]
  }

  /** A key has a gold label exactly when some gold entry carries that key. */
  lemma {:induction false} GoldMapKeys(gold: seq<Record>, key: Key)
    ensures key in GoldMap(gold) <==> exists j :: 0 <= j < |gold| && KeyOf(gold[j]) == key
  {
    if gold != [] {
      var init := gold[..|gold| - 1];
      GoldMapKeys(init, key);
      assert forall j :: 0 <= j < |init| ==> init[j] == gold[j];
    }
  }

  /** The number of predictions that have a gold label. */
  function Scored(preds: seq<Record>, gm: map<Key, string>): nat
  {
    if preds == [] then 0
    else Scored(preds[..|preds| - 1], gm) + (if KeyOf(preds[|preds| - 1]) in gm then 1 else 0)
  }

  /** The number of predictions whose label equals their gold label. */
  function Correct(preds: seq<Record>, gm: map<Key, string>): nat
  {
    if preds == [] then 0
    else
      var p := preds[|preds| - 1];
      Correct(preds[..|preds| - 1], gm) + (if KeyOf(p) in gm && p.labelName == gm[KeyOf(p)] then 1 else 0)
  }

  /** The accuracy the metric reports for these counts. */
  function AccuracyOf(correct: nat, total: nat): Ratio
  {
    if total == 0 then Ratio(0, 1) else Ratio(correct, total)
  }

  // ---------------------------------------------------------------------------
  // eligibility_accuracy
  // ---------------------------------------------------------------------------

  /** `eligibility_accuracy`: builds the gold map, then counts the scored and
      the correct predictions in one pass. */
  method EligibilityAccuracy(preds: seq<Record>, gold: seq<Record>) returns (accuracy: Ratio)
    ensures accuracy == AccuracyOf(Correct(preds, GoldMap(gold)), Scored(preds, GoldMap(gold)))
    ensures accuracy.den > 0 && accuracy.num <= accuracy.den
  {
    var goldMap: map<Key, string> := map[];
    for j := 0 to |gold|
      invariant goldMap == GoldMap(gold[..j])
    {
      assert gold[..j + 1][..j] == gold[..j];
      goldMap := goldMap[KeyOf(gold[j]) := gold[j].labelName];
    }
    assert gold[..|gold|] == gold;
    var correct := 0;
    var total := 0;
    for i := 0 to |preds|
      invariant total == Scored(preds[..i], goldMap)
      invariant correct == Correct(preds[..i], goldMap)
    {
      var p := preds[i];
      var key := KeyOf(p);
      assert preds[..i + 1][..i] == preds[..i];
      if key !in goldMap {
        continue;
      }
      total := total + 1;
      if p.labelName == goldMap[key] {
        correct := correct + 1;
      }
    }
    assert preds[..|preds|] == preds;
    CorrectAtMostScored(preds, goldMap);
    accuracy := if total > 0 then Ratio(correct, total) else Ratio(0, 1);
  }

  // ---------------------------------------------------------------------------
  // Properties
  // ---------------------------------------------------------------------------

  /** Never more correct predictions than scored ones: the accuracy lies
      between 0 and 1. */
  lemma {:induction false} CorrectAtMostScored(preds: seq<Record>, gm: map<Key, string>)
    ensures Correct(preds, gm) <= Scored(preds, gm)
  {
    if preds != [] {
      CorrectAtMostScored(preds[..|preds| - 1], gm);
    }
  }

  /** For a key, the gold label is that of its last entry in the gold list. */
  lemma {:induction false} GoldMapLastWins(gold: seq<Record>, j: nat)
    requires j < |gold|
    requires forall i :: j < i < |gold| ==> KeyOf(gold[i]) != KeyOf(gold[j])
    ensures KeyOf(gold[j]) in GoldMap(gold) && GoldMap(gold)[KeyOf(gold[j])] == gold[j].labelName
  {
    var last := |gold| - 1;
    if j < last {
      var init := gold[..last];
      assert forall i :: j < i < |init| ==> init[i] == gold[i];
      GoldMapLastWins(init, j);
      assert init[j] == gold[j];
      assert KeyOf(gold[last]) != KeyOf(gold[j]);
      assert GoldMap(gold) == GoldMap(init)[KeyOf(gold[last]) := gold[last].labelName];
    }
  }

  /** Scoring a list of predictions in two parts adds up. */
  lemma {:induction false} CountsConcat(a: seq<Record>, b: seq<Record>, gm: map<Key, string>)
    ensures Scored(a + b, gm) == Scored(a, gm) + Scored(b, gm)
    ensures Correct(a + b, gm) == Correct(a, gm) + Correct(b, gm)
  {
    if b == [] {
      assert a + b == a;
    } else {
      var init := b[..|b| - 1];
      assert (a + b)[..|a + b| - 1] == a + init;
      assert (a + b)[|a + b| - 1] == b[|b| - 1];
      CountsConcat(a, init, gm);
    }
  }

  /** The order of the predictions does not matter: any reordering of the
      same predictions gives the same counts. */
  lemma {:induction false} PredictionOrderIrrelevant(p: seq<Record>, q: seq<Record>, gm: map<Key, string>)
    requires multiset(p) == multiset(q)
    ensures Scored(p, gm) == Scored(q, gm)
    ensures Correct(p, gm) == Correct(q, gm)
    decreases |p|
  {
    if p == [] {
      assert |q| == |multiset(q)| == 0;
    } else {
      var init, x := p[..|p| - 1], p[|p| - 1];
      assert p == init + [x];
      assert x in multiset(q);
      var i :| 0 <= i < |q| && q[i] == x;
      var rest := q[..i] + q[i + 1..];
      RemoveAt(q, i);
      assert multiset(init) == multiset(rest);
      PredictionOrderIrrelevant(init, rest, gm);
      CountsConcat(init, [x], gm);
      CountsRemoveAt(q, i, gm);
    }
  }

  /** Taking out element `i` takes one copy of it out of the multiset. */
  lemma {:induction false} RemoveAt(q: seq<Record>, i: nat)
    requires i < |q|
    ensures multiset(q[..i] + q[i + 1..]) == multiset(q) - multiset{q[i]}
  {
    assert q == q[..i] + [q[i]] + q[i + 1..];
  }

  /** Taking out element `i` takes its own share out of both counts. */
  lemma {:induction false} CountsRemoveAt(q: seq<Record>, i: nat, gm: map<Key, string>)
    requires i < |q|
    ensures Scored(q, gm) == Scored(q[..i] + q[i + 1..], gm) + Scored([q[i]], gm)
    ensures Correct(q, gm) == Correct(q[..i] + q[i + 1..], gm) + Correct([q[i]], gm)
  {
    var front, back := q[..i], q[i + 1..];
    assert q == front + ([q[i]] + back);
    CountsConcat(front, [q[i]] + back, gm);
    CountsConcat([q[i]], back, gm);
    CountsConcat(front, back, gm);
  }

  /** A prediction without a gold label is skipped: it changes neither count. */
  lemma {:induction false} UnscoredSkipped(preds: seq<Record>, p: Record, gm: map<Key, string>)
    requires KeyOf(p) !in gm
    ensures Scored(preds + [p], gm) == Scored(preds, gm)
    ensures Correct(preds + [p], gm) == Correct(preds, gm)
  {
    assert (preds + [p])[..|preds|] == preds;
  }

  /** A repeated prediction is counted each time it occurs. */
  lemma {:induction false} RepeatsCountTwice(preds: seq<Record>, gm: map<Key, string>)
    ensures Scored(preds + preds, gm) == 2 * Scored(preds, gm)
    ensures Correct(preds + preds, gm) == 2 * Correct(preds, gm)
  {
    CountsConcat(preds, preds, gm);
  }

  /** With no gold labels nothing is scored and the accuracy is 0. */
  lemma {:induction false} NoGoldNoScore(preds: seq<Record>)
    ensures AccuracyOf(Correct(preds, GoldMap([])), Scored(preds, GoldMap([]))) == Ratio(0, 1)
  {
    NoneScored(preds, GoldMap([]));
  }

  lemma {:induction false} NoneScored(preds: seq<Record>, gm: map<Key, string>)
    requires forall i :: 0 <= i < |preds| ==> KeyOf(preds[i]) !in gm
    ensures Scored(preds, gm) == 0 && Correct(preds, gm) == 0
  {
    if preds != [] {
      NoneScored(preds[..|preds| - 1], gm);
    }
  }

  /** Keys of the gold list are distinct. */
  predicate DistinctKeys(gold: seq<Record>)
  {
    forall i, j :: 0 <= i < j < |gold| ==> KeyOf(gold[i]) != KeyOf(gold[j])
  }

  /** Scoring the gold list against itself, when its keys are distinct,
      scores every entry and finds every one correct: accuracy 1 when the
      list is non-empty, and 0 (nothing scored) when it is empty. */
  lemma {:induction false} GoldAgainstItself(gold: seq<Record>)
    requires DistinctKeys(gold)
    ensures Scored(gold, GoldMap(gold)) == |gold| && Correct(gold, GoldMap(gold)) == |gold|
    ensures AccuracyOf(Correct(gold, GoldMap(gold)), Scored(gold, GoldMap(gold))) ==
      if gold == [] then Ratio(0, 1) else Ratio(|gold|, |gold|)
  {
    var gm := GoldMap(gold);
    forall j | 0 <= j < |gold| ensures KeyOf(gold[j]) in gm && gm[KeyOf(gold[j])] == gold[j].labelName {
      GoldMapLastWins(gold, j);
    }
    AllCorrect(gold, gm);
  }

  lemma {:induction false} AllCorrect(preds: seq<Record>, gm: map<Key, string>)
    requires forall i :: 0 <= i < |preds| ==> KeyOf(preds[i]) in gm && gm[KeyOf(preds[i])] == preds[i].labelName
    ensures Scored(preds, gm) == |preds| && Correct(preds, gm) == |preds|
  {
    if preds != [] {
      var init := preds[..|preds| - 1];
      assert forall i :: 0 <= i < |init| ==> init[i] == preds[i];
      AllCorrect(init, gm);
    }
  }
}
