/**
 * Evaluation (eval/Accuracy): confusion counts of answers against gold
 * labels, precision, recall and F1, and the per-model summary. Java's
 * `Double` arithmetic is modelled on reals; the NaN of 0/0 is None.
 */
module Evaluation {
  import opened Strings

  const TreeEditDistanceName := "TreeEditDistance"
  const GraphNavigationName := "GraphNavigation"

  /** A gold label, the system's answer and the model that gave it. */
  datatype Judgement = Judgement(entailment: string, answer: string, model: string)

  datatype Counts = Counts(tp: nat, fp: nat, fn: nat, tn: nat)

  /** `s.equalsIgnoreCase("yes")`. */
  predicate IsYes(s: string) {
    EqualsIgnoreCase(s, "yes")
  }

  /** `tp / (tp + fp)`: None (NaN) when there are no positive answers. */
  function Precision(tp: nat, fp: nat): (r: Option<real>)
    ensures r.Some? <==> tp + fp > 0
    ensures r.Some? ==> 0.0 <= r.value <= 1.0 && (r.value > 0.0 <==> tp > 0) && (r.value == 1.0 <==> fp == 0)
  {
    if tp + fp == 0 then None else Some(tp as real / (tp + fp) as real)
  }

  /** `tp / (tp + fn)`: None (NaN) when there are no positive gold labels. */
  function Recall(tp: nat, fn: nat): (r: Option<real>)
    ensures r.Some? <==> tp + fn > 0
    ensures r.Some? ==> 0.0 <= r.value <= 1.0 && (r.value > 0.0 <==> tp > 0) && (r.value == 1.0 <==> fn == 0)
  {
    if tp + fn == 0 then None else Some(tp as real / (tp + fn) as real)
  }

  /** `2pr / (p + r)`: None when either is NaN or p + r is 0. */
  function F1(p: Option<real>, r: Option<real>): (f: Option<real>)
    ensures f.Some? <==> p.Some? && r.Some? && p.value + r.value != 0.0
  {
    if p.None? || r.None? || p.value + r.value == 0.0 then None
    else Some(2.0 * p.value * r.value / (p.value + r.value))
  }

  /** Scaling by a factor of at most one does not increase a non-negative real. */
  lemma ScaledDown(a: real, b: real)
    requires 0.0 <= a && 0.0 <= b <= 1.0
    ensures a * b <= a
  {
    assert a - a * b == a * (1.0 - b);
    assert a * (1.0 - b) >= 0.0;
  }

  /** Twice the product of two reals in [0, 1] is at most their sum. */
  lemma HarmonicBound(a: real, b: real)
    requires 0.0 <= a <= 1.0 && 0.0 <= b <= 1.0
    ensures 2.0 * a * b <= a + b
  {
    ScaledDown(a, b);
    ScaledDown(b, a);
    var ab := a * b;
    assert ab <= a;
    assert b * a == ab;
    assert ab <= b;
    assert 2.0 * a * b == 2.0 * ab;
  }

  /** The F1 of a confusion count: defined and positive exactly when there is a true positive. */
  lemma F1OfCounts(c: Counts)
    ensures var f := F1(Precision(c.tp, c.fp), Recall(c.tp, c.fn));
      (f.Some? && f.value > 0.0 <==> c.tp > 0) && (f.Some? ==> f.value <= 1.0)
  {
    var p := Precision(c.tp, c.fp);
    var r := Recall(c.tp, c.fn);
    if c.tp > 0 {
      var pv, rv := p.value, r.value;
      assert pv > 0.0 && rv > 0.0;
      assert 2.0 * pv * rv > 0.0;
      HarmonicBound(pv, rv);
    } else if p.Some? && r.Some? {
      assert p.value == 0.0 && r.value == 0.0;
    }
  }

  /** The confusion counts over the results. */
  function Confusion(results: seq<Judgement>): (c: Counts)
    ensures c.tp + c.fp + c.fn + c.tn == |results|
  {
    if results == [] then Counts(0, 0, 0, 0)
    else
      var c := Confusion(results[..|results| - 1]);
      var j := results[|results| - 1];
      if IsYes(j.entailment) then
        if IsYes(j.answer) then c.(tp := c.tp + 1) else c.(fn := c.fn + 1)
      else
        if IsYes(j.answer) then c.(fp := c.fp + 1) else c.(tn := c.tn + 1)
  }

  /** No "yes" answer at all means no true and no false positive. */
  lemma {:induction false} NoYesNoPositives(results: seq<Judgement>)
    requires forall i :: 0 <= i < |results| ==> !IsYes(results[i].answer)
    ensures Confusion(results).tp == 0 && Confusion(results).fp == 0
  {
    if results != [] {
      NoYesNoPositives(results[..|results| - 1]);
    }
  }

  /**
   * The counting loop of `printPartialResults` and the three measures it
   * prints; printing is left out.
   */
  method PartialResults(results: seq<Judgement>) returns (c: Counts, precision: Option<real>, recall: Option<real>, f1: Option<real>)
    ensures c == Confusion(results)
    ensures c.tp + c.fp + c.fn + c.tn == |results|
    ensures precision == Precision(c.tp, c.fp) && recall == Recall(c.tp, c.fn) && f1 == F1(precision, recall)
  {
    var tp, fp, fn, tn := 0, 0, 0, 0;
    var i := 0;
    while i < |results|
      invariant 0 <= i <= |results|
      invariant Confusion(results[..i]) == Counts(tp, fp, fn, tn)
    {
      assert results[..i + 1][..i] == results[..i];
      var entail := results[i].entailment;
      var answer := results[i].answer;
      if IsYes(entail) {
        if IsYes(answer) {
          tp := tp + 1;
        } else {
          fn := fn + 1;
        }
      } else {
        if IsYes(answer) {
          fp := fp + 1;
        } else {
          tn := tn + 1;
        }
      }
      i := i + 1;
    }
    assert results[..i] == results;
    c := Counts(tp, fp, fn, tn);
    precision := Precision(tp, fp);
    recall := Recall(tp, fn);
    f1 := F1(precision, recall);
  }

  /** The results of one model, in order. */
  function OfModel(results: seq<Judgement>, model: string): (r: seq<Judgement>)
    ensures |r| <= |results|
    ensures forall j :: j in r ==> j in results && j.model == model
  {
    if results == [] then []
    else
      var last := results[|results| - 1];
      OfModel(results[..|results| - 1], model) + (if last.model == model then [last] else [])
  }

  /** One more result examined by a loop that builds OfModel. */
  lemma OfModelStep(results: seq<Judgement>, i: nat, model: string)
    requires i < |results|
    ensures OfModel(results[..i + 1], model) == OfModel(results[..i], model) + (if results[i].model == model then [results[i]] else [])
  {
    assert results[..i + 1][..i] == results[..i];
  }

  function OtherModels(results: seq<Judgement>): nat {
    if results == [] then 0
    else
      var last := results[|results| - 1];
      OtherModels(results[..|results| - 1])
      + (if last.model != TreeEditDistanceName && last.model != GraphNavigationName then 1 else 0)
  }

  /** The two sub-lists and the results of any other model partition the results. */
  lemma {:induction false} SummaryPartition(results: seq<Judgement>)
    ensures |OfModel(results, TreeEditDistanceName)| + |OfModel(results, GraphNavigationName)| + OtherModels(results) == |results|
  {
    if results != [] {
      SummaryPartition(results[..|results| - 1]);
    }
  }

  /**
   * The partition loop of `printSummary`: the overall results, then those of
   * each of the two models, each summarised by `PartialResults`.
   */
  method Summary(results: seq<Judgement>) returns (ted: seq<Judgement>, gn: seq<Judgement>)
    ensures ted == OfModel(results, TreeEditDistanceName)
    ensures gn == OfModel(results, GraphNavigationName)
    ensures |ted| + |gn| <= |results|
  {
    ted, gn := [], [];
    var i := 0;
    while i < |results|
      invariant 0 <= i <= |results|
      invariant ted == OfModel(results[..i], TreeEditDistanceName)
      invariant gn == OfModel(results[..i], GraphNavigationName)
    {
      OfModelStep(results, i, TreeEditDistanceName);
      OfModelStep(results, i, GraphNavigationName);
      var model := results[i].model;
      if model == TreeEditDistanceName {
        ted := ted + [results[i]];
      } else if model == GraphNavigationName {
        gn := gn + [results[i]];
      }
      i := i + 1;
    }
    assert results[..i] == results;
    SummaryPartition(results);
  }
}
