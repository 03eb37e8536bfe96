/**
 * The tree-edit-distance model (models/TreeEditDistance): every text tree is
 * compared with every hypothesis tree, each distance is normalised by the
 * difference of the tree sizes, and the pair is entailed when the smallest
 * normalised distance is within the learned threshold.
 *
 * The dependency parser that produces the bracket trees, and the APTED edit
 * distance and node count of a parsed tree, are the parameters `ted` and
 * `size`. Java `float` arithmetic is modelled on reals.
 */
module Ted {
  import opened Strings
  import opened Decisions

  /** The costs handed to APTED's cost model; they reach the model only through `ted`. */
  const DelCost: real := 2.0
  const InsCost: real := 2.0
  const RepCost: real := 3.0

  /** The configuration key of the learned threshold. */
  const ThresholdKey := "tedthreshold"

  /**
   * The threshold as the constructor reads it from the configuration:
   * `Float.parseFloat` of a missing key throws, and so does a value that is
   * not a number (`parseFloat` returns None for those).
   */
  function ReadThreshold(params: map<string, string>, parseFloat: string -> Option<real>): (r: Result<real>)
    ensures r.Ok? <==> ThresholdKey in params && parseFloat(params[ThresholdKey]).Some?
    ensures r.Ok? ==> r.value == parseFloat(params[ThresholdKey]).value
    ensures ThresholdKey !in params ==> r == Err(NullPointer)
    ensures ThresholdKey in params && parseFloat(params[ThresholdKey]).None? ==> r == Err(NumberFormat)
  {
    if ThresholdKey !in params then Err(NullPointer)
    else
      var v := parseFloat(params[ThresholdKey]);
      if v.None? then Err(NumberFormat) else Ok(v.value)
  }

  const ModelName := "EditDistance"
  const YesJustification := "Hypothesis is a syntactic variation of the text."

  /** `Float.MAX_VALUE`, the minimum before any pair is seen. */
  const MaxFloat: real := 340282346638528859811704183484516925440.0

  const IntMax: int := 0x7fff_ffff
  const IntMin: int := -0x8000_0000

  /** `Math.round(float)`: the nearest integer, halves up, saturated to the `int` range. */
  function Round(x: real): (r: int)
    ensures IntMin <= r <= IntMax
    ensures IntMin < r < IntMax ==> r as real - 0.5 <= x < r as real + 0.5
  {
    var n := (x + 0.5).Floor;
    if n > IntMax then IntMax else if n < IntMin then IntMin else n
  }

  /** `normalizeDistance`: the distance per unit of size difference, in hundredths, rounded. */
  function NormalizeDistance(distance: real, treeDiff: int): (r: int)
    ensures treeDiff == 0 || treeDiff == 1 ==> r == Round(distance * 100.0)
    ensures IntMin <= r <= IntMax
    ensures var d := if treeDiff == 0 then 1 else treeDiff;
      IntMin < r < IntMax ==> r as real - 0.5 <= distance / d as real * 100.0 < r as real + 0.5
  {
    var d := if treeDiff == 0 then 1 else treeDiff;
    Round(distance / d as real * 100.0)
  }

  lemma NormalizeExamples()
    ensures NormalizeDistance(10.0, 5) == 200
    ensures NormalizeDistance(0.0, 0) == 0
    ensures NormalizeDistance(1.0, 3) == 33
  {
    assert 10.0 / 5 as real * 100.0 == 200.0;
    assert 1.0 / 3 as real * 100.0 + 0.5 == 100.0 / 3.0 + 0.5;
  }

  /** `Math.abs` of the difference of the node counts. */
  function TreeDiff(textSize: int, hypSize: int): (r: nat)
    ensures r == textSize - hypSize || r == hypSize - textSize
  {
    if textSize >= hypSize then textSize - hypSize else hypSize - textSize
  }

  /** The normalised distance of one (text tree, hypothesis tree) pair. */
  function Dist(ted: (string, string) -> real, size: string -> int, t: string, h: string): (r: real)
    ensures IntMin as real <= r <= IntMax as real
  {
    NormalizeDistance(ted(t, h), TreeDiff(size(t), size(h))) as real
  }

  /** `minDist` is no larger than the distance of any pair of the first `n` text trees. */
  ghost predicate AtMost(minDist: real, ted: (string, string) -> real, size: string -> int,
                         textTrees: seq<string>, hypTrees: seq<string>, n: nat)
    requires n <= |textTrees|
  {
    forall a, b :: 0 <= a < n && 0 <= b < |hypTrees| ==> minDist <= Dist(ted, size, textTrees[a], hypTrees[b])
  }

  /** `minDist` is the distance of some pair of the first `n` text trees. */
  ghost predicate Attained(minDist: real, ted: (string, string) -> real, size: string -> int,
                           textTrees: seq<string>, hypTrees: seq<string>, n: nat)
    requires n <= |textTrees|
  {
    exists a, b :: 0 <= a < n && 0 <= b < |hypTrees| && minDist == Dist(ted, size, textTrees[a], hypTrees[b])
  }

  /** Folding the row of text tree i into the running minimum keeps AtMost and Attained. */
  lemma RowStep(ted: (string, string) -> real, size: string -> int, textTrees: seq<string>, hypTrees: seq<string>,
                i: nat, minDist: real, m: real)
    requires i < |textTrees|
    requires AtMost(minDist, ted, size, textTrees, hypTrees, i)
    requires i == 0 || |hypTrees| == 0 ==> minDist == MaxFloat
    requires i > 0 && |hypTrees| > 0 ==> Attained(minDist, ted, size, textTrees, hypTrees, i)
    requires m <= minDist
    requires forall b :: 0 <= b < |hypTrees| ==> m <= Dist(ted, size, textTrees[i], hypTrees[b])
    requires m == minDist || exists b :: 0 <= b < |hypTrees| && m == Dist(ted, size, textTrees[i], hypTrees[b])
    ensures AtMost(m, ted, size, textTrees, hypTrees, i + 1)
    ensures |hypTrees| == 0 ==> m == MaxFloat
    ensures |hypTrees| > 0 ==> Attained(m, ted, size, textTrees, hypTrees, i + 1)
  {
    forall a, b | 0 <= a < i + 1 && 0 <= b < |hypTrees| ensures m <= Dist(ted, size, textTrees[a], hypTrees[b]) {
      if a < i {
        assert minDist <= Dist(ted, size, textTrees[a], hypTrees[b]);
      }
    }
    if |hypTrees| > 0 {
      assert m <= Dist(ted, size, textTrees[i], hypTrees[0]) < MaxFloat;
      if m != minDist {
        var b :| 0 <= b < |hypTrees| && m == Dist(ted, size, textTrees[i], hypTrees[b]);
        assert Attained(m, ted, size, textTrees, hypTrees, i + 1);
      } else {
        var a, b :| 0 <= a < i && 0 <= b < |hypTrees| && minDist == Dist(ted, size, textTrees[a], hypTrees[b]);
        assert Attained(m, ted, size, textTrees, hypTrees, i + 1);
      }
    }
  }

  /** The inner loop for one text tree: the running minimum over the hypothesis trees. */
  method RowMinimum(ted: (string, string) -> real, size: string -> int, textTree: string,
                    hypTrees: seq<string>, minDist: real) returns (m: real)
    ensures m <= minDist
    ensures forall b :: 0 <= b < |hypTrees| ==> m <= Dist(ted, size, textTree, hypTrees[b])
    ensures m == minDist || exists b :: 0 <= b < |hypTrees| && m == Dist(ted, size, textTree, hypTrees[b])
  {
    m := minDist;
    var j := 0;
    while j < |hypTrees|
      invariant 0 <= j <= |hypTrees|
      invariant m <= minDist
      invariant forall b :: 0 <= b < j ==> m <= Dist(ted, size, textTree, hypTrees[b])
      invariant m == minDist || exists b :: 0 <= b < j && m == Dist(ted, size, textTree, hypTrees[b])
    {
      var distance := Dist(ted, size, textTree, hypTrees[j]);
      if distance <= m {
        m := distance;
      }
      j := j + 1;
    }
  }

  /**
   * `computeDistance`: the smallest normalised distance over all pairs of a
   * text tree and a hypothesis tree, and `Float.MAX_VALUE` when either side
   * has no tree.
   */
  method ComputeDistance(ted: (string, string) -> real, size: string -> int,
                         textTrees: seq<string>, hypTrees: seq<string>) returns (minDist: real)
    ensures AtMost(minDist, ted, size, textTrees, hypTrees, |textTrees|)
    ensures |textTrees| == 0 || |hypTrees| == 0 ==> minDist == MaxFloat
    ensures |textTrees| > 0 && |hypTrees| > 0 ==> Attained(minDist, ted, size, textTrees, hypTrees, |textTrees|)
  {
    minDist := MaxFloat;
    var i := 0;
    while i < |textTrees|
      invariant 0 <= i <= |textTrees|
      invariant AtMost(minDist, ted, size, textTrees, hypTrees, i)
      invariant i == 0 || |hypTrees| == 0 ==> minDist == MaxFloat
      invariant i > 0 && |hypTrees| > 0 ==> Attained(minDist, ted, size, textTrees, hypTrees, i)
    {
      var m := RowMinimum(ted, size, textTrees[i], hypTrees, minDist);
      RowStep(ted, size, textTrees, hypTrees, i, minDist, m);
      minDist := m;
      i := i + 1;
    }
  }

  /** The decision rule: a distance within the threshold entails. */
  function Decide(minDist: real, threshold: real): (d: Decision)
    ensures d.model == Some(ModelName)
    ensures d.decision == Some("yes") <==> minDist <= threshold
    ensures d.decision == Some(if minDist <= threshold then "yes" else "no")
    ensures d.justification == Some(if minDist <= threshold then YesJustification else "null")
  {
    if minDist <= threshold then Decided("yes", YesJustification, ModelName)
    else Decided("no", "null", ModelName)
  }

  /**
   * `computeEntailment`: "yes" exactly when some pair of trees is within the
   * threshold (or, with no pair at all, when the threshold reaches
   * `Float.MAX_VALUE`); the model is always labelled "EditDistance".
   */
  method ComputeEntailment(ted: (string, string) -> real, size: string -> int,
                           textTrees: seq<string>, hypTrees: seq<string>, threshold: real) returns (answer: Decision)
    ensures answer.model == Some(ModelName)
    ensures answer.decision == Some("yes") || answer.decision == Some("no")
    ensures answer.decision == Some("yes") <==>
      (exists a, b :: 0 <= a < |textTrees| && 0 <= b < |hypTrees| && Dist(ted, size, textTrees[a], hypTrees[b]) <= threshold)
      || ((|textTrees| == 0 || |hypTrees| == 0) && MaxFloat <= threshold)
    ensures answer.justification == Some(if answer.decision == Some("yes") then YesJustification else "null")
  {
    var minDist := ComputeDistance(ted, size, textTrees, hypTrees);
    answer := Decide(minDist, threshold);
  }
}
