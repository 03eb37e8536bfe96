/**
 * The driver of the system (core/Entailment): learning the tree-edit-distance
 * threshold from a labelled dataset, writing it into the configuration
 * text, choosing the source/target word pairs handed to graph navigation,
 * and combining the router, the context check and the chosen model into the
 * answer for one pair.
 */
module Entailment {
  import opened Strings
  import opened Lists
  import opened Text
  import opened Sorting
  import opened Evaluation
  import opened Decisions
  import Router
  import Ted

  /** At most this many source/target pairs go to graph navigation. */
  const MaxEntries := 5

  // ---------------------------------------------------------------------
  // Training: labelling at a candidate threshold and the threshold scan.
  // ---------------------------------------------------------------------

  /** A training pair as `train` sees it: its gold label, its distance and the answer last written into it. */
  datatype Example = Example(entailment: string, distance: real, answer: string)

  /** "yes" answers exactly the examples strictly closer than the candidate. */
  function Labelled(data: seq<Example>, candidate: real): (r: seq<Example>)
    ensures |r| == |data|
    ensures forall i :: 0 <= i < |data| ==> r[i].entailment == data[i].entailment && r[i].distance == data[i].distance
  {
    seq(|data|, i requires 0 <= i < |data| => data[i].(answer := if data[i].distance < candidate then "yes" else "no"))
  }

  /** The examples as judgements, the form the confusion counts are taken over. */
  function Judgements(data: seq<Example>): (r: seq<Judgement>)
    ensures |r| == |data|
  {
    seq(|data|, i requires 0 <= i < |data| => Judgement(data[i].entailment, data[i].answer, ""))
  }

  /** The answers written at a candidate: "yes" exactly below it; the labels and distances are kept. */
  lemma LabelledAnswers(data: seq<Example>, candidate: real)
    ensures forall i :: 0 <= i < |data| ==> (IsYes(Labelled(data, candidate)[i].answer) <==> data[i].distance < candidate)
  {
    assert ToLower("yes") == "yes";
    assert ToLower("no") == "no";
  }

  /** Labelling overwrites every earlier answer: only the last candidate matters. */
  lemma RelabelOverwrites(data: seq<Example>, c1: real, c2: real)
    ensures Labelled(Labelled(data, c1), c2) == Labelled(data, c2)
  {
  }

  /** The F1 obtained when labelling at a candidate; None is Java's NaN. */
  function Score(data: seq<Example>, candidate: real): Option<real> {
    var c := Confusion(Judgements(Labelled(data, candidate)));
    F1(Precision(c.tp, c.fp), Recall(c.tp, c.fn))
  }

  /** Each candidate paired with its F1, in scan order. */
  function Scores(data: seq<Example>, candidates: seq<real>): (r: seq<(real, Option<real>)>)
    ensures |r| == |candidates|
  {
    seq(|candidates|, i requires 0 <= i < |candidates| => (candidates[i], Score(data, candidates[i])))
  }

  /**
   * The (threshold, best F1) the scan of `train` keeps: starting from
   * (0, 0.0), a candidate replaces them only when its F1 is defined and
   * strictly greater.
   */
  function Choose(scored: seq<(real, Option<real>)>): (real, real) {
    if scored == [] then (0.0, 0.0)
    else
      var prev := Choose(scored[..|scored| - 1]);
      var (c, f) := scored[|scored| - 1];
      if f.Some? && f.value > prev.1 then (c, f.value) else prev
  }

  /** One more entry of the scan. */
  lemma ChooseNext(scored: seq<(real, Option<real>)>, k: nat)
    requires k < |scored|
    ensures Choose(scored[..k + 1]) ==
      var prev := Choose(scored[..k]);
      if scored[k].1.Some? && scored[k].1.value > prev.1 then (scored[k].0, scored[k].1.value) else prev
  {
    assert scored[..k + 1][..k] == scored[..k];
  }

  /** No defined F1 in the scan exceeds m. */
  predicate Unbeaten(scored: seq<(real, Option<real>)>, m: real) {
    forall k :: 0 <= k < |scored| && scored[k].1.Some? ==> scored[k].1.value <= m
  }

  /** Entry k reaches m and every entry before it scores strictly less (or NaN). */
  predicate FirstReaching(scored: seq<(real, Option<real>)>, k: nat, m: real) {
    && k < |scored|
    && scored[k].1 == Some(m)
    && forall j :: 0 <= j < k ==> scored[j].1.None? || scored[j].1.value < m
  }

  /** The best F1 the scan keeps is never negative and no defined F1 exceeds it; at 0 the threshold stays 0. */
  lemma {:induction false} ChooseBound(scored: seq<(real, Option<real>)>)
    ensures var (t, m) := Choose(scored);
      m >= 0.0 && Unbeaten(scored, m) && (m == 0.0 ==> t == 0.0)
  {
    if scored != [] {
      var init := scored[..|scored| - 1];
      ChooseBound(init);
      assert forall k :: 0 <= k < |init| ==> scored[k] == init[k];
    }
  }

  /** A positive best F1 is reached first by the selected candidate: on ties the earliest (smallest) one wins. */
  lemma {:induction false} ChooseFirst(scored: seq<(real, Option<real>)>)
    ensures var (t, m) := Choose(scored);
      m > 0.0 ==> exists k: nat :: FirstReaching(scored, k, m) && scored[k].0 == t
  {
    if scored != [] {
      var init := scored[..|scored| - 1];
      ChooseFirst(init);
      ChooseBound(init);
      var (t, m) := Choose(init);
      var n := |scored| - 1;
      var f := scored[n].1;
      assert forall k :: 0 <= k < |init| ==> scored[k] == init[k];
      if f.Some? && f.value > m {
        assert FirstReaching(scored, n, f.value);
      } else if m > 0.0 {
        var k: nat :| FirstReaching(init, k, m) && init[k].0 == t;
        assert FirstReaching(scored, k, m);
      }
    }
  }

  /** A candidate with a positive F1 labels at least one gold "yes" pair "yes". */
  lemma PositiveScore(data: seq<Example>, t: real)
    requires Score(data, t).Some? && Score(data, t).value > 0.0
    ensures Confusion(Judgements(Labelled(data, t))).tp > 0
  {
    F1OfCounts(Confusion(Judgements(Labelled(data, t))));
  }

  /** A positive best F1 comes from one of the candidates, which labels at least one gold "yes" pair "yes". */
  lemma SelectedHasTruePositive(data: seq<Example>, candidates: seq<real>)
    ensures var (t, m) := Choose(Scores(data, candidates));
      m > 0.0 ==> t in candidates && Confusion(Judgements(Labelled(data, t))).tp > 0
  {
    var scored := Scores(data, candidates);
    ChooseFirst(scored);
    var (t, m) := Choose(scored);
    if m > 0.0 {
      var k: nat :| FirstReaching(scored, k, m) && scored[k].0 == t;
      assert candidates[k] == t && Score(data, t) == Some(m);
      PositiveScore(data, t);
    }
  }

  /** A candidate no distance is below labels nothing "yes"; its precision is NaN, so the scan never picks it. */
  lemma SmallestNeverScores(data: seq<Example>, candidate: real)
    requires forall i :: 0 <= i < |data| ==> candidate <= data[i].distance
    ensures Score(data, candidate).None?
  {
    var judged := Judgements(Labelled(data, candidate));
    LabelledAnswers(data, candidate);
    assert forall i :: 0 <= i < |judged| ==> !IsYes(judged[i].answer);
    NoYesNoPositives(judged);
  }

  /** The distances of the examples, in order. */
  function Distances(data: seq<Example>): (r: seq<real>)
    ensures |r| == |data|
  {
    seq(|data|, i requires 0 <= i < |data| => data[i].distance)
  }

  predicate StrictlyIncreasing(s: seq<real>) {
    forall i, j :: 0 <= i < j < |s| ==> s[i] < s[j]
  }

  /** A value added to a strictly increasing list, in its place, unless already there. */
  function InsertDistinct(sorted: seq<real>, x: real): (r: seq<real>)
    decreases |sorted|
  {
    if sorted == [] then [x]
    else if x < sorted[0] then [x] + sorted
    else if x == sorted[0] then sorted
    else [sorted[0]] + InsertDistinct(sorted[1..], x)
  }

  /** The candidates of `train`: the set of distances sorted ascending (`asSortedList` of the HashSet). */
  function Ascending(ds: seq<real>): seq<real> {
    if ds == [] then [] else InsertDistinct(Ascending(ds[..|ds| - 1]), ds[|ds| - 1])
  }

  /** Inserting adds x and nothing else. */
  lemma {:induction false} InsertDistinctElements(sorted: seq<real>, x: real)
    ensures forall y :: y in InsertDistinct(sorted, x) <==> y in sorted || y == x
    decreases |sorted|
  {
    if sorted != [] && x > sorted[0] {
      InsertDistinctElements(sorted[1..], x);
      assert sorted == [sorted[0]] + sorted[1..];
    }
  }

  /** The first element of a strictly increasing list is below every other. */
  lemma FirstIsLeast(s: seq<real>, y: real)
    requires StrictlyIncreasing(s) && y in s
    ensures s[0] <= y
    ensures y in s[1..] <==> y != s[0]
  {
    var k :| 0 <= k < |s| && s[k] == y;
    if k > 0 {
      assert s[1..][k - 1] == y;
    }
  }

  /** Inserting keeps the list strictly increasing. */
  lemma {:induction false} InsertDistinctSorted(sorted: seq<real>, x: real)
    requires StrictlyIncreasing(sorted)
    ensures StrictlyIncreasing(InsertDistinct(sorted, x))
    decreases |sorted|
  {
    if sorted != [] && x > sorted[0] {
      var tail := sorted[1..];
      InsertDistinctSorted(tail, x);
      InsertDistinctElements(tail, x);
      var r := InsertDistinct(tail, x);
      forall y | y in r ensures sorted[0] < y {
        if y != x {
          FirstIsLeast(sorted, y);
        }
      }
      var whole := [sorted[0]] + r;
      forall i, j | 0 <= i < j < |whole| ensures whole[i] < whole[j] {
        assert whole[j] == r[j - 1];
        if i > 0 {
          assert whole[i] == r[i - 1];
        } else {
          assert r[j - 1] in r;
        }
      }
    }
  }

  /** The candidates are strictly increasing and are exactly the distances. */
  lemma {:induction false} AscendingSpec(ds: seq<real>)
    ensures StrictlyIncreasing(Ascending(ds))
    ensures forall y :: y in Ascending(ds) <==> y in ds
  {
    if ds != [] {
      var init := ds[..|ds| - 1];
      AscendingSpec(init);
      InsertDistinctSorted(Ascending(init), ds[|ds| - 1]);
      InsertDistinctElements(Ascending(init), ds[|ds| - 1]);
      assert ds == init + [ds[|ds| - 1]];
    }
  }

  /** Two lists with the same elements are empty together. */
  lemma SameElementsEmpty(a: seq<real>, b: seq<real>)
    requires forall y :: y in a <==> y in b
    ensures a == [] <==> b == []
  {
    if a != [] {
      var y := a[0];
      assert y in a;
    }
    if b != [] {
      var y := b[0];
      assert y in b;
    }
  }

  /** A strictly increasing list is fixed by its elements: the candidates do not depend on the set's iteration order. */
  lemma {:induction false} UniqueAscending(a: seq<real>, b: seq<real>)
    requires StrictlyIncreasing(a) && StrictlyIncreasing(b)
    requires forall y :: y in a <==> y in b
    ensures a == b
    decreases |a|
  {
    SameElementsEmpty(a, b);
    if a != [] {
      assert a[0] in a;
      FirstIsLeast(b, a[0]);
      FirstIsLeast(a, b[0]);
      forall y ensures y in a[1..] <==> y in b[1..] {
        if y in a {
          FirstIsLeast(a, y);
          FirstIsLeast(b, y);
        } else {
          assert y !in a[1..] && y !in b[1..];
        }
      }
      UniqueAscending(a[1..], b[1..]);
      assert a == [a[0]] + a[1..] && b == [b[0]] + b[1..];
    }
  }

  /** `getAnnotations`: every pair's answer is overwritten in place. */
  method GetAnnotations(data: array<Example>, distance: real)
    modifies data
    ensures data[..] == Labelled(old(data[..]), distance)
  {
    ghost var before := data[..];
    ghost var labelled := Labelled(before, distance);
    var i := 0;
    while i < data.Length
      invariant 0 <= i <= data.Length
      invariant forall j :: 0 <= j < i ==> data[j] == labelled[j]
      invariant forall j :: i <= j < data.Length ==> data[j] == before[j]
    {
      var pairDist := data[i].distance;
      if pairDist < distance {
        data[i] := data[i].(answer := "yes");
      } else {
        data[i] := data[i].(answer := "no");
      }
      i := i + 1;
    }
    assert data[..] == labelled;
  }

  /** The counting loop of `train`: each pair adds one to exactly one of tp, fp, fn, tn. */
  method CountAnswers(data: array<Example>) returns (c: Counts)
    ensures c == Confusion(Judgements(data[..]))
  {
    ghost var judged := Judgements(data[..]);
    var tp, fp, fn, tn := 0, 0, 0, 0;
    var i := 0;
    while i < data.Length
      invariant 0 <= i <= data.Length
      invariant Counts(tp, fp, fn, tn) == Confusion(judged[..i])
    {
      assert judged[..i + 1][..i] == judged[..i];
      var entail := data[i].entailment;
      var answer := data[i].answer;
      if EqualsIgnoreCase(entail, "yes") {
        if EqualsIgnoreCase(answer, "yes") {
          tp := tp + 1;
        } else {
          fn := fn + 1;
        }
      } else {
        if EqualsIgnoreCase(answer, "yes") {
          fp := fp + 1;
        } else {
          tn := tn + 1;
        }
      }
      i := i + 1;
    }
    assert judged[..i] == judged;
    c := Counts(tp, fp, fn, tn);
  }

  /** The distances gathered into a set and sorted, as `train` does before its scan. */
  method SortedDistances(data: array<Example>) returns (sorted: seq<real>)
    ensures sorted == Ascending(Distances(data[..]))
  {
    ghost var ds := Distances(data[..]);
    sorted := [];
    var i := 0;
    while i < data.Length
      invariant 0 <= i <= data.Length
      invariant sorted == Ascending(ds[..i])
    {
      assert ds[..i + 1][..i] == ds[..i];
      sorted := InsertDistinct(sorted, data[i].distance);
      i := i + 1;
    }
    assert ds[..i] == ds;
  }

  /** One candidate of the scan: label the pairs at it, count, and compute the F1. */
  method ScoreAt(data: array<Example>, distance: real) returns (f1: Option<real>)
    modifies data
    ensures data[..] == Labelled(old(data[..]), distance)
    ensures f1 == Score(old(data[..]), distance)
  {
    GetAnnotations(data, distance);
    var c := CountAnswers(data);
    var precision := Precision(c.tp, c.fp);
    var recall := Recall(c.tp, c.fn);
    f1 := F1(precision, recall);
  }

  /** Scoring candidate k on pairs labelled at the candidate before it (none for the first): the earlier answers do not matter. */
  method Rescore(data: array<Example>, ghost before: seq<Example>, candidates: seq<real>, k: nat)
    returns (f1: Option<real>)
    requires k < |candidates|
    requires data[..] == if k == 0 then before else Labelled(before, candidates[k - 1])
    modifies data
    ensures data[..] == Labelled(before, candidates[k])
    ensures Scores(before, candidates)[k] == (candidates[k], f1)
  {
    if k > 0 {
      RelabelOverwrites(before, candidates[k - 1], candidates[k]);
    }
    f1 := ScoreAt(data, candidates[k]);
  }

  /**
   * The threshold scan of `train` over pairs whose distances are computed:
   * label at each candidate in ascending order, count, and keep the first
   * strictly best F1. The pairs end up labelled at the last candidate.
   */
  method Train(data: array<Example>) returns (threshold: real, maxF1: real)
    modifies data
    ensures (threshold, maxF1) == Choose(Scores(old(data[..]), Ascending(Distances(old(data[..])))))
    ensures var cs := Ascending(Distances(old(data[..])));
      data[..] == if cs == [] then old(data[..]) else Labelled(old(data[..]), cs[|cs| - 1])
  {
    ghost var before := data[..];
    var sortedDists := SortedDistances(data);
    ghost var scored := Scores(before, sortedDists);
    maxF1 := 0.0;
    threshold := 0.0;
    var k := 0;
    while k < |sortedDists|
      invariant 0 <= k <= |sortedDists|
      invariant (threshold, maxF1) == Choose(scored[..k])
      invariant data[..] == if k == 0 then before else Labelled(before, sortedDists[k - 1])
    {
      ChooseNext(scored, k);
      var distance := sortedDists[k];
      var f1 := Rescore(data, before, sortedDists, k);
      if f1.Some? && f1.value > maxF1 {
        maxF1 := f1.value;
        threshold := distance;
      }
      k := k + 1;
    }
    assert scored[..k] == scored;
    assert k == 0 <==> sortedDists == [];
  }

  // ---------------------------------------------------------------------
  // writeThreshold: the first `tedthreshold = ...` line is rewritten.
  // ---------------------------------------------------------------------

  /** The text the pattern `tedthreshold = .*\n` starts with. */
  const Key := "tedthreshold = "

  /** The characters Java's regular-expression `.` does not match. */
  predicate LineTerminator(c: char) {
    c == '\n' || c == '\r' || c == '\U{85}' || c == '\U{2028}' || c == '\U{2029}'
  }

  predicate NoTerminator(s: string) {
    forall i :: 0 <= i < |s| ==> !LineTerminator(s[i])
  }

  /** The first line terminator at or after `from`, if any. */
  function EndOfLine(s: string, from: nat): (r: Option<nat>)
    requires from <= |s|
    ensures r.Some? ==> from <= r.value < |s|
    decreases |s| - from
  {
    if from == |s| then None
    else if LineTerminator(s[from]) then Some(from)
    else EndOfLine(s, from + 1)
  }

  /** The pattern `key.*\n` matches at the start of s: the key, then the rest of that line, which ends with '\n'. */
  predicate MatchesHere(s: string, key: string) {
    && StartsWith(s, key)
    && var e := EndOfLine(s, |key|);
    e.Some? && s[e.value] == '\n'
  }

  /**
   * `replaceFirst(key + ".*\\n", key + value + "\n")`: scanning from the
   * left, the first match, from the key to the '\n' ending its line, gives
   * way to the key, the value and a '\n'.
   */
  function ReplaceFirst(s: string, key: string, value: string): (r: string)
    decreases |s|
  {
    if MatchesHere(s, key) then key + value + "\n" + s[EndOfLine(s, |key|).value + 1..]
    else if s == [] then []
    else [s[0]] + ReplaceFirst(s[1..], key, value)
  }

  /** The end of a line is its first terminator: none comes before it. */
  lemma {:induction false} EndOfLineFirst(s: string, from: nat)
    requires from <= |s|
    ensures var r := EndOfLine(s, from);
      && (r.Some? ==> LineTerminator(s[r.value]) && NoTerminator(s[from..r.value]))
      && (r.None? ==> NoTerminator(s[from..]))
    decreases |s| - from
  {
    if from < |s| && !LineTerminator(s[from]) {
      EndOfLineFirst(s, from + 1);
      assert forall k :: from < k <= |s| ==> s[from..k] == [s[from]] + s[from + 1..k];
    }
  }

  /** No match starts at any of the first i positions of s. */
  predicate NoMatchBefore(s: string, key: string, i: nat)
    requires i <= |s|
    decreases i
  {
    i == 0 || (!MatchesHere(s, key) && NoMatchBefore(s[1..], key, i - 1))
  }

  /** Past a position where nothing matches, the scan copies one character. */
  lemma ReplaceStep(s: string, key: string, value: string)
    requires s != [] && !MatchesHere(s, key)
    ensures ReplaceFirst(s, key, value) == [s[0]] + ReplaceFirst(s[1..], key, value)
  {
  }

  /** The scan copies every character in front of the first match: the replacement is the leftmost one. */
  lemma {:induction false} ReplaceFrom(s: string, key: string, value: string, i: nat)
    requires i <= |s| && NoMatchBefore(s, key, i)
    ensures ReplaceFirst(s, key, value) == s[..i] + ReplaceFirst(s[i..], key, value)
    decreases i
  {
    if i == 0 {
      assert s[..0] + s[0..] == s;
    } else {
      var t := s[1..];
      ReplaceFrom(t, key, value, i - 1);
      ReplaceStep(s, key, value);
      assert t[i - 1..] == s[i..];
      var after := ReplaceFirst(s[i..], key, value);
      assert s[..i] == [s[0]] + t[..i - 1];
      assert [s[0]] + (t[..i - 1] + after) == ([s[0]] + t[..i - 1]) + after;
    }
  }

  /** Without a match anywhere the text comes back unchanged. */
  lemma NoMatchUnchanged(s: string, key: string, value: string)
    requires NoMatchBefore(s, key, |s|) && !MatchesHere([], key)
    ensures ReplaceFirst(s, key, value) == s
  {
    ReplaceFrom(s, key, value, |s|);
    assert s[..|s|] == s;
  }

  /** The lines read back, each followed by '\n', as the read loop appends them. */
  function Joined(lines: seq<string>): string {
    if lines == [] then "" else lines[0] + "\n" + Joined(lines[1..])
  }

  lemma {:induction false} JoinedAppend(lines: seq<string>, line: string)
    ensures Joined(lines + [line]) == Joined(lines) + line + "\n"
  {
    if lines != [] {
      JoinedAppend(lines[1..], line);
      assert (lines + [line])[1..] == lines[1..] + [line];
    }
  }

  /** Within a line without terminators, the end of the line is its '\n'. */
  lemma {:induction false} EndOfLineAt(line: string, rest: string, from: nat)
    requires NoTerminator(line) && from <= |line|
    ensures EndOfLine(line + "\n" + rest, from) == Some(|line|)
    decreases |line| - from
  {
    var s := line + "\n" + rest;
    if from < |line| {
      assert s[from] == line[from];
      EndOfLineAt(line, rest, from + 1);
    }
  }

  lemma SliceChar(s: string, lo: nat, hi: nat, k: nat)
    requires lo <= k < hi <= |s|
    ensures s[lo..hi][k - lo] == s[k]
  {
  }

  /** A key without line breaks matches at the start of a line only if the line starts with it. */
  lemma MatchStartsLine(line: string, rest: string, key: string)
    requires NoTerminator(key)
    requires MatchesHere(line + "\n" + rest, key)
    ensures StartsWith(line, key)
  {
    var s := line + "\n" + rest;
    if |key| > |line| {
      SliceChar(s, 0, |key|, |line|);
      assert false;
    }
    assert s[..|key|] == line[..|key|];
  }

  /** A line without the key is copied unchanged. */
  lemma {:induction false} ReplaceSkipsLine(line: string, rest: string, key: string, value: string)
    requires NoTerminator(key) && !Contains(line, key)
    ensures ReplaceFirst(line + "\n" + rest, key, value) == line + "\n" + ReplaceFirst(rest, key, value)
    decreases |line|
  {
    var s := line + "\n" + rest;
    if MatchesHere(s, key) {
      MatchStartsLine(line, rest, key);
      assert false;
    }
    ReplaceStep(s, key, value);
    if line == [] {
      assert s[1..] == rest;
    } else {
      assert s[1..] == line[1..] + "\n" + rest;
      ReplaceSkipsLine(line[1..], rest, key, value);
      assert s[0] == line[0];
      HeadAppend(line, "\n", ReplaceFirst(rest, key, value));
    }
  }

  lemma HeadAppend(line: string, mid: string, tail: string)
    requires line != []
    ensures [line[0]] + (line[1..] + mid + tail) == line + mid + tail
  {
    assert line == [line[0]] + line[1..];
  }

  /** A line that starts with the key is the one rewritten, and the text after it is kept. */
  lemma ReplaceHere(key: string, oldValue: string, rest: string, value: string)
    requires NoTerminator(key + oldValue)
    ensures ReplaceFirst(key + oldValue + "\n" + rest, key, value) == key + value + "\n" + rest
  {
    var line := key + oldValue;
    var s := line + "\n" + rest;
    EndOfLineAt(line, rest, |key|);
    assert s[..|key|] == key;
    assert s[|line| + 1..] == rest;
  }

  /** The key holds no line break. */
  lemma KeyOneLine()
    ensures NoTerminator(Key)
  {
  }

  /**
   * writeThreshold on a configuration whose first line containing the key
   * starts with it: that line, and only that line, becomes the key followed
   * by the new value.
   */
  lemma {:induction false} ThresholdLine(lines: seq<string>, k: nat, oldValue: string, value: string)
    requires k < |lines| && lines[k] == Key + oldValue
    requires forall m :: 0 <= m < |lines| ==> NoTerminator(lines[m])
    requires forall m :: 0 <= m < k ==> !Contains(lines[m], Key)
    ensures ReplaceFirst(Joined(lines), Key, value) == Joined(lines[k := Key + value])
  {
    if k == 0 {
      ReplaceHere(Key, oldValue, Joined(lines[1..]), value);
      assert lines[k := Key + value][1..] == lines[1..];
    } else {
      KeyOneLine();
      ThresholdLine(lines[1..], k - 1, oldValue, value);
      ReplaceSkipsLine(lines[0], Joined(lines[1..]), Key, value);
      assert lines[k := Key + value][1..] == lines[1..][k - 1 := Key + value];
    }
  }

  /** Without any line containing the key the configuration is written back unchanged. */
  lemma {:induction false} NoThresholdLine(lines: seq<string>, value: string)
    requires forall m :: 0 <= m < |lines| ==> !Contains(lines[m], Key)
    ensures ReplaceFirst(Joined(lines), Key, value) == Joined(lines)
  {
    if lines != [] {
      KeyOneLine();
      NoThresholdLine(lines[1..], value);
      ReplaceSkipsLine(lines[0], Joined(lines[1..]), Key, value);
    }
  }

  /**
   * `writeThreshold` over the lines `readLine` returns and the text of the
   * threshold: the lines are joined with '\n' and the first threshold line
   * replaced; the result is what is written back.
   */
  method WriteThreshold(lines: seq<string>, thresholdText: string) returns (config: string)
    ensures config == ReplaceFirst(Joined(lines), Key, thresholdText)
  {
    var inputBuffer := "";
    var i := 0;
    while i < |lines|
      invariant 0 <= i <= |lines|
      invariant inputBuffer == Joined(lines[..i])
    {
      JoinedAppend(lines[..i], lines[i]);
      assert lines[..i + 1] == lines[..i] + [lines[i]];
      inputBuffer := inputBuffer + lines[i] + "\n";
      i := i + 1;
    }
    assert lines[..i] == lines;
    config := ReplaceFirst(inputBuffer, Key, thresholdText);
  }

  // ---------------------------------------------------------------------
  // matchPhrases: each token is tied to the first chunk that holds it.
  // ---------------------------------------------------------------------

  /** A chunk text holds a word when it starts or ends with it. */
  predicate Fits(phrase: string, word: string) {
    StartsWith(phrase, word) || EndsWith(phrase, word)
  }

  /** The index of the first chunk whose text holds the word, if any. */
  function FirstPhrase(phrases: seq<Token>, word: string): (r: Option<nat>)
    ensures r.Some? ==> r.value < |phrases| && Fits(phrases[r.value].word, word)
    ensures r.Some? ==> forall j :: 0 <= j < r.value ==> !Fits(phrases[j].word, word)
    ensures r.None? ==> forall j :: 0 <= j < |phrases| ==> !Fits(phrases[j].word, word)
  {
    if phrases == [] then None
    else if Fits(phrases[0].word, word) then Some(0)
    else match FirstPhrase(phrases[1..], word)
      case None => None
      case Some(i) => Some(i + 1)
  }

  /**
   * The entry a token contributes: the text of the first chunk holding its
   * normalised lemma, tagged with the token's POS; none when no chunk
   * holds it.
   */
  function PhraseFor(t: Token, phrases: seq<Token>, normalize: (string, string) -> string): Option<Token> {
    match FirstPhrase(phrases, normalize(t.word, t.pos))
    case None => None
    case Some(i) => Some(Token(phrases[i].word, t.pos))
  }

  /** The entries of the tokens in token order, repeats included. */
  function Entries(tokens: seq<Token>, phrases: seq<Token>, normalize: (string, string) -> string): (r: seq<Token>)
    ensures |r| <= |tokens|
  {
    if tokens == [] then []
    else
      var last := PhraseFor(tokens[|tokens| - 1], phrases, normalize);
      Entries(tokens[..|tokens| - 1], phrases, normalize) + (if last.Some? then [last.value] else [])
  }

  /** The list `matchPhrases` returns: the entries, each kept once, in the order first met. */
  function Matched(tokens: seq<Token>, phrases: seq<Token>, normalize: (string, string) -> string): seq<Token> {
    AppendAbsent([], Entries(tokens, phrases, normalize))
  }

  /** An entry is among the entries exactly when some token contributes it. */
  lemma {:induction false} EntriesMembers(tokens: seq<Token>, phrases: seq<Token>, normalize: (string, string) -> string)
    ensures forall e :: e in Entries(tokens, phrases, normalize) <==>
      exists k :: 0 <= k < |tokens| && PhraseFor(tokens[k], phrases, normalize) == Some(e)
  {
    if tokens != [] {
      var init := tokens[..|tokens| - 1];
      EntriesMembers(init, phrases, normalize);
      assert forall k :: 0 <= k < |init| ==> init[k] == tokens[k];
    }
  }

  /**
   * `matchPhrases` never lists an entry twice, and lists exactly the
   * entries some token contributes.
   */
  lemma MatchedSpec(tokens: seq<Token>, phrases: seq<Token>, normalize: (string, string) -> string)
    ensures NoDuplicates(Matched(tokens, phrases, normalize))
    ensures forall e :: e in Matched(tokens, phrases, normalize) <==>
      exists k :: 0 <= k < |tokens| && PhraseFor(tokens[k], phrases, normalize) == Some(e)
  {
    AppendAbsentContents([], Entries(tokens, phrases, normalize));
    EntriesMembers(tokens, phrases, normalize);
  }

  /** e is chunk p's text tagged with t's POS, and p holds t's normalised lemma. */
  predicate ChunkEntry(e: Token, t: Token, p: Token, normalize: (string, string) -> string) {
    e == Token(p.word, t.pos) && Fits(p.word, normalize(t.word, t.pos))
  }

  /** Every listed entry is the text of a chunk, tagged with the POS of a token whose normalised lemma that chunk holds. */
  lemma MatchedFromChunks(tokens: seq<Token>, phrases: seq<Token>, normalize: (string, string) -> string, e: Token)
    requires e in Matched(tokens, phrases, normalize)
    ensures exists k, i :: 0 <= k < |tokens| && 0 <= i < |phrases| && ChunkEntry(e, tokens[k], phrases[i], normalize)
  {
    MatchedSpec(tokens, phrases, normalize);
    var k :| 0 <= k < |tokens| && PhraseFor(tokens[k], phrases, normalize) == Some(e);
    var i := FirstPhrase(phrases, normalize(tokens[k].word, tokens[k].pos)).value;
    assert ChunkEntry(e, tokens[k], phrases[i], normalize);
  }

  /** The inner loop of `matchPhrases`: scan the chunks and stop at the first that holds the word. */
  method FindPhrase(phrases: seq<Token>, word: string) returns (found: Option<nat>)
    ensures found == FirstPhrase(phrases, word)
  {
    found := None;
    var i := 0;
    while i < |phrases|
      invariant 0 <= i <= |phrases|
      invariant forall j :: 0 <= j < i ==> !Fits(phrases[j].word, word)
    {
      var phrase := phrases[i].word;
      if StartsWith(phrase, word) || EndsWith(phrase, word) {
        found := Some(i);
        break;
      }
      i := i + 1;
    }
    FirstPhraseUnique(phrases, word, found);
  }

  /** The first chunk holding a word is determined by the two properties FirstPhrase promises. */
  lemma FirstPhraseUnique(phrases: seq<Token>, word: string, r: Option<nat>)
    requires r.Some? ==> r.value < |phrases| && Fits(phrases[r.value].word, word)
    requires r.Some? ==> forall j :: 0 <= j < r.value ==> !Fits(phrases[j].word, word)
    requires r.None? ==> forall j :: 0 <= j < |phrases| ==> !Fits(phrases[j].word, word)
    ensures r == FirstPhrase(phrases, word)
  {
  }

  /** `matchPhrases`: for each token in turn, its entry is added unless already listed. */
  method MatchPhrases(tokens: seq<Token>, phrases: seq<Token>, normalize: (string, string) -> string)
    returns (matched: seq<Token>)
    ensures matched == Matched(tokens, phrases, normalize)
  {
    ghost var entries := Entries(tokens, phrases, normalize);
    matched := [];
    var k := 0;
    while k < |tokens|
      invariant 0 <= k <= |tokens|
      invariant matched == AppendAbsent([], Entries(tokens[..k], phrases, normalize))
    {
      EntriesStep(tokens, k, phrases, normalize);
      AppendAbsentStepOpt(Entries(tokens[..k], phrases, normalize), PhraseFor(tokens[k], phrases, normalize));
      var word := tokens[k].word;
      var pos := tokens[k].pos;
      var found := FindPhrase(phrases, normalize(word, pos));
      if found.Some? {
        var entry := Token(phrases[found.value].word, pos);
        if entry !in matched {
          matched := matched + [entry];
        }
      }
      k := k + 1;
    }
    assert tokens[..k] == tokens;
  }

  /** One more token examined. */
  lemma EntriesStep(tokens: seq<Token>, k: nat, phrases: seq<Token>, normalize: (string, string) -> string)
    requires k < |tokens|
    ensures var e := PhraseFor(tokens[k], phrases, normalize);
      Entries(tokens[..k + 1], phrases, normalize) == Entries(tokens[..k], phrases, normalize) + (if e.Some? then [e.value] else [])
  {
    assert tokens[..k + 1][..k] == tokens[..k];
  }

  /** Appending an optional item to the items AppendAbsent examines. */
  lemma AppendAbsentStepOpt<T>(items: seq<T>, x: Option<T>)
    ensures var grown := AppendAbsent([], items);
      AppendAbsent([], items + (if x.Some? then [x.value] else [])) ==
        if x.None? || x.value in grown then grown else grown + [x.value]
  {
    if x.Some? {
      assert (items + [x.value])[..|items|] == items;
    } else {
      assert items + [] == items;
    }
  }

  // ---------------------------------------------------------------------
  // getSourceTargetPairs: the five most related text/hypothesis pairs.
  // ---------------------------------------------------------------------

  /** One item of the relatedness service's response for a pair of words. */
  datatype Relatedness = Relatedness(t1: string, t2: string, score: real)

  /** A combined pair: the text side, the hypothesis side (each with its POS) and their relatedness. */
  datatype Candidate = Candidate(source: Token, target: Token, score: real)

  /** The response for one text phrase and one hypothesis phrase, tagged with their POS. */
  function Responses(t: Token, h: Token, related: (string, string) -> seq<Relatedness>): (r: seq<Candidate>) {
    var rs := related(t.word, h.word);
    seq(|rs|, i requires 0 <= i < |rs| => Candidate(Token(rs[i].t1, t.pos), Token(rs[i].t2, h.pos), rs[i].score))
  }

  /** One text phrase combined with every hypothesis phrase, in order. */
  function ForText(t: Token, hyps: seq<Token>, related: (string, string) -> seq<Relatedness>): seq<Candidate> {
    if hyps == [] then []
    else ForText(t, hyps[..|hyps| - 1], related) + Responses(t, hyps[|hyps| - 1], related)
  }

  /** Every text phrase combined with every hypothesis phrase, text-major. */
  function Combined(texts: seq<Token>, hyps: seq<Token>, related: (string, string) -> seq<Relatedness>): seq<Candidate> {
    if texts == [] then []
    else Combined(texts[..|texts| - 1], hyps, related) + ForText(texts[|texts| - 1], hyps, related)
  }

  /** The service related text phrase i to hypothesis phrase j with the candidate c. */
  predicate RelatedAt(texts: seq<Token>, hyps: seq<Token>, related: (string, string) -> seq<Relatedness>, c: Candidate, i: int, j: int) {
    0 <= i < |texts| && 0 <= j < |hyps| && c in Responses(texts[i], hyps[j], related)
  }

  /** A candidate comes out of the combination exactly when the service related one text phrase to one hypothesis phrase with it. */
  lemma {:induction false} CombinedMembers(texts: seq<Token>, hyps: seq<Token>, related: (string, string) -> seq<Relatedness>)
    ensures forall c :: c in Combined(texts, hyps, related) <==> exists i, j :: RelatedAt(texts, hyps, related, c, i, j)
  {
    if texts != [] {
      var n := |texts| - 1;
      var init := texts[..n];
      var before, now := Combined(init, hyps, related), ForText(texts[n], hyps, related);
      assert Combined(texts, hyps, related) == before + now;
      CombinedMembers(init, hyps, related);
      ForTextMembers(texts[n], hyps, related);
      forall c | c in before + now ensures exists i, j :: RelatedAt(texts, hyps, related, c, i, j) {
        if c in before {
          var i, j :| RelatedAt(init, hyps, related, c, i, j);
          assert init[i] == texts[i];
          assert RelatedAt(texts, hyps, related, c, i, j);
        } else {
          var j :| 0 <= j < |hyps| && c in Responses(texts[n], hyps[j], related);
          assert RelatedAt(texts, hyps, related, c, n, j);
        }
      }
      forall c, i, j | RelatedAt(texts, hyps, related, c, i, j) ensures c in before + now {
        if i < n {
          assert init[i] == texts[i];
          assert RelatedAt(init, hyps, related, c, i, j);
          assert c in before;
        } else {
          assert c in now;
        }
      }
    }
  }

  lemma {:induction false} ForTextMembers(t: Token, hyps: seq<Token>, related: (string, string) -> seq<Relatedness>)
    ensures forall c :: c in ForText(t, hyps, related) <==> exists j :: 0 <= j < |hyps| && c in Responses(t, hyps[j], related)
  {
    if hyps != [] {
      var init := hyps[..|hyps| - 1];
      ForTextMembers(t, init, related);
      assert forall j :: 0 <= j < |init| ==> init[j] == hyps[j];
    }
  }

  /** The sort key: ascending by it is descending by |score|. */
  function Strength(c: Candidate): real {
    -Abs(c.score)
  }

  /** The source/target pairs of the first min(n, 5) candidates. */
  function Best(sorted: seq<Candidate>): (r: seq<(Token, Token)>)
    ensures |r| == if |sorted| < MaxEntries then |sorted| else MaxEntries
  {
    var n := if |sorted| < MaxEntries then |sorted| else MaxEntries;
    seq(n, k requires 0 <= k < n => (sorted[k].source, sorted[k].target))
  }

  /** The combined candidates reordered by the insertion sort, by descending |score|. */
  function Ranked(all: seq<Candidate>): seq<Candidate> {
    InsertionSorted(all, Strength)
  }

  /**
   * The reordering is by non-increasing |score|, keeps every candidate, and
   * keeps candidates of equal |score| in the order they were combined.
   */
  lemma RankedSpec(all: seq<Candidate>)
    ensures multiset(Ranked(all)) == multiset(all)
    ensures forall i, j :: 0 <= i < j < |Ranked(all)| ==> Abs(Ranked(all)[i].score) >= Abs(Ranked(all)[j].score)
    ensures forall k :: WithKey(Ranked(all), Strength, k) == WithKey(all, Strength, k)
    ensures forall c :: c in Ranked(all) ==> c in all
  {
    var sorted := Ranked(all);
    InsertionSortedSorted(all, Strength);
    InsertionSortedPermutation(all, Strength);
    forall i, j | 0 <= i < j < |sorted| ensures Abs(sorted[i].score) >= Abs(sorted[j].score) {
      assert Strength(sorted[i]) <= Strength(sorted[j]);
    }
    forall k ensures WithKey(sorted, Strength, k) == WithKey(all, Strength, k) {
      InsertionSortedStable(all, Strength, k);
    }
    forall c | c in sorted ensures c in all {
      assert c in multiset(sorted);
    }
  }

  /** The pairs handed to graph navigation: the combination sorted by descending |score| (stably), then the first five. */
  function SourceTargetPairs(texts: seq<Token>, hyps: seq<Token>, related: (string, string) -> seq<Relatedness>): seq<(Token, Token)> {
    Best(Ranked(Combined(texts, hyps, related)))
  }

  /**
   * What `getSourceTargetPairs` promises: at most five pairs, the first ones
   * of the ranked candidates, so no candidate left out scores above one taken.
   */
  lemma SourceTargetPairsSpec(texts: seq<Token>, hyps: seq<Token>, related: (string, string) -> seq<Relatedness>)
    ensures var all := Combined(texts, hyps, related);
      var r := SourceTargetPairs(texts, hyps, related);
      && |r| == (if |all| < MaxEntries then |all| else MaxEntries)
      && (forall i :: 0 <= i < |r| ==> r[i] == (Ranked(all)[i].source, Ranked(all)[i].target) && Ranked(all)[i] in all)
      && (forall i, j :: 0 <= i < |r| <= j < |all| ==> Abs(Ranked(all)[i].score) >= Abs(Ranked(all)[j].score))
  {
    var all := Combined(texts, hyps, related);
    RankedSpec(all);
  }

  /** The innermost loop: every item of the service's response appended as a candidate. */
  method AddResponses(allPairs: seq<Candidate>, t: Token, h: Token, related: (string, string) -> seq<Relatedness>)
    returns (grown: seq<Candidate>)
    ensures grown == allPairs + Responses(t, h, related)
  {
    var scores := related(t.word, h.word);
    ghost var items := Responses(t, h, related);
    grown := allPairs;
    var m := 0;
    while m < |scores|
      invariant 0 <= m <= |scores|
      invariant grown == allPairs + items[..m]
    {
      assert items[..m + 1] == items[..m] + [items[m]];
      grown := grown + [Candidate(Token(scores[m].t1, t.pos), Token(scores[m].t2, h.pos), scores[m].score)];
      m := m + 1;
    }
    assert items[..m] == items;
  }

  /** The loop over the hypothesis phrases for one text phrase. */
  method AddForText(allPairs: seq<Candidate>, t: Token, hyps: seq<Token>, related: (string, string) -> seq<Relatedness>)
    returns (grown: seq<Candidate>)
    ensures grown == allPairs + ForText(t, hyps, related)
  {
    grown := allPairs;
    var j := 0;
    while j < |hyps|
      invariant 0 <= j <= |hyps|
      invariant grown == allPairs + ForText(t, hyps[..j], related)
    {
      assert hyps[..j + 1][..j] == hyps[..j];
      grown := AddResponses(grown, t, hyps[j], related);
      j := j + 1;
    }
    assert hyps[..j] == hyps;
  }

  /** The combination loops of `getSourceTargetPairs`, text phrases outermost. */
  method CombinePairs(texts: seq<Token>, hyps: seq<Token>, related: (string, string) -> seq<Relatedness>)
    returns (allPairs: seq<Candidate>)
    ensures allPairs == Combined(texts, hyps, related)
  {
    allPairs := [];
    var i := 0;
    while i < |texts|
      invariant 0 <= i <= |texts|
      invariant allPairs == Combined(texts[..i], hyps, related)
    {
      assert texts[..i + 1][..i] == texts[..i];
      allPairs := AddForText(allPairs, texts[i], hyps, related);
      i := i + 1;
    }
    assert texts[..i] == texts;
  }

  /**
   * `getSourceTargetPairs` from the result of `cleanPair` and the chunks of
   * text and hypothesis (None where chunking failed). A cleaned pair
   * without two lists or a missing chunking raises inside the `try`, and
   * the empty list comes back.
   */
  method GetSourceTargetPairs(cleaned: seq<seq<Token>>, textChunks: Option<seq<Token>>, hypChunks: Option<seq<Token>>,
                              normalize: (string, string) -> string, related: (string, string) -> seq<Relatedness>)
    returns (pairs: seq<(Token, Token)>)
    ensures |cleaned| < 2 || textChunks.None? || hypChunks.None? ==> pairs == []
    ensures |cleaned| >= 2 && textChunks.Some? && hypChunks.Some? ==>
      pairs == SourceTargetPairs(Matched(cleaned[0], textChunks.value, normalize), Matched(cleaned[1], hypChunks.value, normalize), related)
  {
    pairs := [];
    if |cleaned| < 1 || textChunks.None? {
      return;
    }
    var textPhrases := MatchPhrases(cleaned[0], textChunks.value, normalize);
    if |cleaned| < 2 || hypChunks.None? {
      return;
    }
    var hypPhrases := MatchPhrases(cleaned[1], hypChunks.value, normalize);
    var allPairs := CombinePairs(textPhrases, hypPhrases, related);
    pairs := TopPairs(allPairs);
  }

  /** The in-place insertion sort of the combined candidates, then the source/target pairs of the first five. */
  method TopPairs(allPairs: seq<Candidate>) returns (pairs: seq<(Token, Token)>)
    ensures pairs == Best(Ranked(allPairs))
  {
    var a := new Candidate[|allPairs|](i requires 0 <= i < |allPairs| => allPairs[i]);
    assert a[..] == allPairs;
    InsertionSort(a, Strength);
    var sorted := a[..];
    ghost var best := Best(sorted);
    var maxPairs := if |sorted| < MaxEntries then |sorted| else MaxEntries;
    pairs := [];
    var k := 0;
    while k < maxPairs
      invariant 0 <= k <= maxPairs
      invariant pairs == best[..k]
    {
      assert best[k] == (sorted[k].source, sorted[k].target);
      assert best[..k + 1] == best[..k] + [best[k]];
      pairs := pairs + [(sorted[k].source, sorted[k].target)];
      k := k + 1;
    }
    assert best[..k] == best;
  }

  // ---------------------------------------------------------------------
  // processPair: routing, the context veto and the printed answer.
  // ---------------------------------------------------------------------

  /** A property as Java's string concatenation shows it: null prints as "null". */
  function Shown(value: Option<string>): (r: string)
    ensures value.Some? ==> r == value.value
  {
    if value.Some? then value.value else "null"
  }

  /**
   * The decision `processPair` settles on, given the router's choice, the
   * context check and what each model would answer: a context "no" stands,
   * labelled with the chosen model; any other context answer gives way to
   * the chosen model, whose construction or computation may raise. A
   * context decision never set fails on `equals`, and an unknown model name
   * leaves the context decision as it is.
   */
  function Settle(model: string, context: Decision, ted: Result<Decision>, gn: Result<Decision>): (r: Result<Decision>)
    ensures r.Err? ==>
      (context.decision.None? && r.error == NullPointer)
      || (model == Router.EditDist && r == ted) || (model == Router.GraphNav && r == gn)
    ensures (model == Router.EditDist || model == Router.GraphNav) && context.decision == Some("no") ==>
      r.Ok? && r.value.decision == Some("no") && r.value.justification == context.justification && r.value.model == Some(model)
    ensures model != Router.EditDist && model != Router.GraphNav ==> r == Ok(context)
  {
    if model == Router.EditDist then
      if context.decision.None? then Err(NullPointer)
      else if context.decision.value != "no" then ted
      else Ok(context.(model := Some(Router.EditDist)))
    else if model == Router.GraphNav then
      if context.decision.None? then Err(NullPointer)
      else if context.decision.value != "no" then gn
      else Ok(context.(model := Some(Router.GraphNav)))
    else Ok(context)
  }

  /** The first two lines of the answer. */
  function Header(d: Decision): string {
    "Using model '" + Shown(d.model) + "'\nEntailment: " + Shown(d.decision)
  }

  /** The answer printed for a decision: the justification block only when it is not "null"; none set fails on `equals`. */
  function Output(d: Decision): (r: Result<string>)
    ensures r.Err? <==> d.justification.None?
  {
    if d.justification.None? then Err(NullPointer)
    else if d.justification.value == "null" then Ok(Header(d))
    else Ok(Header(d) + "\nJustification:\n" + d.justification.value)
  }

  /**
   * `processPair`: the router's choice (or its exception), then the context
   * check (or its exception), then the settled decision, then its printed
   * form.
   */
  function ProcessPair(route: Result<string>, context: Result<Decision>, ted: Result<Decision>, gn: Result<Decision>): (r: Result<string>)
    ensures route.Err? ==> r == Err(route.error)
    ensures route.Ok? && context.Err? ==> r == Err(context.error)
    ensures r.Ok? ==> StartsWith(r.value, "Using model '")
  {
    match route
    case Err(e) => Err(e)
    case Ok(model) =>
      match context
      case Err(e) => Err(e)
      case Ok(checked) =>
        match Settle(model, checked, ted, gn)
        case Err(e) => Err(e)
        case Ok(d) => Output(d)
  }

  /** The printed answer always starts with the two header lines, and has more exactly when the justification is not "null". */
  lemma OutputShape(d: Decision)
    requires d.justification.Some?
    ensures var s := Output(d).value;
      && StartsWith(s, Header(d))
      && (|s| == |Header(d)| <==> d.justification.value == "null")
      && (d.justification.value != "null" ==> s[|Header(d)|..] == "\nJustification:\n" + d.justification.value)
  {
    var s := Output(d).value;
    if d.justification.value != "null" {
      assert s[..|Header(d)|] == Header(d);
      assert s[|Header(d)|..] == "\nJustification:\n" + d.justification.value;
    }
  }

  /**
   * A context veto stands whatever the models would say: the decision is
   * "no", its justification "null" is not printed, and only the chosen
   * model's name is added.
   */
  lemma VetoKept(model: string, context: Decision, ted: Result<Decision>, gn: Result<Decision>, ted': Result<Decision>, gn': Result<Decision>)
    requires model == Router.EditDist || model == Router.GraphNav
    requires context.decision == Some("no") && context.justification == Some("null")
    ensures ProcessPair(Ok(model), Ok(context), ted, gn) == ProcessPair(Ok(model), Ok(context), ted', gn')
    ensures ProcessPair(Ok(model), Ok(context), ted, gn) == Ok("Using model '" + model + "'\nEntailment: no")
  {
    var d := context.(model := Some(model));
    assert Settle(model, context, ted, gn) == Ok(d);
    assert Header(d) == "Using model '" + model + "'\nEntailment: " + "no";
    var front := "Using model '" + model;
    assert "'\nEntailment: " + "no" == "'\nEntailment: no";
    assert front + "'\nEntailment: " + "no" == front + ("'\nEntailment: " + "no");
  }

  /** Without a veto the chosen model decides, and its answer, or the exception it raises, is what comes out. */
  lemma ModelAnswers(model: string, context: Decision, ted: Result<Decision>, gn: Result<Decision>)
    requires context.decision.Some? && context.decision.value != "no"
    ensures model == Router.EditDist ==> ProcessPair(Ok(model), Ok(context), ted, gn) == (if ted.Err? then Err(ted.error) else Output(ted.value))
    ensures model == Router.GraphNav ==> ProcessPair(Ok(model), Ok(context), ted, gn) == (if gn.Err? then Err(gn.error) else Output(gn.value))
  {
  }

  /**
   * End to end with tree edit distance and no veto: the answer names the
   * "EditDistance" model and says "yes" with its justification exactly
   * when the smallest distance is within the threshold, and a bare "no"
   * otherwise.
   */
  lemma EditDistanceAnswer(minDist: real, threshold: real)
    ensures var out := ProcessPair(Ok(Router.EditDist), Ok(Decision(Some("null"), None, None)), Ok(Ted.Decide(minDist, threshold)), Err(NullPointer));
      var head := "Using model '" + Ted.ModelName + "'\nEntailment: ";
      out == Ok(if minDist <= threshold then head + "yes" + "\nJustification:\n" + Ted.YesJustification else head + "no")
  {
    assert "null" != "no";
    assert Ted.YesJustification != "null";
  }
}
