/**
 * The ranking helpers of models/GraphNavigation: the synonym test, the
 * "max-gap" threshold over a ranked score list, the best-matching terms
 * of a relatedness response, the head words of a segment and the
 * supertype filter.
 *
 * The relatedness service answers with a list of (term, score) entries;
 * its answer comes in as a parameter (a function of the words asked
 * about, the target word folded in). Scores are doubles, modelled as
 * reals.
 */
module Ranking {
  import opened Strings
  import opened Lists
  import opened Tables
  import opened Sorting
  import opened Text
  import Synsets

  const MaxEntries: nat := 5

  /** One entry of a relatedness response: the term `t2` and its score. */
  datatype Scored = Scored(t2: string, score: real)

  /** Ascending |score|. */
  function AbsScore(x: Scored): real {
    Abs(x.score)
  }

  /** Descending |score|. */
  function NegAbsScore(x: Scored): real {
    -Abs(x.score)
  }

  /** The terms of the entries, in order. */
  function Items(s: seq<Scored>): (r: seq<string>)
    ensures |r| == |s|
  {
    if s == [] then [] else Items(s[..|s| - 1]) + [s[|s| - 1].t2]
  }

  lemma {:induction false} ItemsAt(s: seq<Scored>, i: nat)
    requires i < |s|
    ensures Items(s)[i] == s[i].t2
  {
    if i < |s| - 1 {
      ItemsAt(s[..|s| - 1], i);
    }
  }

  lemma {:induction false} ItemsAppend(a: seq<Scored>, b: seq<Scored>)
    ensures Items(a + b) == Items(a) + Items(b)
  {
    if b != [] {
      ItemsAppend(a, b[..|b| - 1]);
      assert (a + b)[..|a + b| - 1] == a + b[..|b| - 1];
    } else {
      assert a + b == a;
    }
  }

  lemma {:induction false} ItemsInsert(sorted: seq<Scored>, x: Scored, key: Scored -> real)
    ensures multiset(Items(InsertByKey(sorted, x, key))) == multiset(Items(sorted)) + multiset{x.t2}
  {
    if sorted != [] {
      var init := sorted[..|sorted| - 1];
      var last := sorted[|sorted| - 1];
      ItemsAppend(init, [last]);
      assert sorted == init + [last];
      if key(x) < key(last) {
        ItemsInsert(init, x, key);
        ItemsAppend(InsertByKey(init, x, key), [last]);
      } else {
        ItemsAppend(sorted, [x]);
      }
    }
  }

  /** Sorting permutes the terms. */
  lemma {:induction false} ItemsSorted(s: seq<Scored>, key: Scored -> real)
    ensures multiset(Items(InsertionSorted(s, key))) == multiset(Items(s))
  {
    if s != [] {
      var init := s[..|s| - 1];
      var x := s[|s| - 1];
      var t := InsertionSorted(init, key);
      assert InsertionSorted(s, key) == InsertByKey(t, x, key);
      ItemsSorted(init, key);
      ItemsInsert(t, x, key);
      assert Items(s) == Items(init) + [x.t2];
    }
  }

  /** The response copied into a list and sorted in place by the key. */
  method Ranked(response: seq<Scored>, key: Scored -> real) returns (sorted: seq<Scored>)
    ensures sorted == InsertionSorted(response, key)
  {
    var scores := new Scored[|response|](i requires 0 <= i < |response| => response[i]);
    assert scores[..] == response;
    InsertionSort(scores, key);
    sorted := scores[..];
  }

  /** `areSynonyms` of models/GraphNavigation: word2 is filed among the synonyms of word1 for that POS. */
  function AreSynonymsAs(synonyms: map<string, seq<string>>, word1: string, word2: string, pos: string): (r: bool)
    ensures r <==> Key(word1, pos) in synonyms && word2 in synonyms[Key(word1, pos)]
  {
    word2 in Synsets.GetSynonyms(synonyms, word1, pos)
  }

  /** The drop in |score| from entry i to entry i + 1. */
  function Drop(scores: seq<Scored>, i: nat): real
    requires i + 1 < |scores|
  {
    Abs(scores[i].score) - Abs(scores[i + 1].score)
  }

  /**
   * `computeThreshold`: the |score| just after the largest strictly
   * positive adjacent drop (the first of equal drops), 0.0 when no adjacent
   * pair drops.
   */
  method ComputeThreshold(scores: seq<Scored>) returns (bottom: real)
    ensures (forall i :: 0 <= i < |scores| - 1 ==> Drop(scores, i) <= 0.0) ==> bottom == 0.0
    ensures (exists i :: 0 <= i < |scores| - 1 && Drop(scores, i) > 0.0) ==>
      exists i :: 0 <= i < |scores| - 1 && Drop(scores, i) > 0.0 && bottom == Abs(scores[i + 1].score)
        && (forall k :: 0 <= k < |scores| - 1 ==> Drop(scores, k) <= Drop(scores, i))
        && (forall k :: 0 <= k < i ==> Drop(scores, k) < Drop(scores, i))
  {
    var maxDiff := 0.0;
    bottom := 0.0;
    ghost var at := -1;
    var i := 0;
    while i < |scores| - 1
      invariant 0 <= i <= if |scores| == 0 then 0 else |scores| - 1
      invariant -1 <= at < i
      invariant at == -1 ==> maxDiff == 0.0 && bottom == 0.0 && forall k :: 0 <= k < i ==> Drop(scores, k) <= 0.0
      invariant at >= 0 ==> maxDiff == Drop(scores, at) > 0.0 && bottom == Abs(scores[at + 1].score)
      invariant at >= 0 ==> forall k :: 0 <= k < i ==> Drop(scores, k) <= maxDiff
      invariant at >= 0 ==> forall k :: 0 <= k < at ==> Drop(scores, k) < maxDiff
    {
      var currScore := Abs(scores[i].score);
      var nextScore := Abs(scores[i + 1].score);
      var diff := currScore - nextScore;
      if diff > maxDiff {
        maxDiff := diff;
        bottom := nextScore;
        at := i;
      }
      i := i + 1;
    }
  }

  /** Sorted by ascending |score|, no adjacent pair drops. */
  lemma AscendingNoDrop(scores: seq<Scored>)
    requires SortedBy(scores, AbsScore)
    ensures forall i :: 0 <= i < |scores| - 1 ==> Drop(scores, i) <= 0.0
  {
    forall i | 0 <= i < |scores| - 1 ensures Drop(scores, i) <= 0.0 {
      assert AbsScore(scores[i]) <= AbsScore(scores[i + 1]);
    }
  }

  /** The terms whose |score| is at least the threshold, in order. */
  function AtLeast(scores: seq<Scored>, threshold: real): (r: seq<string>)
    ensures |r| <= |scores|
  {
    if scores == [] then []
    else
      var last := scores[|scores| - 1];
      AtLeast(scores[..|scores| - 1], threshold) + (if Abs(last.score) >= threshold then [last.t2] else [])
  }

  /** With threshold 0.0 every term passes. */
  lemma {:induction false} AtLeastZero(scores: seq<Scored>)
    ensures AtLeast(scores, 0.0) == Items(scores)
  {
    if scores != [] {
      AtLeastZero(scores[..|scores| - 1]);
    }
  }

  /** The loop that keeps the terms scoring at least the threshold. */
  method KeepAtLeast(scores: seq<Scored>, threshold: real) returns (best: seq<string>)
    ensures best == AtLeast(scores, threshold)
  {
    best := [];
    var i := 0;
    while i < |scores|
      invariant 0 <= i <= |scores|
      invariant best == AtLeast(scores[..i], threshold)
    {
      assert scores[..i + 1][..i] == scores[..i];
      if Abs(scores[i].score) >= threshold {
        best := best + [scores[i].t2];
      }
      i := i + 1;
    }
    assert scores[..i] == scores;
  }

  /**
   * `getBestMatches`: the response sorted by ascending |score| (stable
   * insertion sort), cut at the max-gap threshold, reversed unless
   * `ascending`. As the sorted list never drops, the threshold is 0.0 and
   * every term is kept; the one-term fallback is never taken.
   */
  method GetBestMatches(response: seq<Scored>, ascending: bool) returns (best: seq<string>)
    ensures best == BestMatches(response, ascending)
    ensures |best| == |response|
    ensures multiset(best) == multiset(Items(response))
  {
    var sorted := Ranked(response, AbsScore);
    InsertionSortedSorted(response, AbsScore);
    AscendingNoDrop(sorted);
    var threshold := ComputeThreshold(sorted);
    best := KeepAtLeast(sorted, threshold);
    AtLeastZero(sorted);
    if |best| == 0 && |sorted| > 0 {
      assert false;
    } else if !ascending {
      best := ReverseList(best);
    }
  }

  /** The terms of the response by ascending |score|, or descending when not `ascending`. */
  function BestMatches(response: seq<Scored>, ascending: bool): (r: seq<string>)
    ensures |r| == |response|
    ensures multiset(r) == multiset(Items(response))
  {
    var sorted := Items(InsertionSorted(response, AbsScore));
    ItemsSorted(response, AbsScore);
    ReverseMultiset(sorted);
    if ascending then sorted else Reverse(sorted)
  }

  lemma {:induction false} ReverseMultiset(s: seq<string>)
    ensures multiset(Reverse(s)) == multiset(s)
  {
    if s != [] {
      var init := s[..|s| - 1];
      ReverseMultiset(init);
      assert Reverse(s) == [s[|s| - 1]] + Reverse(init);
      assert s == init + [s[|s| - 1]];
    }
  }

  /** The first min(n, 5) terms of the list ranked by descending |score|. */
  function TopTerms(scores: seq<Scored>): (r: seq<string>)
    ensures |r| <= MaxEntries && |r| <= |scores|
  {
    var ranked := InsertionSorted(scores, NegAbsScore);
    Items(ranked[..if |ranked| < MaxEntries then |ranked| else MaxEntries])
  }

  /** Every term left out of the top scores no higher than every term kept. */
  lemma TopTermsHighest(scores: seq<Scored>)
    ensures var ranked := InsertionSorted(scores, NegAbsScore);
      forall i, j :: 0 <= i < MaxEntries <= j < |ranked| ==> Abs(ranked[i].score) >= Abs(ranked[j].score)
  {
    InsertionSortedSorted(scores, NegAbsScore);
    var ranked := InsertionSorted(scores, NegAbsScore);
    forall i, j | 0 <= i < MaxEntries <= j < |ranked| ensures Abs(ranked[i].score) >= Abs(ranked[j].score) {
      assert NegAbsScore(ranked[i]) <= NegAbsScore(ranked[j]);
    }
  }

  /** The segment left once stop words and low-IDF entries are removed. */
  function ContentSegment(segment: seq<Token>, stopWords: seq<string>, idfs: map<string, real>): seq<Token> {
    HighIdf(idfs, WithoutStopWords(segment, stopWords))
  }

  /**
   * `getHeadWords`: drop stop words and low-IDF entries from the segment
   * (the caller's list, returned as `segmentLeft`), rank the rest by
   * descending |score| and keep the top five; reversed when `ascending`.
   */
  method GetHeadWords(segment: seq<Token>, ascending: bool, stopWords: seq<string>, idfs: map<string, real>,
                      response: seq<Token> -> seq<Scored>)
    returns (headWords: seq<string>, segmentLeft: seq<Token>)
    ensures segmentLeft == ContentSegment(segment, stopWords, idfs)
    ensures segmentLeft == [] ==> headWords == []
    ensures segmentLeft != [] ==> headWords == if ascending then Reverse(TopTerms(response(segmentLeft))) else TopTerms(response(segmentLeft))
    ensures |headWords| <= MaxEntries
  {
    segmentLeft := RemoveStopWords(segment, stopWords);
    segmentLeft := RemoveLowIdf(idfs, segmentLeft);
    headWords := [];
    if |segmentLeft| > 0 {
      var answer := response(segmentLeft);
      var scores := Ranked(answer, NegAbsScore);
      var maxWords := if |scores| < MaxEntries then |scores| else MaxEntries;
      if ascending {
        headWords := FirstTermsBackwards(scores, maxWords);
      } else {
        headWords := FirstTerms(scores, maxWords);
      }
    }
  }

  /** The loop `for k = 0 .. maxWords-1` collecting terms. */
  method FirstTerms(ranked: seq<Scored>, maxWords: nat) returns (words: seq<string>)
    requires maxWords <= |ranked|
    ensures words == Items(ranked[..maxWords])
  {
    words := [];
    var k := 0;
    while k < maxWords
      invariant 0 <= k <= maxWords
      invariant words == Items(ranked[..k])
    {
      assert ranked[..k + 1][..k] == ranked[..k];
      words := words + [ranked[k].t2];
      k := k + 1;
    }
  }

  /** The loop `for k = maxWords-1 .. 0` collecting terms. */
  method FirstTermsBackwards(ranked: seq<Scored>, maxWords: nat) returns (words: seq<string>)
    requires maxWords <= |ranked|
    ensures words == Reverse(Items(ranked[..maxWords]))
  {
    ghost var top := Items(ranked[..maxWords]);
    words := [];
    var k := maxWords - 1;
    while k >= 0
      invariant -1 <= k < maxWords
      invariant |words| == maxWords - 1 - k
      invariant forall m :: 0 <= m < |words| ==> words[m] == top[maxWords - 1 - m]
    {
      ItemsAt(ranked[..maxWords], k);
      words := words + [ranked[k].t2];
      k := k - 1;
    }
  }

  /** The keys filed with `segment` among their roles, in key order. */
  function SupertypesOf(tuples: map<string, seq<string>>, keys: seq<string>, segment: string): (r: seq<string>)
    requires forall k :: k in keys ==> k in tuples
    ensures forall s :: s in r <==> s in keys && segment in tuples[s]
  {
    if keys == [] then []
    else
      var last := keys[|keys| - 1];
      SupertypesOf(tuples, keys[..|keys| - 1], segment) + (if segment in tuples[last] then [last] else [])
  }

  /** The supertypes collected for each segment in turn. */
  function Supertypes(tuples: map<string, seq<string>>, keys: seq<string>, segments: seq<string>): seq<string>
    requires forall k :: k in keys ==> k in tuples
  {
    if segments == [] then []
    else Supertypes(tuples, keys, segments[..|segments| - 1]) + SupertypesOf(tuples, keys, segments[|segments| - 1])
  }

  /** A supertype is collected exactly when one of the segments is among its roles. */
  lemma {:induction false} SupertypesMembers(tuples: map<string, seq<string>>, keys: seq<string>, segments: seq<string>, s: string)
    requires forall k :: k in keys ==> k in tuples
    ensures s in Supertypes(tuples, keys, segments) <==> s in keys && exists i :: 0 <= i < |segments| && segments[i] in tuples[s]
  {
    if segments != [] {
      var init := segments[..|segments| - 1];
      var last := segments[|segments| - 1];
      var before, now := Supertypes(tuples, keys, init), SupertypesOf(tuples, keys, last);
      assert Supertypes(tuples, keys, segments) == before + now;
      if s in before {
        SupertypesMembers(tuples, keys, init, s);
        var i :| 0 <= i < |init| && init[i] in tuples[s];
        assert segments[i] == init[i];
      } else if s in now {
        assert segments[|segments| - 1] in tuples[s];
      }
      if s in keys && exists i :: 0 <= i < |segments| && segments[i] in tuples[s] {
        var i :| 0 <= i < |segments| && segments[i] in tuples[s];
        if i < |init| {
          assert init[i] == segments[i];
          SupertypesMembers(tuples, keys, init, s);
          assert s in before;
        } else {
          assert i == |segments| - 1;
          assert s in now;
        }
      }
    }
  }

  /** The inner loop of `filterSupertypes`, over the keys in their iteration order. */
  method SupertypesOfSegment(tuples: map<string, seq<string>>, keys: seq<string>, segment: string)
    returns (found: seq<string>)
    requires forall k :: k in keys ==> k in tuples
    ensures found == SupertypesOf(tuples, keys, segment)
  {
    found := [];
    var i := 0;
    while i < |keys|
      invariant 0 <= i <= |keys|
      invariant found == SupertypesOf(tuples, keys[..i], segment)
    {
      assert keys[..i + 1][..i] == keys[..i];
      if segment in tuples[keys[i]] {
        found := found + [keys[i]];
      }
      i := i + 1;
    }
    assert keys[..i] == keys;
  }

  /**
   * `filterSupertypes`: for each segment, every supertype whose roles
   * contain it. The iteration order of the key set is a parameter listing
   * exactly the keys.
   */
  method FilterSupertypes(tuples: map<string, seq<string>>, keys: seq<string>, segments: seq<string>)
    returns (bestSupertypes: seq<string>)
    requires forall k :: k in keys <==> k in tuples
    ensures bestSupertypes == Supertypes(tuples, keys, segments)
    ensures forall s :: s in bestSupertypes <==> s in tuples && exists i :: 0 <= i < |segments| && segments[i] in tuples[s]
  {
    forall s {
      SupertypesMembers(tuples, keys, segments, s);
    }
    bestSupertypes := [];
    var i := 0;
    while i < |segments|
      invariant 0 <= i <= |segments|
      invariant bestSupertypes == Supertypes(tuples, keys, segments[..i])
    {
      assert segments[..i + 1][..i] == segments[..i];
      var found := SupertypesOfSegment(tuples, keys, segments[i]);
      bestSupertypes := bestSupertypes + found;
      i := i + 1;
    }
    assert segments[..i] == segments;
  }
}
