/**
 * The context vetoes (models/ContextCheck): before any entailment model is
 * asked, a pair is rejected when the hypothesis is a plain negation of the
 * text (or the other way round), when the two contain antonyms, when the
 * hypothesis has more clauses than the text can satisfy, or when the
 * hypothesis names a specialisation of a text word.
 *
 * The token lists ("lemma;POS") of the tokenizer, the phrase chunks of the
 * WordNet splitter, and the clause counts of the first parse tree of each
 * side (a Tregex match count) come in as parameters; None stands for an
 * exception thrown while producing them, and a missing clause count for a
 * parse that gave no tree, whose `get(0)` raises. The three word tables are the
 * maps their loaders build.
 */
module Context {
  import opened Strings
  import opened Lists
  import opened Tables
  import opened Text
  import opened Decisions
  import Synsets
  import Antonyms
  import Hypernyms

  /** `areSynonyms`: word2 is filed among the noun or the verb synonyms of word1. */
  function AreSynonyms(synonyms: map<string, seq<string>>, word1: string, word2: string): (r: bool)
    ensures r <==> ((Key(word1, "NN") in synonyms && word2 in synonyms[Key(word1, "NN")])
                 || (Key(word1, "VB") in synonyms && word2 in synonyms[Key(word1, "VB")]))
  {
    word2 in Synsets.GetSynonyms(synonyms, word1, "NN") + Synsets.GetSynonyms(synonyms, word1, "VB")
  }

  /** The loop that collects the elements of xs also found in ys. */
  method OverlapOf<T(==,!new)>(xs: seq<T>, ys: seq<T>) returns (overlap: seq<T>)
    ensures overlap == Retain(xs, ys)
  {
    overlap := [];
    var i := 0;
    while i < |xs|
      invariant 0 <= i <= |xs|
      invariant overlap == Retain(xs[..i], ys)
    {
      RetainStep(xs, i, ys);
      if xs[i] in ys {
        overlap := overlap + [xs[i]];
      }
      i := i + 1;
    }
    assert xs[..i] == xs;
  }

  /** `removeIf` of the elements found in `redundant`. */
  method RemoveRedundant<T(==,!new)>(xs: seq<T>, redundant: seq<T>) returns (kept: seq<T>)
    ensures kept == Exclude(xs, redundant)
  {
    kept := [];
    var i := 0;
    while i < |xs|
      invariant 0 <= i <= |xs|
      invariant kept == Exclude(xs[..i], redundant)
    {
      ExcludeStep(xs, i, redundant);
      if xs[i] !in redundant {
        kept := kept + [xs[i]];
      }
      i := i + 1;
    }
    assert xs[..i] == xs;
  }

  /** The lemmas of the tokens that are not stop words. */
  function ContentWords(tokens: seq<Token>, stopWords: seq<string>): seq<string> {
    Words(WithoutStopWords(tokens, stopWords))
  }

  /**
   * Every content lemma of the text is a content lemma of the hypothesis
   * (vacuously so for a text of stop words only); false when tokenising threw.
   */
  predicate TotalOverlap(textTokens: Option<seq<Token>>, hypTokens: Option<seq<Token>>, stopWords: seq<string>)
    ensures textTokens.Some? && hypTokens == textTokens ==> TotalOverlap(textTokens, hypTokens, stopWords)
  {
    textTokens.Some? && hypTokens.Some? &&
    forall w :: w in ContentWords(textTokens.value, stopWords) ==> w in ContentWords(hypTokens.value, stopWords)
  }

  /** `totalOverlap`: the text lemmas found in the hypothesis, compared with all text lemmas. */
  method CheckTotalOverlap(textTokens: Option<seq<Token>>, hypTokens: Option<seq<Token>>, stopWords: seq<string>)
    returns (empty: bool)
    ensures empty == TotalOverlap(textTokens, hypTokens, stopWords)
  {
    if textTokens.None? || hypTokens.None? {
      return false;
    }
    var text := RemoveStopWords(textTokens.value, stopWords);
    var hyp := RemoveStopWords(hypTokens.value, stopWords);
    var textWords, hypWords := Words(text), Words(hyp);
    assert textWords == ContentWords(textTokens.value, stopWords);
    assert hypWords == ContentWords(hypTokens.value, stopWords);
    var overlap := OverlapOf(textWords, hypWords);
    RetainAll(textWords, hypWords);
    empty := overlap == textWords;
  }

  /**
   * `clauseOverflow`: the first parse tree of each side must exist, and
   * then the test is whether the hypothesis has more clauses than the text
   * without total overlap.
   */
  function ClauseOverflow(textClauses: Option<nat>, hypClauses: Option<nat>, textTokens: Option<seq<Token>>,
                          hypTokens: Option<seq<Token>>, stopWords: seq<string>): (r: Result<bool>)
    ensures r.Err? <==> textClauses.None? || hypClauses.None?
    ensures r.Err? ==> r.error == IndexOutOfBounds
    ensures r == Ok(true) ==> hypClauses.value > textClauses.value
    ensures TotalOverlap(textTokens, hypTokens, stopWords) ==> r != Ok(true)
  {
    if textClauses.None? || hypClauses.None? then Err(IndexOutOfBounds)
    else Ok(hypClauses.value > textClauses.value && !TotalOverlap(textTokens, hypTokens, stopWords))
  }

  /** `clauseOverflow`, with the `get(0)` of either parse raising when it gave no tree. */
  method CheckClauseOverflow(textClauses: Option<nat>, hypClauses: Option<nat>, textTokens: Option<seq<Token>>,
                             hypTokens: Option<seq<Token>>, stopWords: seq<string>) returns (overflow: Result<bool>)
    ensures overflow == ClauseOverflow(textClauses, hypClauses, textTokens, hypTokens, stopWords)
    ensures overflow.Err? <==> textClauses.None? || hypClauses.None?
    ensures overflow == Ok(true) <==>
      textClauses.Some? && hypClauses.Some? && hypClauses.value > textClauses.value
      && !TotalOverlap(textTokens, hypTokens, stopWords)
  {
    if textClauses.None? || hypClauses.None? {
      return Err(IndexOutOfBounds);
    }
    var overflowing := false;
    if hypClauses.value > textClauses.value {
      var total := CheckTotalOverlap(textTokens, hypTokens, stopWords);
      overflowing := !total;
    }
    overflow := Ok(overflowing);
  }

  /**
   * The lemmas each side keeps once the hypothesis lemmas found in the text
   * are removed from both: a text lemma survives exactly when the
   * hypothesis does not use it, and the other way round.
   */
  method Leftovers(textTokens: seq<Token>, hypTokens: seq<Token>) returns (textLeft: seq<string>, hypLeft: seq<string>)
    ensures textLeft == Exclude(Words(textTokens), Words(hypTokens))
    ensures hypLeft == Exclude(Words(hypTokens), Words(textTokens))
  {
    var textWords, hypWords := Words(textTokens), Words(hypTokens);
    var overlap := OverlapOf(hypWords, textWords);
    textLeft := RemoveRedundant(textWords, overlap);
    hypLeft := RemoveRedundant(hypWords, overlap);
    ExcludeSame(textWords, overlap, hypWords);
    ExcludeSame(hypWords, overlap, textWords);
  }

  /**
   * One of the five negation phrases of `n` words. The phrases are lower
   * case, so `equalsIgnoreCase` with them is equality of the lower-cased string.
   */
  predicate IsNegationPhrase(n: nat, s: string) {
    var l := ToLower(s);
    (n == 1 && l == "not")
    || (n == 2 && (l == "there no" || l == "there not" || l == "do not"))
    || (n == 3 && (l == "there be no" || l == "there be not"))
  }

  /** The leftover words, joined by `listToString`, read as a negation. */
  predicate NegationPhrase(words: seq<string>)
    ensures NegationPhrase(words) ==> 1 <= |words| <= 3
  {
    IsNegationPhrase(|words|, Trim(JoinBlank(words)))
  }

  /** The text leftover is a negation phrase, or it is empty and the hypothesis leftover is one. */
  predicate Negation(textTokens: seq<Token>, hypTokens: seq<Token>)
    ensures Negation(textTokens, hypTokens) ==>
      Exclude(Words(textTokens), Words(hypTokens)) != [] || Exclude(Words(hypTokens), Words(textTokens)) != []
  {
    var textLeft := Exclude(Words(textTokens), Words(hypTokens));
    var hypLeft := Exclude(Words(hypTokens), Words(textTokens));
    NegationPhrase(textLeft) || (textLeft == [] && NegationPhrase(hypLeft))
  }

  /** `isNegation`. */
  method IsNegation(textTokens: seq<Token>, hypTokens: seq<Token>) returns (negation: bool)
    ensures negation == Negation(textTokens, hypTokens)
  {
    var textWords, hypWords := Leftovers(textTokens, hypTokens);
    var textStr := ListToString(textWords);
    var hypStr := ListToString(hypWords);
    assert NegationPhrase(textWords) == IsNegationPhrase(|textWords|, textStr);
    assert NegationPhrase(hypWords) == IsNegationPhrase(|hypWords|, hypStr);
    assert |textWords| == 0 <==> textWords == [];
    negation := IsNegationPhrase(|textWords|, textStr) || (|textWords| == 0 && IsNegationPhrase(|hypWords|, hypStr));
  }

  /** The part of a string after its last blank. */
  function AfterLastBlank(s: string): (r: string)
    ensures ' ' !in r
  {
    if s == [] || s[|s| - 1] == ' ' then [] else AfterLastBlank(s[..|s| - 1]) + [s[|s| - 1]]
  }

  lemma {:induction false} AfterLastBlankOf(x: string, b: string)
    requires ' ' !in b
    ensures AfterLastBlank(x + " " + b) == b
    decreases |b|
  {
    var s := x + " " + b;
    if b == [] {
      assert s[|s| - 1] == ' ';
    } else {
      var b' := b[..|b| - 1];
      assert b[|b| - 1] in b;
      assert s[..|s| - 1] == x + " " + b';
      assert forall c :: c in b' ==> c in b;
      AfterLastBlankOf(x, b');
    }
  }

  /** The last blank of a string splits it in one way only. */
  lemma SplitLastBlank(x: string, b: string, y: string, q: string)
    requires ' ' !in b && ' ' !in q
    requires x + " " + b == y + " " + q
    ensures x == y && b == q
  {
    AfterLastBlankOf(x, b);
    AfterLastBlankOf(y, q);
    var s := x + " " + b;
    assert x == s[..|x|];
    assert y == s[..|y|];
  }

  lemma LowerBlankFree(w: string)
    requires ' ' !in w
    ensures ' ' !in ToLower(w)
  {
    forall i | 0 <= i < |w| ensures ToLower(w)[i] != ' ' {
      assert w[i] != ' ';
    }
  }

  /** Two blank-joined words, lower-cased, equal a two-word phrase exactly when each word does. */
  lemma TwoWords(w0: string, w1: string, p0: string, p1: string)
    requires ' ' !in w1 && ' ' !in p1
    ensures ToLower(w0 + " " + w1) == p0 + " " + p1 <==> ToLower(w0) == p0 && ToLower(w1) == p1
  {
    ToLowerAppend(w0 + " ", w1);
    ToLowerAppend(w0, " ");
    assert ToLower(" ") == " ";
    LowerBlankFree(w1);
    if ToLower(w0 + " " + w1) == p0 + " " + p1 {
      SplitLastBlank(ToLower(w0), ToLower(w1), p0, p1);
    }
  }

  lemma SolidBlankFree(w: string)
    requires Solid(w)
    ensures ' ' !in w
  {
    forall i | 0 <= i < |w| ensures w[i] != ' ' {
      assert !IsTrimmable(w[i]);
    }
  }

  /**
   * For leftovers made of tokens without blanks (as the tokenizer's lemmas
   * are), the test reads word by word: "not", "there no", "there not",
   * "do not", "there be no" or "there be not", in any letter case.
   */
  lemma NegationWords(words: seq<string>)
    requires forall i :: 0 <= i < |words| ==> Solid(words[i])
    ensures NegationPhrase(words) <==>
      (|words| == 1 && ToLower(words[0]) == "not")
      || (|words| == 2 && ToLower(words[0]) == "there" && (ToLower(words[1]) == "no" || ToLower(words[1]) == "not"))
      || (|words| == 2 && ToLower(words[0]) == "do" && ToLower(words[1]) == "not")
      || (|words| == 3 && ToLower(words[0]) == "there" && ToLower(words[1]) == "be"
          && (ToLower(words[2]) == "no" || ToLower(words[2]) == "not"))
  {
    forall w | w in words ensures Solid(w) {
      var i :| 0 <= i < |words| && words[i] == w;
    }
    ListStringSpaced(words);
    if |words| == 2 {
      SolidBlankFree(words[1]);
      assert JoinSpaced(words) == words[0] + " " + words[1];
      PhrasesOfTwo(words[0], words[1]);
    } else if |words| == 3 {
      SolidBlankFree(words[1]);
      SolidBlankFree(words[2]);
      assert JoinSpaced(words[..2]) == words[0] + " " + words[1];
      assert JoinSpaced(words) == words[0] + " " + words[1] + " " + words[2];
      PhrasesOfThree(words[0], words[1], words[2]);
    }
  }

  lemma PhrasesOfTwo(w0: string, w1: string)
    requires ' ' !in w1
    ensures ToLower(w0 + " " + w1) == "there no" <==> ToLower(w0) == "there" && ToLower(w1) == "no"
    ensures ToLower(w0 + " " + w1) == "there not" <==> ToLower(w0) == "there" && ToLower(w1) == "not"
    ensures ToLower(w0 + " " + w1) == "do not" <==> ToLower(w0) == "do" && ToLower(w1) == "not"
  {
    assert "there" + " " + "no" == "there no";
    assert "there" + " " + "not" == "there not";
    assert "do" + " " + "not" == "do not";
    TwoWords(w0, w1, "there", "no");
    TwoWords(w0, w1, "there", "not");
    TwoWords(w0, w1, "do", "not");
  }

  lemma PhrasesOfThree(w0: string, w1: string, w2: string)
    requires ' ' !in w1 && ' ' !in w2
    ensures ToLower(w0 + " " + w1 + " " + w2) == "there be no" <==>
      ToLower(w0) == "there" && ToLower(w1) == "be" && ToLower(w2) == "no"
    ensures ToLower(w0 + " " + w1 + " " + w2) == "there be not" <==>
      ToLower(w0) == "there" && ToLower(w1) == "be" && ToLower(w2) == "not"
  {
    assert "there be" + " " + "no" == "there be no";
    assert "there be" + " " + "not" == "there be not";
    assert "there" + " " + "be" == "there be";
    TwoWords(w0 + " " + w1, w2, "there be", "no");
    TwoWords(w0 + " " + w1, w2, "there be", "not");
    TwoWords(w0, w1, "there", "be");
  }

  /** Some antonym in the list, with '_' read as a blank, occurs in the hypothesis string. */
  predicate AntonymOccurs(wordAntonyms: seq<string>, hyp: string) {
    exists k :: 0 <= k < |wordAntonyms| && Contains(hyp, ReplaceChar(wordAntonyms[k], '_', ' '))
  }

  /** The antonyms filed for a lemma, looked up with its blanks read as '_'. */
  function AntonymsOf(antonyms: map<string, seq<string>>, word: string): seq<string> {
    Antonyms.GetAntonyms(antonyms, ReplaceChar(word, ' ', '_'))
  }

  /** Some of the words has an antonym occurring in the hypothesis string. */
  predicate AnyOpposed(antonyms: map<string, seq<string>>, words: seq<string>, hyp: string) {
    exists i :: 0 <= i < |words| && AntonymOccurs(AntonymsOf(antonyms, words[i]), hyp)
  }

  /** Some leftover text lemma has an antonym inside the blank-joined hypothesis leftover. */
  predicate Opposition(antonyms: map<string, seq<string>>, textTokens: seq<Token>, hypTokens: seq<Token>)
    ensures Opposition(antonyms, textTokens, hypTokens) ==> Exclude(Words(textTokens), Words(hypTokens)) != []
  {
    AnyOpposed(antonyms, Exclude(Words(textTokens), Words(hypTokens)),
               Trim(JoinBlank(Exclude(Words(hypTokens), Words(textTokens)))))
  }

  /** The inner loop of `isOpposition`, which stops at the first antonym found. */
  method AntonymIn(wordAntonyms: seq<string>, normalizedHyp: string) returns (found: bool)
    ensures found == AntonymOccurs(wordAntonyms, normalizedHyp)
  {
    found := false;
    var k := 0;
    while k < |wordAntonyms|
      invariant 0 <= k <= |wordAntonyms|
      invariant !found
      invariant forall j :: 0 <= j < k ==> !Contains(normalizedHyp, ReplaceChar(wordAntonyms[j], '_', ' '))
    {
      if Contains(normalizedHyp, ReplaceChar(wordAntonyms[k], '_', ' ')) {
        found := true;
        break;
      }
      k := k + 1;
    }
  }

  /** The outer loop of `isOpposition`. */
  method SearchAntonyms(antonyms: map<string, seq<string>>, textWords: seq<string>, normalizedHyp: string)
    returns (opposition: bool)
    ensures opposition == AnyOpposed(antonyms, textWords, normalizedHyp)
  {
    opposition := false;
    var i := 0;
    while i < |textWords|
      invariant 0 <= i <= |textWords|
      invariant opposition <==> exists j :: 0 <= j < i && AntonymOccurs(AntonymsOf(antonyms, textWords[j]), normalizedHyp)
    {
      var wordAntonyms := Antonyms.GetAntonyms(antonyms, ReplaceChar(textWords[i], ' ', '_'));
      var found := AntonymIn(wordAntonyms, normalizedHyp);
      if found {
        opposition := true;
      }
      i := i + 1;
    }
  }

  /** `isOpposition`. */
  method IsOpposition(antonyms: map<string, seq<string>>, textTokens: seq<Token>, hypTokens: seq<Token>)
    returns (opposition: bool)
    ensures opposition == Opposition(antonyms, textTokens, hypTokens)
  {
    var textWords, hypWords := Leftovers(textTokens, hypTokens);
    var normalizedHyp := ListToString(hypWords);
    opposition := SearchAntonyms(antonyms, textWords, normalizedHyp);
  }

  /** The hypernyms filed for a chunk, looked up with its blanks read as '_'. */
  function HypernymsOf(hypernyms: map<string, seq<string>>, chunk: Token): seq<string> {
    Hypernyms.GetHypernyms(hypernyms, ReplaceChar(chunk.word, ' ', '_'), chunk.pos)
  }

  /** A hypernym in the list that is one of the text words, is not "be", and is not a synonym of the word. */
  predicate Specializing(synonyms: map<string, seq<string>>, textWords: seq<string>, word: string,
                         wordHypernyms: seq<string>) {
    exists k :: 0 <= k < |wordHypernyms| && wordHypernyms[k] in textWords
      && !AreSynonyms(synonyms, word, wordHypernyms[k]) && wordHypernyms[k] != "be"
  }

  /** Some of the chunks has a specialising hypernym. */
  predicate AnySpecialized(synonyms: map<string, seq<string>>, hypernyms: map<string, seq<string>>,
                           textWords: seq<string>, chunks: seq<Token>) {
    exists i :: 0 <= i < |chunks| && Specializing(synonyms, textWords, chunks[i].word, HypernymsOf(hypernyms, chunks[i]))
  }

  /**
   * Without total overlap, the chunks of the two sides are compared as
   * whole "word;POS" strings, and some hypothesis chunk the text does not
   * have has a hypernym among the words of the text chunks the hypothesis
   * does not have. False when chunking threw.
   */
  predicate InverseSpecialization(synonyms: map<string, seq<string>>, hypernyms: map<string, seq<string>>,
                                  textTokens: Option<seq<Token>>, hypTokens: Option<seq<Token>>, stopWords: seq<string>,
                                  textChunks: Option<seq<Token>>, hypChunks: Option<seq<Token>>)
    ensures InverseSpecialization(synonyms, hypernyms, textTokens, hypTokens, stopWords, textChunks, hypChunks) ==>
      textChunks.Some? && hypChunks.Some? && Exclude(hypChunks.value, textChunks.value) != []
    ensures TotalOverlap(textTokens, hypTokens, stopWords) ==>
      !InverseSpecialization(synonyms, hypernyms, textTokens, hypTokens, stopWords, textChunks, hypChunks)
  {
    !TotalOverlap(textTokens, hypTokens, stopWords) && textChunks.Some? && hypChunks.Some? &&
    AnySpecialized(synonyms, hypernyms, Words(Exclude(textChunks.value, hypChunks.value)),
                   Exclude(hypChunks.value, textChunks.value))
  }

  /** The inner loop of `hasInverseSpecialization` for one chunk, which stops at the first hit. */
  method SpecializingHypernym(synonyms: map<string, seq<string>>, textWords: seq<string>, hypWord: string,
                              wordHypernyms: seq<string>) returns (found: bool)
    ensures found == Specializing(synonyms, textWords, hypWord, wordHypernyms)
  {
    found := false;
    var k := 0;
    while k < |wordHypernyms|
      invariant 0 <= k <= |wordHypernyms|
      invariant !found
      invariant forall j :: 0 <= j < k ==>
        !(wordHypernyms[j] in textWords && !AreSynonyms(synonyms, hypWord, wordHypernyms[j]) && wordHypernyms[j] != "be")
    {
      var hypernym := wordHypernyms[k];
      if hypernym in textWords && !AreSynonyms(synonyms, hypWord, hypernym) && hypernym != "be" {
        found := true;
        break;
      }
      k := k + 1;
    }
  }

  /** The outer loop of `hasInverseSpecialization`. */
  method SearchHypernyms(synonyms: map<string, seq<string>>, hypernyms: map<string, seq<string>>,
                         textWords: seq<string>, hypTokens: seq<Token>) returns (inverseSpec: bool)
    ensures inverseSpec == AnySpecialized(synonyms, hypernyms, textWords, hypTokens)
  {
    inverseSpec := false;
    var i := 0;
    while i < |hypTokens|
      invariant 0 <= i <= |hypTokens|
      invariant inverseSpec <==>
        exists j :: 0 <= j < i && Specializing(synonyms, textWords, hypTokens[j].word, HypernymsOf(hypernyms, hypTokens[j]))
    {
      var hypWord, hypPos := hypTokens[i].word, hypTokens[i].pos;
      var wordHypernyms := Hypernyms.GetHypernyms(hypernyms, ReplaceChar(hypWord, ' ', '_'), hypPos);
      var found := SpecializingHypernym(synonyms, textWords, hypWord, wordHypernyms);
      if found {
        inverseSpec := true;
      }
      i := i + 1;
    }
  }

  /** `hasInverseSpecialization`. */
  method HasInverseSpecialization(synonyms: map<string, seq<string>>, hypernyms: map<string, seq<string>>,
                                  textTokens: Option<seq<Token>>, hypTokens: Option<seq<Token>>, stopWords: seq<string>,
                                  textChunks: Option<seq<Token>>, hypChunks: Option<seq<Token>>) returns (inverseSpec: bool)
    ensures inverseSpec == InverseSpecialization(synonyms, hypernyms, textTokens, hypTokens, stopWords, textChunks, hypChunks)
  {
    var total := CheckTotalOverlap(textTokens, hypTokens, stopWords);
    if total || textChunks.None? || hypChunks.None? {
      return false;
    }
    var text, hyp := textChunks.value, hypChunks.value;
    var overlap := OverlapOf(text, hyp);
    var textRest := RemoveRedundant(text, overlap);
    var hypRest := RemoveRedundant(hyp, overlap);
    ExcludeSame(text, overlap, hyp);
    ExcludeSame(hyp, overlap, text);
    inverseSpec := SearchHypernyms(synonyms, hypernyms, Words(textRest), hypRest);
  }

  /**
   * `checkContext`: "no" with justification "null" when one of the four
   * vetoes holds (they are tried in order and the first that holds ends the
   * test), and otherwise the decision "null", which leaves the pair to the
   * entailment models; no model is set here. The clause test raises when a
   * parse gave no tree, which only the two vetoes before it can prevent.
   */
  method CheckContext(synonyms: map<string, seq<string>>, antonyms: map<string, seq<string>>,
                      hypernyms: map<string, seq<string>>, stopWords: seq<string>,
                      textTokens: seq<Token>, hypTokens: seq<Token>, textClauses: Option<nat>, hypClauses: Option<nat>,
                      textChunks: Option<seq<Token>>, hypChunks: Option<seq<Token>>) returns (decision: Result<Decision>)
    ensures decision.Err? <==>
      !Negation(textTokens, hypTokens) && !Opposition(antonyms, textTokens, hypTokens)
      && (textClauses.None? || hypClauses.None?)
    ensures decision.Err? ==> decision.error == IndexOutOfBounds
    ensures var veto := Negation(textTokens, hypTokens) || Opposition(antonyms, textTokens, hypTokens)
      || ClauseOverflow(textClauses, hypClauses, Some(textTokens), Some(hypTokens), stopWords) == Ok(true)
      || InverseSpecialization(synonyms, hypernyms, Some(textTokens), Some(hypTokens), stopWords, textChunks, hypChunks);
      decision.Ok? ==>
      && decision.value.decision == Some(if veto then "no" else "null")
      && decision.value.justification == (if veto then Some("null") else None)
      && decision.value.model == None
  {
    var veto := IsNegation(textTokens, hypTokens);
    if !veto {
      veto := IsOpposition(antonyms, textTokens, hypTokens);
    }
    if !veto {
      var overflow := CheckClauseOverflow(textClauses, hypClauses, Some(textTokens), Some(hypTokens), stopWords);
      if overflow.Err? {
        return Err(overflow.error);
      }
      veto := overflow.value;
    }
    if !veto {
      veto := HasInverseSpecialization(synonyms, hypernyms, Some(textTokens), Some(hypTokens), stopWords, textChunks, hypChunks);
    }
    if veto {
      decision := Ok(Decision(Some("no"), Some("null"), None));
    } else {
      decision := Ok(Decision(Some("null"), None, None));
    }
  }
}
