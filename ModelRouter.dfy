/**
 * The model router (core/ModelRouter): a pair whose content words do not
 * overlap at all, or whose cleaned text or hypothesis is empty, goes to
 * the tree-edit-distance model; every other pair goes to graph
 * navigation. Tokenising comes in as its result, None where it threw.
 */
module Router {
  import opened Strings
  import opened Text

  const EditDist := "TreeEditDistance"
  const GraphNav := "GraphNavigation"

  /** A token that is not a stop word. */
  predicate Content(stopWords: seq<string>, t: Token) {
    !IsStopWord(stopWords, t.word)
  }

  /** No content lemma of the hypothesis is a content lemma of the text. */
  predicate NoSharedContent(text: seq<Token>, hyp: seq<Token>, stopWords: seq<string>) {
    forall h, t :: h in hyp && t in text && Content(stopWords, h) && Content(stopWords, t) ==> h.word != t.word
  }

  /** The tokenised pair has no content overlap; a tokenising failure counts as overlap. */
  predicate NullOverlapHolds(textTokens: Option<seq<Token>>, hypTokens: Option<seq<Token>>, stopWords: seq<string>) {
    textTokens.Some? && hypTokens.Some? && NoSharedContent(textTokens.value, hypTokens.value, stopWords)
  }

  /** Some content token of `tokens` has a lemma the other side lacks. */
  predicate HasOwnContent(tokens: seq<Token>, other: seq<Token>, stopWords: seq<string>) {
    exists t :: t in tokens && t.word !in Words(other) && Content(stopWords, t)
  }

  /**
   * The choice `chooseEntailmentModel` makes: an error where cleaning the
   * pair gave no lists (its `get(0)` throws), graph navigation when the
   * pair overlaps and each side keeps a content word of its own, and
   * tree edit distance otherwise.
   */
  function ChosenModel(textTokens: Option<seq<Token>>, hypTokens: Option<seq<Token>>, stopWords: seq<string>): (r: Result<string>)
    ensures r.Err? <==> textTokens.None? || hypTokens.None?
    ensures r.Err? ==> r.error == IndexOutOfBounds
    ensures r.Ok? ==> r.value == EditDist || r.value == GraphNav
    ensures NullOverlapHolds(textTokens, hypTokens, stopWords) ==> r == Ok(EditDist)
  {
    if textTokens.None? || hypTokens.None? then Err(IndexOutOfBounds)
    else if !NullOverlapHolds(textTokens, hypTokens, stopWords)
      && HasOwnContent(hypTokens.value, textTokens.value, stopWords)
      && HasOwnContent(textTokens.value, hypTokens.value, stopWords)
    then Ok(GraphNav)
    else Ok(EditDist)
  }

  /** A hypothesis made only of text lemmas and stop words is sent to tree edit distance. */
  lemma CoveredHypothesisEditDistance(text: seq<Token>, hyp: seq<Token>, stopWords: seq<string>)
    requires forall h :: h in hyp ==> h.word in Words(text) || !Content(stopWords, h)
    ensures ChosenModel(Some(text), Some(hyp), stopWords) == Ok(EditDist)
  {
  }

  /** Graph navigation is chosen only for pairs that share a content lemma and each have one of their own. */
  lemma GraphNavigationNeeds(text: seq<Token>, hyp: seq<Token>, stopWords: seq<string>)
    requires ChosenModel(Some(text), Some(hyp), stopWords) == Ok(GraphNav)
    ensures exists h, t :: h in hyp && t in text && Content(stopWords, h) && Content(stopWords, t) && h.word == t.word
    ensures exists h :: h in hyp && Content(stopWords, h) && h.word !in Words(text)
    ensures exists t :: t in text && Content(stopWords, t) && t.word !in Words(hyp)
  {
  }

  /** Identical sides leave nothing of their own, so the pair goes to tree edit distance. */
  lemma SamePairEditDistance(tokens: seq<Token>, stopWords: seq<string>)
    ensures ChosenModel(Some(tokens), Some(tokens), stopWords) == Ok(EditDist)
  {
    forall t | t in tokens ensures t.word in Words(tokens) {
      var k :| 0 <= k < |tokens| && tokens[k] == t;
      assert Words(tokens)[k] == t.word;
    }
  }

  /** The hypothesis lemmas found among the text lemmas, as the loop of `nullOverlap` collects them. */
  method OverlapWords(textWords: seq<string>, hypTokens: seq<Token>) returns (overlap: seq<string>)
    ensures overlap == Overlap(textWords, hypTokens)
  {
    overlap := [];
    var i := 0;
    while i < |hypTokens|
      invariant 0 <= i <= |hypTokens|
      invariant overlap == Overlap(textWords, hypTokens[..i])
    {
      assert hypTokens[..i + 1][..i] == hypTokens[..i];
      var hypWord := hypTokens[i].word;
      if hypWord in textWords {
        overlap := overlap + [hypWord];
      }
      i := i + 1;
    }
    assert hypTokens[..i] == hypTokens;
  }

  /** `nullOverlap`: false when tokenising threw, as the catch leaves `isNull` false. */
  method NullOverlap(textTokens: Option<seq<Token>>, hypTokens: Option<seq<Token>>, stopWords: seq<string>)
    returns (isNull: bool)
    ensures isNull <==> NullOverlapHolds(textTokens, hypTokens, stopWords)
  {
    if textTokens.None? || hypTokens.None? {
      return false;
    }
    var text := RemoveStopWords(textTokens.value, stopWords);
    var hyp := RemoveStopWords(hypTokens.value, stopWords);
    var textWords := Words(text);
    var overlap := OverlapWords(textWords, hyp);
    isNull := overlap == [];
    NoOverlapNoSharedContent(textTokens.value, hypTokens.value, stopWords);
  }

  /** The overlap `nullOverlap` collects after dropping stop words is empty iff no content lemma is shared. */
  lemma NoOverlapNoSharedContent(text: seq<Token>, hyp: seq<Token>, stopWords: seq<string>)
    ensures Overlap(Words(WithoutStopWords(text, stopWords)), WithoutStopWords(hyp, stopWords)) == []
      <==> NoSharedContent(text, hyp, stopWords)
  {
    var text' := WithoutStopWords(text, stopWords);
    var hyp' := WithoutStopWords(hyp, stopWords);
    if Overlap(Words(text'), hyp') != [] {
      SharedOfOverlap(text, hyp, stopWords);
    } else {
      forall h, t | h in hyp && t in text && Content(stopWords, h) && Content(stopWords, t)
        ensures h.word != t.word
      {
        NotOverlapping(text, hyp, stopWords, h, t);
      }
    }
  }

  lemma SharedOfOverlap(text: seq<Token>, hyp: seq<Token>, stopWords: seq<string>)
    requires Overlap(Words(WithoutStopWords(text, stopWords)), WithoutStopWords(hyp, stopWords)) != []
    ensures !NoSharedContent(text, hyp, stopWords)
  {
    var text' := WithoutStopWords(text, stopWords);
    var hyp' := WithoutStopWords(hyp, stopWords);
    var w := Overlap(Words(text'), hyp')[0];
    assert w in Words(text') && w in Words(hyp');
    var t := TokenOf(text', w);
    var h := TokenOf(hyp', w);
    assert h in hyp && t in text && Content(stopWords, h) && Content(stopWords, t);
  }

  lemma NotOverlapping(text: seq<Token>, hyp: seq<Token>, stopWords: seq<string>, h: Token, t: Token)
    requires Overlap(Words(WithoutStopWords(text, stopWords)), WithoutStopWords(hyp, stopWords)) == []
    requires h in hyp && t in text && Content(stopWords, h) && Content(stopWords, t)
    ensures h.word != t.word
  {
    var text' := WithoutStopWords(text, stopWords);
    var hyp' := WithoutStopWords(hyp, stopWords);
    assert h in hyp' && t in text';
    WordOf(text', t);
    WordOf(hyp', h);
  }

  /** The lemma of a token is among the lemmas. */
  lemma WordOf(tokens: seq<Token>, t: Token)
    requires t in tokens
    ensures t.word in Words(tokens)
  {
    var k :| 0 <= k < |tokens| && tokens[k] == t;
    assert Words(tokens)[k] == t.word;
  }

  /** A token carrying a lemma that is among the lemmas. */
  lemma TokenOf(tokens: seq<Token>, w: string) returns (t: Token)
    requires w in Words(tokens)
    ensures t in tokens && t.word == w
  {
    var k :| 0 <= k < |tokens| && Words(tokens)[k] == w;
    t := tokens[k];
  }

  /** `chooseEntailmentModel`. */
  method ChooseEntailmentModel(textTokens: Option<seq<Token>>, hypTokens: Option<seq<Token>>, stopWords: seq<string>)
    returns (model: Result<string>)
    ensures model == ChosenModel(textTokens, hypTokens, stopWords)
  {
    var empty := false;
    var isNull := NullOverlap(textTokens, hypTokens, stopWords);
    if isNull {
      empty := true;
    } else {
      var cleaned := CleanPair(textTokens, hypTokens, stopWords);
      if |cleaned| == 0 {
        return Err(IndexOutOfBounds);
      }
      var text := cleaned[0];
      var hyp := cleaned[1];
      if text == [] || hyp == [] {
        empty := true;
      }
      HypLeftover(textTokens.value, hypTokens.value, stopWords, hyp);
      if hyp != [] {
        HypLeftover(hypTokens.value, textTokens.value, stopWords, text);
      }
    }
    model := Ok(if empty then EditDist else GraphNav);
  }

  /** A list holding exactly a side's own content tokens is non-empty iff that side has one. */
  lemma HypLeftover(text: seq<Token>, hyp: seq<Token>, stopWords: seq<string>, left: seq<Token>)
    requires forall t :: t in left <==> t in hyp && t.word !in Words(text) && !IsStopWord(stopWords, t.word)
    ensures left != [] <==> HasOwnContent(hyp, text, stopWords)
  {
    if left != [] {
      assert left[0] in left;
    }
  }
}
