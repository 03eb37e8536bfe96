/**
 * The text utilities of util/TextHandler that do not call the NLP
 * libraries: trimming words off an underscore-joined entry, reversing and
 * joining lists, cleaning a text-hypothesis pair of overlap and stop words,
 * dropping low-IDF entries, and the character and word tests.
 *
 * A token is the string "lemma;POS" of the source; it is modelled as the
 * pair of its two fields, which is faithful as long as no lemma contains
 * ';' and no POS is empty (then `split(";")[0]` and `[1]` are exactly the
 * two fields, and two tokens are equal exactly when their strings are).
 * Tokenising is done by the NLP pipeline and comes in as a parameter, and
 * so do the stop words and the IDF table.
 */
module Text {
  import opened Strings
  import Idf

  datatype Token = Token(word: string, pos: string)

  const MinNounIdf: real := 4.0
  const MinVerbIdf: real := 6.0

  /** `lastIndexOf`: the position of the last c, or -1. */
  function LastIndexOf(s: string, c: char): (r: int)
    ensures -1 <= r < |s|
    ensures r < 0 <==> c !in s
    ensures r >= 0 ==> s[r] == c && c !in s[r + 1..]
  {
    if s == [] then -1
    else if s[|s| - 1] == c then
      assert s[|s|..] == [];
      |s| - 1
    else
      var r := LastIndexOf(s[..|s| - 1], c);
      assert s == s[..|s| - 1] + [s[|s| - 1]];
      assert r >= 0 ==> s[r + 1..] == s[..|s| - 1][r + 1..] + [s[|s| - 1]];
      r
  }

  /** One pass of the loop: cut at the last underscore, or "" when there is none. */
  function DropLastWord(text: string): (r: string)
    ensures '_' in text ==> |r| < |text| && r == text[..|r|] && Count(r, '_') == Count(text, '_') - 1 && text[|r|] == '_'
    ensures '_' !in text ==> r == ""
  {
    var j := LastIndexOf(text, '_');
    if j < 0 then ""
    else
      assert text == text[..j] + text[j..];
      CountAppend(text[..j], text[j..], '_');
      assert text[j..] == [text[j]] + text[j + 1..];
      CountPositive(text[j + 1..], '_');
      text[..j]
  }

  /** The entry after n passes of the loop. */
  function DropLastWords(text: string, n: nat): string {
    if n == 0 then text else DropLastWord(DropLastWords(text, n - 1))
  }

  /**
   * An entry of m = Count(text, '_') + 1 underscore-joined words keeps its
   * first m - n words (the prefix before its n-th last underscore) when
   * n < m, and becomes "" when n >= m.
   */
  lemma {:induction false} DropLastWordsProps(text: string, n: nat)
    ensures n <= Count(text, '_') ==>
      var r := DropLastWords(text, n);
      |r| <= |text| && r == text[..|r|] && Count(r, '_') == Count(text, '_') - n && (n > 0 ==> |r| < |text| && text[|r|] == '_')
    ensures n > Count(text, '_') ==> DropLastWords(text, n) == ""
  {
    if n > 0 {
      DropLastWordsProps(text, n - 1);
      var r := DropLastWords(text, n - 1);
      CountPositive(r, '_');
      if n <= Count(text, '_') {
        var r' := DropLastWord(r);
        assert r' == r[..|r'|];
      }
    }
  }

  /** `removeLastWords`: an entry without an underscore gives "" whatever n is. */
  function RemoveLastWords(text: string, numWords: nat): (r: string)
    ensures '_' !in text ==> r == ""
  {
    if '_' in text then DropLastWords(text, numWords) else ""
  }

  method RemoveLastWordsLoop(text: string, numWords: nat) returns (newText: string)
    ensures newText == RemoveLastWords(text, numWords)
    ensures numWords <= Count(text, '_') ==>
      |newText| <= |text| && newText == text[..|newText|] && Count(newText, '_') == Count(text, '_') - numWords
    ensures numWords > Count(text, '_') ==> newText == ""
  {
    newText := text;
    if '_' in text {
      var i := 0;
      while i < numWords
        invariant 0 <= i <= numWords
        invariant newText == DropLastWords(text, i)
      {
        var j := LastIndexOf(newText, '_');
        newText := if j >= 0 then newText[..j] else "";
        i := i + 1;
      }
    } else {
      newText := "";
    }
    DropLastWordsProps(text, numWords);
    CountPositive(text, '_');
  }

  /** `reverse`: the list read backwards. */
  method ReverseList(list: seq<string>) returns (reversed: seq<string>)
    ensures |reversed| == |list|
    ensures forall i :: 0 <= i < |list| ==> reversed[i] == list[|list| - 1 - i]
  {
    reversed := [];
    var i := |list| - 1;
    while i >= 0
      invariant -1 <= i < |list|
      invariant |reversed| == |list| - 1 - i
      invariant forall k :: 0 <= k < |reversed| ==> reversed[k] == list[|list| - 1 - k]
    {
      reversed := reversed + [list[i]];
      i := i - 1;
    }
  }

  /** The words separated by single blanks. */
  function JoinSpaced(words: seq<string>): string {
    if words == [] then ""
    else if |words| == 1 then words[0]
    else JoinSpaced(words[..|words| - 1]) + " " + words[|words| - 1]
  }

  /** A token with no blank, control character or other trimmable character in it. */
  predicate Solid(w: string) {
    w != [] && forall i :: 0 <= i < |w| ==> !IsTrimmable(w[i])
  }

  lemma {:induction false} JoinBlankSpaced(words: seq<string>)
    requires words != []
    ensures JoinBlank(words) == JoinSpaced(words) + " "
  {
    if |words| > 1 {
      JoinBlankSpaced(words[..|words| - 1]);
    } else {
      assert words[..0] == [];
    }
  }

  lemma {:induction false} JoinSpacedEnds(words: seq<string>)
    requires words != [] && forall w :: w in words ==> Solid(w)
    ensures var j := JoinSpaced(words); j != [] && !IsTrimmable(j[0]) && !IsTrimmable(j[|j| - 1])
  {
    if |words| > 1 {
      var init := words[..|words| - 1];
      assert forall w :: w in init ==> w in words;
      JoinSpacedEnds(init);
      assert words[|words| - 1] in words;
    } else {
      assert words[0] in words;
    }
  }

  /**
   * `listToString`: the words, each followed by a blank, then trimmed; for
   * tokens without blanks this is the words joined by single blanks.
   */
  method ListToString(list: seq<string>) returns (str: string)
    ensures str == Trim(JoinBlank(list))
    ensures (forall w :: w in list ==> Solid(w)) ==> str == JoinSpaced(list)
  {
    var acc := "";
    var i := 0;
    while i < |list|
      invariant 0 <= i <= |list|
      invariant acc == JoinBlank(list[..i])
    {
      assert list[..i + 1][..i] == list[..i];
      acc := acc + list[i] + " ";
      i := i + 1;
    }
    assert list[..i] == list;
    str := Trim(acc);
    if forall w :: w in list ==> Solid(w) {
      ListStringSpaced(list);
    }
  }

  lemma ListStringSpaced(list: seq<string>)
    requires forall w :: w in list ==> Solid(w)
    ensures Trim(JoinBlank(list)) == JoinSpaced(list)
  {
    if list != [] {
      JoinBlankSpaced(list);
      JoinSpacedEnds(list);
      var j := JoinSpaced(list);
      var s := j + " ";
      assert TrimStart(s) == s;
      assert TrimEnd(s) == TrimEnd(s[..|s| - 1]);
      assert s[..|s| - 1] == j;
    }
  }

  /** `isStopWord`: membership of the lower-cased word. */
  predicate IsStopWord(stopWords: seq<string>, word: string) {
    ToLower(word) in stopWords
  }

  lemma StopWordIgnoresCase(stopWords: seq<string>, a: string, b: string)
    requires EqualsIgnoreCase(a, b)
    ensures IsStopWord(stopWords, a) <==> IsStopWord(stopWords, b)
  {
  }

  /** `isVowel`. */
  predicate IsVowel(c: char) {
    c == 'A' || c == 'a' || c == 'E' || c == 'e' || c == 'I' || c == 'i' ||
    c == 'O' || c == 'o' || c == 'U' || c == 'u'
  }

  /** A vowel is a character whose lower case is one of a, e, i, o, u. */
  lemma VowelLower(c: char)
    ensures IsVowel(c) <==> LowerChar(c) in "aeiou"
  {
  }

  /** `capitalize`: an empty word unchanged, otherwise its first character upper-cased. */
  function Capitalize(word: string): (r: string)
    ensures |r| == |word|
    ensures word != [] ==> r[0] == UpperChar(word[0]) && r[1..] == word[1..]
  {
    if word == [] then word else [UpperChar(word[0])] + word[1..]
  }

  /** Capitalising changes the case of one letter only: the lower-case forms agree. */
  lemma CapitalizeSameLetters(word: string)
    ensures EqualsIgnoreCase(Capitalize(word), word)
  {
    var r := Capitalize(word);
    forall i | 0 <= i < |word| ensures LowerChar(r[i]) == LowerChar(word[i]) {
    }
    assert ToLower(r) == ToLower(word);
  }

  /** The lemmas of the tokens, in order. */
  function Words(tokens: seq<Token>): (r: seq<string>)
    ensures |r| == |tokens|
    ensures forall i :: 0 <= i < |tokens| ==> r[i] == tokens[i].word
  {
    if tokens == [] then [] else Words(tokens[..|tokens| - 1]) + [tokens[|tokens| - 1].word]
  }

  /** `removeIf` of the tokens whose lemma is in `words`. */
  function WithoutWords(tokens: seq<Token>, words: seq<string>): (r: seq<Token>)
    ensures forall t :: t in r <==> t in tokens && t.word !in words
  {
    if tokens == [] then []
    else
      var last := tokens[|tokens| - 1];
      WithoutWords(tokens[..|tokens| - 1], words) + (if last.word in words then [] else [last])
  }

  /** `removeIf` of the tokens whose lemma is a stop word. */
  function WithoutStopWords(tokens: seq<Token>, stopWords: seq<string>): (r: seq<Token>)
    ensures forall t :: t in r <==> t in tokens && !IsStopWord(stopWords, t.word)
  {
    if tokens == [] then []
    else
      var last := tokens[|tokens| - 1];
      WithoutStopWords(tokens[..|tokens| - 1], stopWords) + (if IsStopWord(stopWords, last.word) then [] else [last])
  }

  /** The hypothesis lemmas that also occur in the text, in hypothesis order. */
  function Overlap(textWords: seq<string>, hyp: seq<Token>): (r: seq<string>)
    ensures forall w :: w in r <==> w in textWords && w in Words(hyp)
  {
    if hyp == [] then []
    else
      var last := hyp[|hyp| - 1].word;
      assert Words(hyp) == Words(hyp[..|hyp| - 1]) + [last];
      Overlap(textWords, hyp[..|hyp| - 1]) + (if last in textWords then [last] else [])
  }

  /** A removeIf over tokens whose lemma is in `words`. */
  method RemoveWords(tokens: seq<Token>, words: seq<string>) returns (kept: seq<Token>)
    ensures kept == WithoutWords(tokens, words)
  {
    kept := [];
    var i := 0;
    while i < |tokens|
      invariant 0 <= i <= |tokens|
      invariant kept == WithoutWords(tokens[..i], words)
    {
      assert tokens[..i + 1][..i] == tokens[..i];
      if tokens[i].word !in words {
        kept := kept + [tokens[i]];
      }
      i := i + 1;
    }
    assert tokens[..i] == tokens;
  }

  /** A removeIf over tokens whose lemma is a stop word. */
  method RemoveStopWords(tokens: seq<Token>, stopWords: seq<string>) returns (kept: seq<Token>)
    ensures kept == WithoutStopWords(tokens, stopWords)
  {
    kept := [];
    var i := 0;
    while i < |tokens|
      invariant 0 <= i <= |tokens|
      invariant kept == WithoutStopWords(tokens[..i], stopWords)
    {
      assert tokens[..i + 1][..i] == tokens[..i];
      if !IsStopWord(stopWords, tokens[i].word) {
        kept := kept + [tokens[i]];
      }
      i := i + 1;
    }
    assert tokens[..i] == tokens;
  }

  /**
   * `cleanPair` on the tokens of the text and of the hypothesis (None where
   * tokenising threw, which the catch turns into an empty result).
   */
  method CleanPair(textTokens: Option<seq<Token>>, hypTokens: Option<seq<Token>>, stopWords: seq<string>)
    returns (cleaned: seq<seq<Token>>)
    ensures textTokens.None? || hypTokens.None? <==> cleaned == []
    ensures cleaned != [] ==> |cleaned| == 2
    ensures cleaned != [] ==> forall t :: t in cleaned[1] <==>
      t in hypTokens.value && t.word !in Words(textTokens.value) && !IsStopWord(stopWords, t.word)
    ensures cleaned != [] && cleaned[1] == [] ==> cleaned[0] == textTokens.value
    ensures cleaned != [] && cleaned[1] != [] ==> forall t :: t in cleaned[0] <==>
      t in textTokens.value && t.word !in Words(hypTokens.value) && !IsStopWord(stopWords, t.word)
    ensures cleaned != [] ==> (cleaned[1] ==
      WithoutStopWords(WithoutWords(hypTokens.value, Overlap(Words(textTokens.value), hypTokens.value)), stopWords))
    ensures cleaned != [] && cleaned[1] != [] ==> (cleaned[0] ==
      WithoutStopWords(WithoutWords(textTokens.value, Overlap(Words(textTokens.value), hypTokens.value)), stopWords))
  {
    if textTokens.None? || hypTokens.None? {
      return [];
    }
    var text := textTokens.value;
    var textWords := Words(text);
    var overlap: seq<string> := [];
    var i := 0;
    while i < |hypTokens.value|
      invariant 0 <= i <= |hypTokens.value|
      invariant overlap == Overlap(textWords, hypTokens.value[..i])
    {
      assert hypTokens.value[..i + 1][..i] == hypTokens.value[..i];
      var hypWord := hypTokens.value[i].word;
      if hypWord in textWords {
        overlap := overlap + [hypWord];
      }
      i := i + 1;
    }
    assert hypTokens.value[..i] == hypTokens.value;
    var hyp := RemoveWords(hypTokens.value, overlap);
    hyp := RemoveStopWords(hyp, stopWords);
    if hyp != [] {
      text := RemoveWords(text, overlap);
      text := RemoveStopWords(text, stopWords);
      forall t | t in textTokens.value
        ensures t.word in overlap <==> t.word in Words(hypTokens.value)
      {
        assert t.word in textWords;
      }
    }
    cleaned := [text, hyp];
  }

  /** An entry the IDF filter drops: a noun under 4.0 or a verb under 6.0. */
  predicate LowIdf(idfs: map<string, real>, t: Token) {
    if StartsWith(t.pos, "N") then Idf.Lookup(idfs, t.word) < MinNounIdf
    else if StartsWith(t.pos, "V") then Idf.Lookup(idfs, t.word) < MinVerbIdf
    else false
  }

  /** The entries that survive the filter, in order. */
  function HighIdf(idfs: map<string, real>, tokens: seq<Token>): (r: seq<Token>)
    ensures |r| <= |tokens|
    ensures forall t :: t in r <==> t in tokens && !LowIdf(idfs, t)
  {
    if tokens == [] then []
    else
      var last := tokens[|tokens| - 1];
      HighIdf(idfs, tokens[..|tokens| - 1]) + (if LowIdf(idfs, last) then [] else [last])
  }

  /**
   * `removeLowIDF`: collect the low-IDF entries, then remove every entry
   * equal to one of them. The list is modelled as a value, so the update of
   * the caller's list is the returned list.
   */
  method RemoveLowIdf(idfs: map<string, real>, wordList: seq<Token>) returns (newList: seq<Token>)
    ensures newList == HighIdf(idfs, wordList)
  {
    var lowIdf: seq<Token> := [];
    var i := 0;
    while i < |wordList|
      invariant 0 <= i <= |wordList|
      invariant forall t :: t in lowIdf <==> t in wordList[..i] && LowIdf(idfs, t)
    {
      assert wordList[..i + 1] == wordList[..i] + [wordList[i]];
      var source := wordList[i];
      if StartsWith(source.pos, "N") && Idf.Lookup(idfs, source.word) < MinNounIdf {
        lowIdf := lowIdf + [source];
      } else if StartsWith(source.pos, "V") && Idf.Lookup(idfs, source.word) < MinVerbIdf {
        lowIdf := lowIdf + [source];
      }
      i := i + 1;
    }
    assert wordList[..i] == wordList;
    newList := [];
    i := 0;
    while i < |wordList|
      invariant 0 <= i <= |wordList|
      invariant newList == HighIdf(idfs, wordList[..i])
    {
      assert wordList[..i + 1][..i] == wordList[..i];
      if wordList[i] !in lowIdf {
        newList := newList + [wordList[i]];
      }
      i := i + 1;
    }
    assert wordList[..i] == wordList;
  }
}
