/**
 * Inverse document frequencies (util/IDFCalc): the gloss corpus of the
 * chosen knowledge base is tokenised line by line, word occurrences are
 * counted case-insensitively, and each word gets ln(N / freq). The corpus
 * resource is passed in as its lines, and `Math.log` as the function `ln`.
 */
module Idf {
  import opened Strings

  const MaxIdf: real := 15.0

  /** The corpus resource for a knowledge base name; anything unknown reads the WBT one. */
  function CorpusFile(kb: string): (file: string)
    ensures kb == "WN" ==> file == "/WN_gloss_corpus.txt"
    ensures kb == "WKT" ==> file == "/WKT_gloss_corpus.txt"
    ensures kb == "WKP" ==> file == "/WKP_gloss_corpus.txt"
    ensures kb != "WN" && kb != "WKT" && kb != "WKP" ==> file == "/WBT_gloss_corpus.txt"
  {
    if kb == "WN" then "/WN_gloss_corpus.txt"
    else if kb == "WKT" then "/WKT_gloss_corpus.txt"
    else if kb == "WKP" then "/WKP_gloss_corpus.txt"
    else "/WBT_gloss_corpus.txt"
  }

  /** `replaceAll("''", "\"")`, left to right without overlaps. */
  function ReplaceQuotePairs(s: string): string {
    if |s| >= 2 && s[0] == '\'' && s[1] == '\'' then "\"" + ReplaceQuotePairs(s[2..])
    else if s == [] then []
    else [s[0]] + ReplaceQuotePairs(s[1..])
  }

  /** The characters `[\W&&[^-']]` does not match: ASCII word characters, '-' and '\''. */
  predicate IsKept(c: char) {
    ('a' <= c <= 'z') || ('A' <= c <= 'Z') || ('0' <= c <= '9') || c == '_' || c == '-' || c == '\''
  }

  /** `replaceAll("[\\W&&[^-']]", " ")`. */
  function BlankOthers(s: string): string {
    if s == [] then [] else [if IsKept(s[0]) then s[0] else ' '] + BlankOthers(s[1..])
  }

  /** Every character is kept in place or replaced by a blank. */
  lemma {:induction false} BlankOthersChars(s: string)
    ensures |BlankOthers(s)| == |s|
    ensures forall i :: 0 <= i < |s| ==> BlankOthers(s)[i] == (if IsKept(s[i]) then s[i] else ' ')
  {
    if s != [] {
      BlankOthersChars(s[1..]);
    }
  }

  /** `replaceAll("[\\s]+", " ")` on a string whose only whitespace is the blank. */
  function CollapseBlanks(s: string): string
    decreases |s|
  {
    if |s| >= 2 && s[0] == ' ' && s[1] == ' ' then CollapseBlanks(s[1..])
    else if s == [] then []
    else [s[0]] + CollapseBlanks(s[1..])
  }

  /** Collapsing runs of blanks adds no character. */
  lemma {:induction false} CollapseBlanksChars(s: string)
    ensures forall c :: c in CollapseBlanks(s) ==> c in s
    decreases |s|
  {
    if s != [] {
      CollapseBlanksChars(s[1..]);
    }
  }

  /** The words of one document, as `buildCorpus` splits it. */
  function Tokenize(doc: string): (r: seq<string>)
    ensures forall w :: w in r ==> ' ' !in w
  {
    var cleaned := Trim(CollapseBlanks(BlankOthers(ReplaceQuotePairs(doc))));
    SplitPieces(cleaned, ' ');
    Split(cleaned, " ")
  }

  /** Every piece of a split on one character is made of characters of the string other than that one. */
  lemma {:induction false} SplitPieces(s: string, c: char)
    ensures forall p, ch :: p in Split(s, [c]) && ch in p ==> ch in s && ch != c
  {
    if Contains(s, [c]) {
      RawSplitPieces(s, c);
    } else {
      IndexOfNotFound(s, [c]);
      NoSeparatorBefore(s, c, |s|);
      assert s[..|s|] == s;
    }
  }

  /** No position before n starts with the separator, so no character before n is it. */
  lemma NoSeparatorBefore(s: string, c: char, n: nat)
    requires n <= |s| && forall k :: 0 <= k < n ==> !StartsWith(s[k..], [c])
    ensures forall ch :: ch in s[..n] ==> ch != c
  {
    forall ch | ch in s[..n] ensures ch != c {
      var k :| 0 <= k < n && s[k] == ch;
      assert !StartsWith(s[k..], [c]);
      assert s[k..][..1] == [s[k]];
    }
  }

  lemma {:induction false} RawSplitPieces(s: string, c: char)
    ensures forall p, ch :: p in RawSplit(s, [c]) && ch in p ==> ch in s && ch != c
    decreases |s|
  {
    var i := IndexOf(s, [c]);
    if i < 0 {
      IndexOfNotFound(s, [c]);
      NoSeparatorBefore(s, c, |s|);
      assert s[..|s|] == s;
      assert RawSplit(s, [c]) == [s];
    } else {
      var rest := s[i + 1..];
      RawSplitPieces(rest, c);
      NoSeparatorBefore(s, c, i);
      assert RawSplit(s, [c]) == [s[..i]] + RawSplit(rest, [c]);
      forall p, ch | p in RawSplit(s, [c]) && ch in p ensures ch in s && ch != c {
        if p == s[..i] {
          var k :| 0 <= k < i && s[k] == ch;
        } else {
          assert ch in rest;
          var k :| 0 <= k < |rest| && rest[k] == ch;
          assert s[i + 1 + k] == ch;
        }
      }
    }
  }

  lemma TrimChars(s: string)
    ensures forall c :: c in Trim(s) ==> c in s
  {
    var t := TrimStart(s);
    forall c | c in Trim(s) ensures c in s {
      assert c in t;
      var k :| 0 <= k < |t| && t[k] == c;
      assert s[|s| - |t| + k] == c;
    }
  }

  /** Tokens contain only word characters, '-' and '\''; in particular no blank. */
  lemma TokensKept(doc: string)
    ensures forall w, c :: w in Tokenize(doc) && c in w ==> IsKept(c)
  {
    var b := BlankOthers(ReplaceQuotePairs(doc));
    var t := Trim(CollapseBlanks(b));
    BlankOthersChars(ReplaceQuotePairs(doc));
    CollapseBlanksChars(b);
    TrimChars(CollapseBlanks(b));
    SplitPieces(t, ' ');
    forall w, c | w in Tokenize(doc) && c in w ensures IsKept(c) {
      assert c in b && c != ' ';
    }
  }

  /** Each document tokenised, in order. */
  function Tokenized(docs: seq<string>, tokenize: string -> seq<string>): (r: seq<seq<string>>)
    ensures |r| == |docs|
  {
    if docs == [] then [] else Tokenized(docs[..|docs| - 1], tokenize) + [tokenize(docs[|docs| - 1])]
  }

  /** The tokenised corpus: one word list per line of the corpus resource. */
  function Corpus(docs: seq<string>): seq<seq<string>> {
    Tokenized(docs, Tokenize)
  }

  /** Tokenising one more line appends its token list. */
  lemma TokenizedStep(docs: seq<string>, tokenize: string -> seq<string>, i: nat)
    requires i < |docs|
    ensures Tokenized(docs[..i + 1], tokenize) == Tokenized(docs[..i], tokenize) + [tokenize(docs[i])]
  {
    assert docs[..i + 1][..i] == docs[..i];
  }

  /** Document i of the corpus is the token list of line i. */
  lemma {:induction false} TokenizedAt(docs: seq<string>, tokenize: string -> seq<string>, i: nat)
    requires i < |docs|
    ensures Tokenized(docs, tokenize)[i] == tokenize(docs[i])
  {
    var n := |docs| - 1;
    var init := docs[..n];
    if i < n {
      TokenizedAt(init, tokenize, i);
      assert init[i] == docs[i];
    }
  }

  /** All words of the corpus, document after document. */
  function Flatten(corpus: seq<seq<string>>): seq<string> {
    if corpus == [] then [] else Flatten(corpus[..|corpus| - 1]) + corpus[|corpus| - 1]
  }

  /** How many of the words are `w` once lower-cased. */
  function Occurrences(words: seq<string>, w: string): nat {
    if words == [] then 0
    else Occurrences(words[..|words| - 1], w) + (if ToLower(words[|words| - 1]) == w then 1 else 0)
  }

  /** The `freqs` map after counting the words one after the other. */
  function Freqs(words: seq<string>): (r: map<string, nat>)
    ensures forall w :: w in r ==> 1 <= r[w] <= |words|
  {
    if words == [] then map[]
    else
      var m := Freqs(words[..|words| - 1]);
      var w := ToLower(words[|words| - 1]);
      m[w := if w in m then m[w] + 1 else 1]
  }

  /**
   * `freqs` counts occurrences, not documents: a lower-cased word is a key
   * exactly when it occurs, and its value is its number of occurrences.
   */
  lemma {:induction false} FreqsCount(words: seq<string>, w: string)
    ensures w in Freqs(words) <==> Occurrences(words, w) > 0
    ensures w in Freqs(words) ==> Freqs(words)[w] == Occurrences(words, w)
  {
    if words != [] {
      FreqsCount(words[..|words| - 1], w);
    }
  }

  /** ln(N / freq) with Java's integer division, for every counted word. */
  function Idfs(freqs: map<string, nat>, n: nat, ln: nat -> real): (r: map<string, real>)
    ensures r.Keys == freqs.Keys
  {
    map w | w in freqs :: ln(if freqs[w] == 0 then 0 else n / freqs[w])
  }

  /** `getIDF`: case-insensitive, and MaxIdf for a word the corpus never uses. */
  function Lookup(idfs: map<string, real>, word: string): (r: real)
    ensures ToLower(word) !in idfs ==> r == MaxIdf
  {
    var w := ToLower(word);
    if w in idfs then idfs[w] else MaxIdf
  }

  /** Spellings that differ only in ASCII case get the same IDF. */
  lemma GetIdfIgnoresCase(idfs: map<string, real>, a: string, b: string)
    requires EqualsIgnoreCase(a, b)
    ensures Lookup(idfs, a) == Lookup(idfs, b)
  {
  }

  /** A word met more often than there are documents gets ln(0): the division truncates to 0. */
  lemma FrequentWordIdf(words: seq<string>, n: nat, ln: nat -> real, w: string)
    requires Occurrences(words, w) > n
    ensures w in Idfs(Freqs(words), n, ln) && Idfs(Freqs(words), n, ln)[w] == ln(0)
  {
    FreqsCount(words, w);
    var f := Freqs(words);
    assert f[w] > n;
    assert n / f[w] == 0;
  }

  class IdfCalc {
    var idfs: map<string, real>

    /** `IDFCalc(kb)`, given the lines of the corpus resource `CorpusFile(kb)` names. */
    constructor (docs: seq<string>, ln: nat -> real)
      ensures idfs == Idfs(Freqs(Flatten(Corpus(docs))), |docs|, ln)
    {
      idfs := map[];
      new;
      var corpus := BuildCorpus(docs);
      InitializeIdfs(corpus, ln);
    }

    /** The tokenised corpus: one word list per line of the corpus resource. */
    static method BuildCorpus(docs: seq<string>) returns (corpus: seq<seq<string>>)
      ensures corpus == Corpus(docs)
    {
      corpus := [];
      var i := 0;
      while i < |docs|
        invariant 0 <= i <= |docs|
        invariant corpus == Tokenized(docs[..i], Tokenize)
      {
        var words := Tokenize(docs[i]);
        TokenizedStep(docs, Tokenize, i);
        var newDoc := CopyWords(words);
        corpus := corpus + [newDoc];
        i := i + 1;
      }
      assert docs[..i] == docs;
    }

    /** The loop that adds the words of a split line to a fresh list. */
    static method CopyWords(words: seq<string>) returns (newDoc: seq<string>)
      ensures newDoc == words
    {
      newDoc := [];
      var k := 0;
      while k < |words|
        invariant 0 <= k <= |words|
        invariant newDoc == words[..k]
      {
        newDoc := newDoc + [words[k]];
        k := k + 1;
      }
      assert words[..k] == words;
    }

    /** `initializeIDFs`: count the words, then store ln(N / freq) for each. */
    method InitializeIdfs(corpus: seq<seq<string>>, ln: nat -> real)
      modifies this
      ensures idfs == old(idfs) + Idfs(Freqs(Flatten(corpus)), |corpus|, ln)
    {
      var freqs := CountWords(corpus);
      idfs := StoreIdfs(idfs, freqs, |corpus|, ln);
    }

    /** The counting loops of `initializeIDFs`: every word of every document, lower-cased. */
    static method CountWords(corpus: seq<seq<string>>) returns (freqs: map<string, nat>)
      ensures freqs == Freqs(Flatten(corpus))
    {
      freqs := map[];
      var d := 0;
      while d < |corpus|
        invariant 0 <= d <= |corpus|
        invariant freqs == Freqs(Flatten(corpus[..d]))
      {
        freqs := CountDocument(freqs, Flatten(corpus[..d]), corpus[d]);
        assert corpus[..d + 1][..d] == corpus[..d];
        d := d + 1;
      }
      assert corpus[..d] == corpus;
    }

    /** The inner counting loop: the words of one document added to the counts of the words before it. */
    static method CountDocument(counted: map<string, nat>, ghost before: seq<string>, doc: seq<string>)
      returns (freqs: map<string, nat>)
      requires counted == Freqs(before)
      ensures freqs == Freqs(before + doc)
    {
      freqs := counted;
      var k := 0;
      assert before + doc[..0] == before;
      while k < |doc|
        invariant 0 <= k <= |doc|
        invariant freqs == Freqs(before + doc[..k])
      {
        var w := ToLower(doc[k]);
        ghost var next := before + doc[..k + 1];
        assert next[..|next| - 1] == before + doc[..k] && next[|next| - 1] == doc[k];
        if w in freqs {
          var freq := freqs[w] + 1;
          freqs := freqs[w := freq];
        } else {
          freqs := freqs[w := 1];
        }
        k := k + 1;
      }
      assert doc[..k] == doc;
    }

    /** The storing loop of `initializeIDFs`: ln(n / freq) for each counted word, over what `idfs` held. */
    static method StoreIdfs(stored: map<string, real>, freqs: map<string, nat>, n: nat, ln: nat -> real)
      returns (result: map<string, real>)
      ensures result == stored + Idfs(freqs, n, ln)
    {
      var keys := freqs.Keys;
      result := stored;
      ghost var target := Idfs(freqs, n, ln);
      while keys != {}
        invariant keys <= freqs.Keys
        invariant forall w :: w in result <==> w in stored || (w in freqs && w !in keys)
        invariant forall w :: w in result ==> result[w] == (if w in freqs && w !in keys then target[w] else stored[w])
        decreases keys
      {
        var w :| w in keys;
        var freq := freqs[w];
        var idf := ln(if freq == 0 then 0 else n / freq);
        result := result[w := idf];
        keys := keys - {w};
      }
      assert result == stored + target;
    }

    /** `getIDF`. */
    function GetIdf(word: string): (r: real)
      reads this
      ensures ToLower(word) !in idfs ==> r == MaxIdf
      ensures ToLower(word) in idfs ==> r == idfs[ToLower(word)]
    {
      Lookup(idfs, word)
    }
  }
}
