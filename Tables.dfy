/**
 * What the three word tables (synonyms, antonyms, hypernyms) share: the
 * `word_TAG` key under which the synonym and hypernym tables file a word,
 * and the way all three only ever extend what they hold.
 */
module Tables {

  /** `word + "_" + pos`. */
  function Key(word: string, tag: string): string {
    word + "_" + tag
  }

  /** A key built from a two-letter tag gives its word back. */
  lemma KeyWord(word: string, tag: string)
    requires |tag| == 2
    ensures var k := Key(word, tag); |k| >= 3 && k[..|k| - 3] == word
  {
    var k := Key(word, tag);
    assert k[..|word|] == word;
  }

  /** Entries are never dropped, and a list is only ever extended at its end. */
  ghost predicate Grows(m: map<string, seq<string>>, m': map<string, seq<string>>) {
    forall k :: k in m ==> k in m' && |m[k]| <= |m'[k]| && m'[k][..|m[k]|] == m[k]
  }

  lemma GrowsTrans(m0: map<string, seq<string>>, m1: map<string, seq<string>>, m2: map<string, seq<string>>)
    requires Grows(m0, m1) && Grows(m1, m2)
    ensures Grows(m0, m2)
  {
    forall k | k in m0 ensures k in m2 && |m0[k]| <= |m2[k]| && m2[k][..|m0[k]|] == m0[k] {
      assert m2[k][..|m1[k]|][..|m0[k]|] == m2[k][..|m0[k]|];
    }
  }

  /** What a table that only grows lists under a key, it still lists later. */
  lemma GrowsKeeps(m: map<string, seq<string>>, m': map<string, seq<string>>, k: string, v: string)
    requires Grows(m, m') && k in m && v in m[k]
    ensures k in m' && v in m'[k]
  {
    assert v in m'[k][..|m[k]|];
  }
}
