/**
 * The synonym table (util/SynsetTable): each line of the synonyms resource
 * reads `pos|w1, w2, ...`; every word of a line with at least two words is
 * given, under the key `word_TAG`, the other words of that line as its
 * synonyms. The resource is passed in as its list of lines.
 */
module Synsets {
  import opened Strings
  import opened Lists
  import opened Tables

  /** The two-letter tag the table files a part of speech under. */
  function PosTag(pos: string): (tag: string)
    ensures |tag| == 2
    ensures pos == "noun" <==> tag == "NN"
    ensures pos == "verb" <==> tag == "VB"
    ensures pos == "adjective" <==> tag == "JJ"
  {
    if pos == "noun" then "NN"
    else if pos == "verb" then "VB"
    else if pos == "adjective" then "JJ"
    else "RB"
  }

  /** The fields of one line: its part of speech and its word list. */
  datatype Entry = Entry(pos: string, words: seq<string>)

  /**
   * `line.split("\\|")[0]` and `line.split("\\|")[1].split(", ")`; a line
   * without a second field raises ArrayIndexOutOfBoundsException.
   */
  function ParseLine(line: string): (r: Result<Entry>)
    ensures r.Ok? <==> |Split(line, "|")| >= 2
    ensures r.Ok? ==> r.value == Entry(Split(line, "|")[0], Split(Split(line, "|")[1], ", "))
  {
    match SplitAt(line, "|", 0)
    case Err(e) => Err(e)
    case Ok(pos) =>
      match SplitAt(line, "|", 1)
      case Err(e) => Err(e)
      case Ok(field) => Ok(Entry(pos, Split(field, ", ")))
  }

  /** One pass of the inner loop for `word`: its key gains the line's other words. */
  function MergeWord(m: map<string, seq<string>>, synList: seq<string>, tag: string, word: string)
    : map<string, seq<string>>
  {
    var key := Key(word, tag);
    var others := Without(synList, word);
    m[key := if key in m then AppendAbsent(m[key], others) else others]
  }

  /** The loop over the words of one line. */
  function MergeWords(m: map<string, seq<string>>, synList: seq<string>, tag: string, words: seq<string>)
    : map<string, seq<string>>
    decreases |words|
  {
    if words == [] then m
    else MergeWords(MergeWord(m, synList, tag, words[0]), synList, tag, words[1..])
  }

  /** One line: nothing for a synset of one word, otherwise each word merged. */
  function LoadLine(m: map<string, seq<string>>, line: string): (r: Result<map<string, seq<string>>>)
    ensures r.Err? <==> ParseLine(line).Err?
    ensures ParseLine(line).Ok? && |ParseLine(line).value.words| <= 1 ==> r == Ok(m)
  {
    match ParseLine(line)
    case Err(e) => Err(e)
    case Ok(entry) =>
      if |entry.words| > 1 then
        var tag := PosTag(entry.pos);
        Ok(MergeWords(m, entry.words, tag, entry.words))
      else Ok(m)
  }

  /** The whole read loop; the first malformed line ends it with the exception. */
  function Load(m: map<string, seq<string>>, lines: seq<string>): (r: Result<map<string, seq<string>>>)
    ensures r.Ok? <==> forall i :: 0 <= i < |lines| ==> ParseLine(lines[i]).Ok?
    decreases |lines|
  {
    if lines == [] then Ok(m)
    else
      match LoadLine(m, lines[0])
      case Err(e) => Err(e)
      case Ok(m') => Load(m', lines[1..])
  }

  /** `getSynonyms`: the list filed under `word_pos`, or the empty list. */
  function GetSynonyms(m: map<string, seq<string>>, word: string, pos: string): (r: seq<string>)
    ensures Key(word, pos) !in m ==> r == []
    ensures Key(word, pos) in m ==> r == m[Key(word, pos)]
  {
    var key := Key(word, pos);
    if key in m then m[key] else []
  }

  /** No word is filed as a synonym of itself. */
  ghost predicate NoSelfSynonym(m: map<string, seq<string>>) {
    forall k :: k in m ==> |k| >= 3 && k[..|k| - 3] !in m[k]
  }

  lemma MergeWordProps(m: map<string, seq<string>>, synList: seq<string>, tag: string, word: string)
    requires |tag| == 2
    ensures var m' := MergeWord(m, synList, tag, word);
      && Grows(m, m')
      && (forall s :: s in synList && s != word ==> s in m'[Key(word, tag)])
      && (NoSelfSynonym(m) ==> NoSelfSynonym(m'))
  {
    MergeWordGrows(m, synList, tag, word);
    MergeWordFiles(m, synList, tag, word);
    if NoSelfSynonym(m) {
      MergeWordNoSelf(m, synList, tag, word);
    }
  }

  lemma MergeWordGrows(m: map<string, seq<string>>, synList: seq<string>, tag: string, word: string)
    ensures Grows(m, MergeWord(m, synList, tag, word))
  {
    var key := Key(word, tag);
    var m' := MergeWord(m, synList, tag, word);
    forall k | k in m ensures k in m' && |m[k]| <= |m'[k]| && m'[k][..|m[k]|] == m[k] {
      if k == key {
        assert m'[k] == AppendAbsent(m[key], Without(synList, word));
      } else {
        assert m'[k] == m[k];
      }
    }
  }

  lemma MergeWordFiles(m: map<string, seq<string>>, synList: seq<string>, tag: string, word: string)
    ensures forall s :: s in synList && s != word ==> s in MergeWord(m, synList, tag, word)[Key(word, tag)]
  {
    var key := Key(word, tag);
    var others := Without(synList, word);
    WithoutContents(synList, word);
    if key in m {
      AppendAbsentContents(m[key], others);
    }
  }

  lemma MergeWordNoSelf(m: map<string, seq<string>>, synList: seq<string>, tag: string, word: string)
    requires |tag| == 2 && NoSelfSynonym(m)
    ensures NoSelfSynonym(MergeWord(m, synList, tag, word))
  {
    var key := Key(word, tag);
    var others := Without(synList, word);
    var m' := MergeWord(m, synList, tag, word);
    KeyWord(word, tag);
    assert word !in others;
    forall k | k in m' ensures |k| >= 3 && k[..|k| - 3] !in m'[k] {
      if k == key {
        if key in m {
          assert word !in m[key];
          AppendAbsentContents(m[key], others);
          assert m'[k] == AppendAbsent(m[key], others);
        } else {
          assert m'[k] == others;
        }
      } else {
        assert k in m && m'[k] == m[k];
      }
    }
  }

  lemma {:induction false} MergeWordsProps(m: map<string, seq<string>>, synList: seq<string>, tag: string, words: seq<string>)
    requires |tag| == 2
    ensures var m' := MergeWords(m, synList, tag, words);
      && Grows(m, m')
      && (forall w, s :: w in words && s in synList && s != w ==> Key(w, tag) in m' && s in m'[Key(w, tag)])
      && (NoSelfSynonym(m) ==> NoSelfSynonym(m'))
    decreases |words|
  {
    if words != [] {
      var m1 := MergeWord(m, synList, tag, words[0]);
      MergeWordProps(m, synList, tag, words[0]);
      MergeWordsProps(m1, synList, tag, words[1..]);
      var m' := MergeWords(m1, synList, tag, words[1..]);
      GrowsTrans(m, m1, m');
      forall w, s | w in words && s in synList && s != w ensures Key(w, tag) in m' && s in m'[Key(w, tag)] {
        if w !in words[1..] {
          assert w == words[0];
          assert s in m1[Key(w, tag)];
        }
      }
    }
  }

  /** Each word of the line, when it parses, lists every other word of the line. */
  ghost predicate LineFiled(line: string, m: map<string, seq<string>>) {
    ParseLine(line).Ok? ==>
      var entry := ParseLine(line).value;
      forall w, s :: w in entry.words && s in entry.words && s != w ==>
        Key(w, PosTag(entry.pos)) in m && s in m[Key(w, PosTag(entry.pos))]
  }

  lemma LineFiledGrows(line: string, m: map<string, seq<string>>, m': map<string, seq<string>>)
    requires LineFiled(line, m) && Grows(m, m')
    ensures LineFiled(line, m')
  {
    if ParseLine(line).Ok? {
      var entry := ParseLine(line).value;
      forall w, s | w in entry.words && s in entry.words && s != w
        ensures Key(w, PosTag(entry.pos)) in m' && s in m'[Key(w, PosTag(entry.pos))]
      {
        GrowsKeeps(m, m', Key(w, PosTag(entry.pos)), s);
      }
    }
  }

  lemma LoadLineProps(m: map<string, seq<string>>, line: string)
    requires LoadLine(m, line).Ok?
    ensures var m' := LoadLine(m, line).value;
      && Grows(m, m') && LineFiled(line, m')
      && (NoSelfSynonym(m) ==> NoSelfSynonym(m'))
  {
    var entry := ParseLine(line).value;
    if |entry.words| > 1 {
      MergeWordsProps(m, entry.words, PosTag(entry.pos), entry.words);
    } else {
      forall w, s | w in entry.words && s in entry.words ensures s == w {
        assert entry.words == [w];
      }
    }
  }

  /**
   * Every successful load keeps the entries it started from, puts each word of
   * each line in the list of every other word of that line under the line's
   * tag, and never lists a word as its own synonym.
   */
  lemma {:induction false} LoadProps(m: map<string, seq<string>>, lines: seq<string>, m': map<string, seq<string>>)
    requires Load(m, lines) == Ok(m')
    ensures Grows(m, m')
    ensures NoSelfSynonym(m) ==> NoSelfSynonym(m')
    ensures forall i :: 0 <= i < |lines| ==> LineFiled(lines[i], m')
    decreases |lines|
  {
    if lines != [] {
      LoadLineProps(m, lines[0]);
      var m1 := LoadLine(m, lines[0]).value;
      LoadProps(m1, lines[1..], m');
      GrowsTrans(m, m1, m');
      forall i | 0 <= i < |lines| ensures LineFiled(lines[i], m') {
        if i == 0 {
          LineFiledGrows(lines[0], m1, m');
        } else {
          assert lines[i] == lines[1..][i - 1];
        }
      }
    }
  }

  /** `getSynonyms(w, pos)` never returns w itself for a two-letter tag. */
  lemma NotOwnSynonym(m: map<string, seq<string>>, word: string, pos: string)
    requires NoSelfSynonym(m) && |pos| == 2
    ensures word !in GetSynonyms(m, word, pos)
  {
    KeyWord(word, pos);
  }

  class SynsetTable {
    var synonyms: map<string, seq<string>>

    constructor ()
      ensures synonyms == map[]
    {
      synonyms := map[];
    }

    /**
     * Reads the lines into the table. Returns false where Java lets an
     * ArrayIndexOutOfBoundsException escape; the table then holds what the
     * lines before the malformed one put there.
     */
    method InitializeTable(lines: seq<string>) returns (ok: bool)
      modifies this
      ensures ok <==> Load(old(synonyms), lines).Ok?
      ensures ok ==> synonyms == Load(old(synonyms), lines).value
    {
      var i := 0;
      while i < |lines|
        invariant 0 <= i <= |lines|
        invariant Load(old(synonyms), lines) == Load(synonyms, lines[i..])
      {
        assert lines[i..][1..] == lines[i + 1..];
        var line := lines[i];
        var parsed := ParseLine(line);
        if parsed.Err? {
          return false;
        }
        var synList := parsed.value.words;
        if |synList| > 1 {
          var tag := PosTag(parsed.value.pos);
          FileLine(synList, tag);
        }
        i := i + 1;
      }
      ok := true;
    }

    /** The loop over the words of one line: each is filed with the others as synonyms. */
    method FileLine(synList: seq<string>, tag: string)
      modifies this
      ensures synonyms == MergeWords(old(synonyms), synList, tag, synList)
    {
      var j := 0;
      while j < |synList|
        invariant 0 <= j <= |synList|
        invariant MergeWords(old(synonyms), synList, tag, synList) == MergeWords(synonyms, synList, tag, synList[j..])
      {
        assert synList[j..][1..] == synList[j + 1..];
        FileWord(synList[j], synList, tag);
        j := j + 1;
      }
      assert synList[|synList|..] == [];
    }

    /** One pass of the loop over a line's words: `word_tag` gains the other words of synList. */
    method FileWord(word: string, synList: seq<string>, tag: string)
      modifies this
      ensures synonyms == MergeWord(old(synonyms), synList, tag, word)
    {
      var key := word + "_" + tag;
      var table := synonyms;
      var syns: seq<string>;
      if key in table {
        syns := ExtendSynonyms(table[key], synList, word);
      } else {
        syns := OtherWords(synList, word);
      }
      assert key == Key(word, tag);
      synonyms := table[key := syns];
    }
  }

  /**
   * The inner loop of `initializeTable` for a key already filed: each word of
   * synList other than `word` is appended to the filed list unless listed.
   */
  method ExtendSynonyms(filed: seq<string>, synList: seq<string>, word: string) returns (syns: seq<string>)
    ensures syns == AppendAbsent(filed, Without(synList, word))
  {
    ghost var others: seq<string> := [];
    syns := filed;
    var k := 0;
    while k < |synList|
      invariant 0 <= k <= |synList|
      invariant others == Without(synList[..k], word)
      invariant syns == AppendAbsent(filed, others)
    {
      var synonym := synList[k];
      WithoutStep(synList, k, word);
      if synonym != word {
        var more := others + [synonym];
        assert more[..|more| - 1] == others;
        others := more;
      }
      if !(synonym in syns) && synonym != word {
        syns := syns + [synonym];
      }
      k := k + 1;
    }
    assert synList[..k] == synList;
  }

  /** The inner loop of `initializeTable` for a new key: the words of synList other than `word`, in order. */
  method OtherWords(synList: seq<string>, word: string) returns (syns: seq<string>)
    ensures syns == Without(synList, word)
  {
    syns := [];
    var k := 0;
    while k < |synList|
      invariant 0 <= k <= |synList|
      invariant syns == Without(synList[..k], word)
    {
      WithoutStep(synList, k, word);
      if synList[k] != word {
        syns := syns + [synList[k]];
      }
      k := k + 1;
    }
    assert synList[..k] == synList;
  }
}
