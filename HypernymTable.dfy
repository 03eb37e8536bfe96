/**
 * The hypernym table (util/HypernymTable): each line of the hypernyms
 * resource reads `pos|w1, w2, ...|h1, h2, ...`; every word of the synset is
 * given, under the key `word_TAG`, the line's hypernyms. The resource is
 * passed in as its list of lines.
 */
module Hypernyms {
  import opened Strings
  import opened Lists
  import opened Tables

  /** Only nouns are told apart: every other part of speech is filed as a verb. */
  function PosTag(pos: string): (tag: string)
    ensures |tag| == 2
    ensures tag == "NN" <==> pos == "noun"
    ensures tag == "NN" || tag == "VB"
  {
    if pos == "noun" then "NN" else "VB"
  }

  datatype Entry = Entry(pos: string, synset: seq<string>, hypernyms: seq<string>)

  /**
   * The three '|'-separated fields, the last two split on ", "; a line with
   * fewer than three fields raises ArrayIndexOutOfBoundsException.
   */
  function ParseLine(line: string): (r: Result<Entry>)
    ensures r.Ok? <==> |Split(line, "|")| >= 3
    ensures r.Ok? ==>
      var fields := Split(line, "|");
      r.value == Entry(fields[0], Split(fields[1], ", "), Split(fields[2], ", "))
  {
    match SplitAt(line, "|", 0)
    case Err(e) => Err(e)
    case Ok(pos) =>
      match SplitAt(line, "|", 1)
      case Err(e) => Err(e)
      case Ok(synset) =>
        match SplitAt(line, "|", 2)
        case Err(e) => Err(e)
        case Ok(hyps) => Ok(Entry(pos, Split(synset, ", "), Split(hyps, ", ")))
  }

  /** One pass of the loop over the synset: a new key takes the list as it is, an old one gains the absent hypernyms. */
  function MergeWord(m: map<string, seq<string>>, hypList: seq<string>, tag: string, word: string)
    : (r: map<string, seq<string>>)
    ensures Key(word, tag) in r
    ensures Key(word, tag) !in m ==> r[Key(word, tag)] == hypList
    ensures forall k :: k in m && k != Key(word, tag) ==> k in r && r[k] == m[k]
  {
    var key := Key(word, tag);
    m[key := if key in m then AppendAbsent(m[key], hypList) else hypList]
  }

  function MergeWords(m: map<string, seq<string>>, hypList: seq<string>, tag: string, words: seq<string>)
    : (r: map<string, seq<string>>)
    ensures m.Keys <= r.Keys
    decreases |words|
  {
    if words == [] then m
    else MergeWords(MergeWord(m, hypList, tag, words[0]), hypList, tag, words[1..])
  }

  /** One line: every word of the synset merged with the line's hypernyms. */
  function LoadLine(m: map<string, seq<string>>, line: string): (r: Result<map<string, seq<string>>>)
    ensures r.Err? <==> ParseLine(line).Err?
    ensures r.Ok? ==> m.Keys <= r.value.Keys
  {
    match ParseLine(line)
    case Err(e) => Err(e)
    case Ok(entry) => Ok(MergeWords(m, entry.hypernyms, PosTag(entry.pos), entry.synset))
  }

  /** The whole read loop; the first malformed line ends it with the exception. */
  function Load(m: map<string, seq<string>>, lines: seq<string>): (r: Result<map<string, seq<string>>>)
    ensures r.Ok? <==> forall i :: 0 <= i < |lines| ==> ParseLine(lines[i]).Ok?
    decreases |lines|
  {
    if lines == [] then Ok(m)
    else
      match LoadLine(m, lines[0])
      case Err(e) => Err(e)
      case Ok(m') => Load(m', lines[1..])
  }

  /** `getHypernyms`: the list filed under `word_pos`, or the empty list. */
  function GetHypernyms(m: map<string, seq<string>>, word: string, pos: string): (r: seq<string>)
    ensures Key(word, pos) !in m ==> r == []
    ensures Key(word, pos) in m ==> r == m[Key(word, pos)]
  {
    var key := Key(word, pos);
    if key in m then m[key] else []
  }

  lemma MergeWordProps(m: map<string, seq<string>>, hypList: seq<string>, tag: string, word: string)
    ensures var m' := MergeWord(m, hypList, tag, word);
      && Grows(m, m')
      && (forall h :: h in hypList ==> h in m'[Key(word, tag)])
  {
    var key := Key(word, tag);
    if key in m {
      AppendAbsentContents(m[key], hypList);
    }
  }

  lemma {:induction false} MergeWordsProps(m: map<string, seq<string>>, hypList: seq<string>, tag: string, words: seq<string>)
    ensures var m' := MergeWords(m, hypList, tag, words);
      && Grows(m, m')
      && (forall w, h :: w in words && h in hypList ==> Key(w, tag) in m' && h in m'[Key(w, tag)])
    decreases |words|
  {
    if words != [] {
      var m1 := MergeWord(m, hypList, tag, words[0]);
      MergeWordProps(m, hypList, tag, words[0]);
      MergeWordsProps(m1, hypList, tag, words[1..]);
      var m' := MergeWords(m1, hypList, tag, words[1..]);
      GrowsTrans(m, m1, m');
      forall w, h | w in words && h in hypList ensures Key(w, tag) in m' && h in m'[Key(w, tag)] {
        if w !in words[1..] {
          assert w == words[0];
          GrowsKeeps(m1, m', Key(w, tag), h);
        }
      }
    }
  }

  /** Each synset word of the line, when it parses, lists every hypernym of the line. */
  ghost predicate LineFiled(line: string, m: map<string, seq<string>>) {
    ParseLine(line).Ok? ==>
      var entry := ParseLine(line).value;
      forall w, h :: w in entry.synset && h in entry.hypernyms ==>
        Key(w, PosTag(entry.pos)) in m && h in m[Key(w, PosTag(entry.pos))]
  }

  lemma LineFiledGrows(line: string, m: map<string, seq<string>>, m': map<string, seq<string>>)
    requires LineFiled(line, m) && Grows(m, m')
    ensures LineFiled(line, m')
  {
    if ParseLine(line).Ok? {
      var entry := ParseLine(line).value;
      forall w, h | w in entry.synset && h in entry.hypernyms
        ensures Key(w, PosTag(entry.pos)) in m' && h in m'[Key(w, PosTag(entry.pos))]
      {
        GrowsKeeps(m, m', Key(w, PosTag(entry.pos)), h);
      }
    }
  }

  /**
   * Every successful load keeps the entries it started from and files each
   * hypernym of each line under every synset word of that line.
   */
  lemma {:induction false} LoadProps(m: map<string, seq<string>>, lines: seq<string>, m': map<string, seq<string>>)
    requires Load(m, lines) == Ok(m')
    ensures Grows(m, m')
    ensures forall i :: 0 <= i < |lines| ==> LineFiled(lines[i], m')
    decreases |lines|
  {
    if lines != [] {
      var entry := ParseLine(lines[0]).value;
      MergeWordsProps(m, entry.hypernyms, PosTag(entry.pos), entry.synset);
      var m1 := LoadLine(m, lines[0]).value;
      LoadProps(m1, lines[1..], m');
      GrowsTrans(m, m1, m');
      LineFiledGrows(lines[0], m1, m');
      forall i | 1 <= i < |lines| ensures LineFiled(lines[i], m') {
        assert lines[i] == lines[1..][i - 1];
      }
    }
  }

  class HypernymTable {
    var hypernyms: map<string, seq<string>>

    constructor ()
      ensures hypernyms == map[]
    {
      hypernyms := map[];
    }

    /**
     * Reads the lines into the table. Returns false where Java lets an
     * ArrayIndexOutOfBoundsException escape; the table then holds what the
     * lines before the malformed one put there.
     */
    method InitializeTable(lines: seq<string>) returns (ok: bool)
      modifies this
      ensures ok <==> Load(old(hypernyms), lines).Ok?
      ensures ok ==> hypernyms == Load(old(hypernyms), lines).value
    {
      var i := 0;
      while i < |lines|
        invariant 0 <= i <= |lines|
        invariant Load(old(hypernyms), lines) == Load(hypernyms, lines[i..])
      {
        assert lines[i..][1..] == lines[i + 1..];
        var parsed := ParseLine(lines[i]);
        if parsed.Err? {
          return false;
        }
        var synset := parsed.value.synset;
        var hypList := parsed.value.hypernyms;
        var tag := PosTag(parsed.value.pos);
        FileLine(synset, hypList, tag);
        i := i + 1;
      }
      assert lines[|lines|..] == [];
      ok := true;
    }

    /** The loop over the synset of one line: each word is filed with the line's hypernyms. */
    method FileLine(synset: seq<string>, hypList: seq<string>, tag: string)
      modifies this
      ensures hypernyms == MergeWords(old(hypernyms), hypList, tag, synset)
    {
      var j := 0;
      while j < |synset|
        invariant 0 <= j <= |synset|
        invariant MergeWords(old(hypernyms), hypList, tag, synset) == MergeWords(hypernyms, hypList, tag, synset[j..])
      {
        assert synset[j..][1..] == synset[j + 1..];
        FileWord(synset[j], hypList, tag);
        j := j + 1;
      }
      assert synset[|synset|..] == [];
    }

    /** One pass of the loop over the synset: the word is filed under `word_TAG`. */
    method FileWord(word: string, hypList: seq<string>, tag: string)
      modifies this
      ensures hypernyms == MergeWord(old(hypernyms), hypList, tag, word)
    {
      var key := word + "_" + tag;
      var table := hypernyms;
      var hyps: seq<string>;
      if key in table {
        hyps := ExtendHypernyms(table[key], hypList);
      } else {
        hyps := CopyList(hypList);
      }
      assert key == Key(word, tag);
      hypernyms := table[key := hyps];
    }
  }

  /** The inner loop for a key already filed: each hypernym is appended unless listed. */
  method ExtendHypernyms(filed: seq<string>, hypList: seq<string>) returns (hyps: seq<string>)
    ensures hyps == AppendAbsent(filed, hypList)
  {
    hyps := filed;
    var k := 0;
    while k < |hypList|
      invariant 0 <= k <= |hypList|
      invariant hyps == AppendAbsent(filed, hypList[..k])
    {
      AppendAbsentPrefixStep(filed, hypList, k);
      if !(hypList[k] in hyps) {
        hyps := hyps + [hypList[k]];
      }
      k := k + 1;
    }
    assert hypList[..k] == hypList;
  }

  /** The inner loop for a new key: the hypernyms copied one by one. */
  method CopyList(hypList: seq<string>) returns (hyps: seq<string>)
    ensures hyps == hypList
  {
    hyps := [];
    var k := 0;
    while k < |hypList|
      invariant 0 <= k <= |hypList|
      invariant hyps == hypList[..k]
    {
      hyps := hyps + [hypList[k]];
      k := k + 1;
    }
    assert hypList[..k] == hypList;
  }
}
