/**
 * The antonym table (util/AntonymTable): each line of the antonyms resource
 * reads `key|a1, a2, ...`; the key is given the antonyms and every antonym
 * is given the key back, so that the relation stays symmetric. The resource
 * is passed in as its list of lines.
 */
module Antonyms {
  import opened Strings

  datatype Entry = Entry(key: string, antonyms: seq<string>)

  /**
   * `line.split("\\|")[0]` and `line.split("\\|")[1].split(", ")`; a line
   * without a second field raises ArrayIndexOutOfBoundsException.
   */
  function ParseLine(line: string): (r: Result<Entry>)
    ensures r.Ok? <==> |Split(line, "|")| >= 2
    ensures r.Ok? ==> r.value == Entry(Split(line, "|")[0], Split(Split(line, "|")[1], ", "))
  {
    match SplitAt(line, "|", 0)
    case Err(e) => Err(e)
    case Ok(key) =>
      match SplitAt(line, "|", 1)
      case Err(e) => Err(e)
      case Ok(field) => Ok(Entry(key, Split(field, ", ")))
  }

  /** The entry in the reverse direction: `antonym` gets `key`, at most once. */
  function AddReverse(m: map<string, seq<string>>, antonym: string, key: string): (r: map<string, seq<string>>)
    ensures antonym in r && key in r[antonym]
    ensures antonym in m && key in m[antonym] ==> r == m
    ensures forall k :: k in m && k != antonym ==> k in r && r[k] == m[k]
  {
    if antonym !in m then m[antonym := [key]]
    else if key !in m[antonym] then m[antonym := m[antonym] + [key]]
    else m
  }

  /** One pass of the loop for a key already in the table (util/AntonymTable.java lines 38-57). */
  function MergeAntonym(m: map<string, seq<string>>, key: string, antonym: string): (r: map<string, seq<string>>)
    requires key in m
    ensures key in r && antonym in r[key]
    ensures forall x :: x in m[key] ==> x in r[key]
    ensures antonym in m[key] ==> r[key] == m[key]
  {
    var ants := m[key];
    AddReverse(m[key := if antonym in ants then ants else ants + [antonym]], antonym, key)
  }

  function MergeAll(m: map<string, seq<string>>, key: string, antonyms: seq<string>): (r: map<string, seq<string>>)
    requires key in m
    ensures key in r
    decreases |antonyms|
  {
    if antonyms == [] then m
    else MergeAll(MergeAntonym(m, key, antonyms[0]), key, antonyms[1..])
  }

  /** The reverse entries of the loop for a new key (util/AntonymTable.java lines 63-80). */
  function ReverseAll(m: map<string, seq<string>>, key: string, antonyms: seq<string>): map<string, seq<string>>
    decreases |antonyms|
  {
    if antonyms == [] then m
    else ReverseAll(AddReverse(m, antonyms[0], key), key, antonyms[1..])
  }

  /** One line: nothing when it lists no antonym, otherwise the merge or the new entry. */
  function LoadLine(m: map<string, seq<string>>, line: string): (r: Result<map<string, seq<string>>>)
    ensures r.Err? <==> ParseLine(line).Err?
    ensures ParseLine(line).Ok? && ParseLine(line).value.antonyms == [] ==> r == Ok(m)
    ensures r.Ok? && ParseLine(line).value.antonyms != [] ==> ParseLine(line).value.key in r.value
  {
    match ParseLine(line)
    case Err(e) => Err(e)
    case Ok(entry) =>
      if |entry.antonyms| > 0 then
        if entry.key in m then Ok(MergeAll(m, entry.key, entry.antonyms))
        else Ok(ReverseAll(m, entry.key, entry.antonyms)[entry.key := entry.antonyms])
      else Ok(m)
  }

  /** The whole read loop; the first malformed line ends it with the exception. */
  function Load(m: map<string, seq<string>>, lines: seq<string>): (r: Result<map<string, seq<string>>>)
    ensures r.Ok? <==> forall i :: 0 <= i < |lines| ==> ParseLine(lines[i]).Ok?
    decreases |lines|
  {
    if lines == [] then Ok(m)
    else
      match LoadLine(m, lines[0])
      case Err(e) => Err(e)
      case Ok(m') => Load(m', lines[1..])
  }

  /** `getAntonyms`: the stored list, or the empty list for an unknown word. */
  function GetAntonyms(m: map<string, seq<string>>, word: string): (r: seq<string>)
    ensures word !in m ==> r == []
  {
    if word in m then m[word] else []
  }

  /** Whenever x is listed under k, x has an entry and k is listed under x. */
  ghost predicate Symmetric(m: map<string, seq<string>>) {
    forall k, x :: k in m && x in m[k] ==> x in m && k in m[x]
  }

  /** Adding one pair in both directions to a symmetric table keeps it symmetric. */
  lemma SymmetricAddPair(m: map<string, seq<string>>, m': map<string, seq<string>>, key: string, a: string)
    requires Symmetric(m)
    requires forall k :: k in m ==> k in m'
    requires forall k, x :: k in m && x in m[k] ==> x in m'[k]
    requires key in m' && a in m' && a in m'[key] && key in m'[a]
    requires forall k, x :: k in m' && x in m'[k] ==> (k in m && x in m[k]) || (k == key && x == a) || (k == a && x == key)
    ensures Symmetric(m')
  {
  }

  lemma MergeAntonymSymmetric(m: map<string, seq<string>>, key: string, a: string)
    requires key in m && Symmetric(m)
    ensures Symmetric(MergeAntonym(m, key, a))
  {
    var ants := m[key];
    var m1 := m[key := if a in ants then ants else ants + [a]];
    var m' := MergeAntonym(m, key, a);
    assert forall k, x :: k in m && x in m[k] ==> x in m1[k];
    forall k, x | k in m' && x in m'[k]
      ensures (k in m && x in m[k]) || (k == key && x == a) || (k == a && x == key)
    {
      if k != a && k != key {
        assert m'[k] == m[k];
      }
    }
    SymmetricAddPair(m, m', key, a);
  }

  lemma {:induction false} MergeAllSymmetric(m: map<string, seq<string>>, key: string, antonyms: seq<string>)
    requires key in m && Symmetric(m)
    ensures Symmetric(MergeAll(m, key, antonyms))
    decreases |antonyms|
  {
    if antonyms != [] {
      MergeAntonymSymmetric(m, key, antonyms[0]);
      MergeAllSymmetric(MergeAntonym(m, key, antonyms[0]), key, antonyms[1..]);
    }
  }

  /**
   * While a new key's list is being built, the table with the key's
   * partial list `done` in place is symmetric.
   */
  lemma {:induction false} ReverseAllSymmetric(m: map<string, seq<string>>, key: string, done: seq<string>, rest: seq<string>)
    requires Symmetric(m[key := done])
    ensures Symmetric(ReverseAll(m, key, rest)[key := done + rest])
    decreases |rest|
  {
    if rest == [] {
      assert done + rest == done;
    } else {
      var a := rest[0];
      var before := m[key := done];
      var m1 := AddReverse(m, a, key);
      var after := m1[key := done + [a]];
      assert forall k, x :: k in before && x in before[k] ==> x in after[k];
      forall k, x | k in after && x in after[k]
        ensures (k in before && x in before[k]) || (k == key && x == a) || (k == a && x == key)
      {
        if k != a && k != key {
          assert after[k] == m[k];
        }
      }
      SymmetricAddPair(before, after, key, a);
      ReverseAllSymmetric(m1, key, done + [a], rest[1..]);
      assert (done + [a]) + rest[1..] == done + rest;
    }
  }

  lemma LoadLineSymmetric(m: map<string, seq<string>>, line: string)
    requires Symmetric(m) && LoadLine(m, line).Ok?
    ensures Symmetric(LoadLine(m, line).value)
  {
    var entry := ParseLine(line).value;
    if |entry.antonyms| > 0 {
      if entry.key in m {
        MergeAllSymmetric(m, entry.key, entry.antonyms);
      } else {
        EmptyEntrySymmetric(m, entry.key);
        ReverseAllSymmetric(m, entry.key, [], entry.antonyms);
        assert [] + entry.antonyms == entry.antonyms;
        assert LoadLine(m, line).value == ReverseAll(m, entry.key, entry.antonyms)[entry.key := [] + entry.antonyms];
      }
    }
  }

  /** A new word with an empty list leaves a symmetric table symmetric. */
  lemma EmptyEntrySymmetric(m: map<string, seq<string>>, key: string)
    requires Symmetric(m) && key !in m
    ensures Symmetric(m[key := []])
  {
    var m' := m[key := []];
    forall k, x | k in m' && x in m'[k]
      ensures x in m' && k in m'[x]
    {
      assert k != key && x in m[k];
      assert x != key;
    }
  }

  /** Loading any lines into a symmetric table (the empty one included) leaves it symmetric. */
  lemma {:induction false} LoadSymmetric(m: map<string, seq<string>>, lines: seq<string>)
    requires Symmetric(m) && Load(m, lines).Ok?
    ensures Symmetric(Load(m, lines).value)
    decreases |lines|
  {
    if lines != [] {
      LoadLineSymmetric(m, lines[0]);
      LoadSymmetric(LoadLine(m, lines[0]).value, lines[1..]);
    }
  }

  lemma {:induction false} MergeAllFiles(m: map<string, seq<string>>, key: string, antonyms: seq<string>)
    requires key in m
    ensures forall x :: x in m[key] || x in antonyms ==> x in MergeAll(m, key, antonyms)[key]
    decreases |antonyms|
  {
    if antonyms != [] {
      var m1 := MergeAntonym(m, key, antonyms[0]);
      MergeAllFiles(m1, key, antonyms[1..]);
      forall x | x in antonyms ensures x in antonyms[1..] || x == antonyms[0] {
      }
    }
  }

  /**
   * After a line is loaded into a symmetric table, its key lists each of its
   * antonyms and each antonym lists the key.
   */
  lemma LoadLineFiles(m: map<string, seq<string>>, line: string)
    requires Symmetric(m) && LoadLine(m, line).Ok?
    ensures var m' := LoadLine(m, line).value; var e := ParseLine(line).value;
      forall a :: a in e.antonyms ==> e.key in m' && a in m'[e.key] && a in m' && e.key in m'[a]
  {
    var e := ParseLine(line).value;
    LoadLineSymmetric(m, line);
    if |e.antonyms| > 0 && e.key in m {
      MergeAllFiles(m, e.key, e.antonyms);
    }
  }

  /** On a symmetric table `getAntonyms` answers symmetrically. */
  lemma AntonymsSymmetric(m: map<string, seq<string>>, w: string, a: string)
    requires Symmetric(m) && a in GetAntonyms(m, w)
    ensures w in GetAntonyms(m, a)
  {
  }

  class AntonymTable {
    var antonyms: map<string, seq<string>>

    constructor ()
      ensures antonyms == map[]
    {
      antonyms := map[];
    }

    /**
     * Reads the lines into the table. Returns false where Java lets an
     * ArrayIndexOutOfBoundsException escape; the table then holds what the
     * lines before the malformed one put there.
     */
    method InitializeTable(lines: seq<string>) returns (ok: bool)
      modifies this
      ensures ok <==> Load(old(antonyms), lines).Ok?
      ensures ok ==> antonyms == Load(old(antonyms), lines).value
      ensures ok && Symmetric(old(antonyms)) ==> Symmetric(antonyms)
    {
      var i := 0;
      while i < |lines|
        invariant 0 <= i <= |lines|
        invariant Load(old(antonyms), lines) == Load(antonyms, lines[i..])
      {
        assert lines[i..][1..] == lines[i + 1..];
        var parsed := ParseLine(lines[i]);
        if parsed.Err? {
          return false;
        }
        var key := parsed.value.key;
        var antList := parsed.value.antonyms;
        if |antList| > 0 {
          if key in antonyms {
            MergeLine(key, antList);
          } else {
            NewLine(key, antList);
          }
        }
        i := i + 1;
      }
      assert lines[|lines|..] == [];
      ok := true;
      if Symmetric(old(antonyms)) {
        LoadSymmetric(old(antonyms), lines);
      }
    }

    /** Lines 36-58: the key already has a list, which grows in place. */
    method MergeLine(key: string, antList: seq<string>)
      requires key in antonyms
      modifies this
      ensures antonyms == MergeAll(old(antonyms), key, antList)
    {
      var j := 0;
      while j < |antList|
        invariant 0 <= j <= |antList|
        invariant key in antonyms
        invariant MergeAll(old(antonyms), key, antList) == MergeAll(antonyms, key, antList[j..])
      {
        assert antList[j..][1..] == antList[j + 1..];
        MergeOne(key, antList[j]);
        j := j + 1;
      }
    }

    /** One pass of the loop of util/AntonymTable.java lines 36-58: the antonym joins the key's list, and the key the antonym's. */
    method MergeOne(key: string, antonym: string)
      requires key in antonyms
      modifies this
      ensures antonyms == MergeAntonym(old(antonyms), key, antonym)
    {
      var ants := antonyms[key];
      if !(antonym in ants) {
        antonyms := antonyms[key := ants + [antonym]];
      }
      if !(antonym in antonyms) {
        antonyms := antonyms[antonym := [key]];
      } else {
        var reverseList := antonyms[antonym];
        if !(key in reverseList) {
          antonyms := antonyms[antonym := reverseList + [key]];
        }
      }
    }

    /** Lines 61-81: a fresh list for the key, stored after the reverse entries. */
    method NewLine(key: string, antList: seq<string>)
      requires key !in antonyms
      modifies this
      ensures antonyms == ReverseAll(old(antonyms), key, antList)[key := antList]
    {
      var ants: seq<string> := [];
      var j := 0;
      while j < |antList|
        invariant 0 <= j <= |antList|
        invariant ants == antList[..j]
        invariant ReverseAll(old(antonyms), key, antList) == ReverseAll(antonyms, key, antList[j..])
      {
        assert antList[j..][1..] == antList[j + 1..];
        var antonym := antList[j];
        ants := ants + [antonym];
        if !(antonym in antonyms) {
          antonyms := antonyms[antonym := [key]];
        } else {
          var reverseList := antonyms[antonym];
          if !(key in reverseList) {
            antonyms := antonyms[antonym := reverseList + [key]];
          }
        }
        j := j + 1;
      }
      assert antList[j..] == [];
      assert ants == antList;
      antonyms := antonyms[key := ants];
    }
  }
}
