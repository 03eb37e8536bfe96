/**
 * The result writer (data/DataWriter.writeEntaimentResult): one block of
 * lines per processed pair, the output file rewritten with every block so
 * far after each pair. The file is modelled as the string last written.
 */
module Writer {
  import opened Strings

  /**
   * A processed pair as the JSON object the writer reads: the fields of the
   * dataset record (absent ones are None and print as "null"), the answer,
   * the model, and the justification lines.
   */
  datatype Outcome = Outcome(
    id: Option<string>, text: Option<string>, hypothesis: Option<string>, entailment: Option<string>,
    answer: string, model: string, justification: seq<string>)

  /** String concatenation of a possibly-null String. */
  function Show(s: Option<string>): string {
    if s.Some? then s.value else "null"
  }

  /** `List.toString()`: "[a, b, c]". */
  function ListString(items: seq<string>): (r: string)
    ensures |r| >= 2 && r[0] == '[' && r[|r| - 1] == ']'
  {
    "[" + JoinComma(items) + "]"
  }

  function JoinComma(items: seq<string>): string {
    if items == [] then ""
    else if |items| == 1 then items[0]
    else items[0] + ", " + JoinComma(items[1..])
  }

  /** The five header lines of a block. */
  function Header(o: Outcome): seq<string> {
    [Show(o.id) + " T: " + Show(o.text) + "\n",
     Show(o.id) + " H: " + Show(o.hypothesis) + "\n",
     Show(o.id) + " A: " + Show(o.entailment) + "\n",
     "Entailment: " + o.answer + "\n",
     "Model: " + o.model + "\n"]
  }

  /** Each justification item on a line of its own. */
  function Lines(items: seq<string>): (r: seq<string>)
    ensures |r| == |items|
    ensures forall i :: 0 <= i < |items| ==> r[i] == items[i] + "\n"
  {
    if items == [] then [] else Lines(items[..|items| - 1]) + [items[|items| - 1] + "\n"]
  }

  /**
   * The block as data/DataWriter.java lines 29-43 write it: the justification is printed unless
   * the list's string form is "null", which a list's string form never is.
   */
  function BlockAsWritten(o: Outcome): (r: seq<string>)
    ensures |r| >= 7 && r[..5] == Header(o) && r[5] == "Justification:\n" && r[|r| - 1] == "\n"
  {
    Header(o)
    + (if ListString(o.justification) != "null" then ["Justification:\n"] + Lines(o.justification) else [])
    + ["\n"]
  }

  /**
   * The block with the evident intent of the test at line 35: the
   * justification "null" that a "no" decision carries is not printed.
   */
  function Block(o: Outcome): (r: seq<string>)
    ensures |r| >= 6 && r[..5] == Header(o) && r[|r| - 1] == "\n"
  {
    Header(o)
    + (if o.justification != ["null"] then ["Justification:\n"] + Lines(o.justification) else [])
    + ["\n"]
  }

  /**
   * A block is the five header lines, then, unless the justification is the
   * "null" marker, a "Justification:" line and one line per item, then a
   * blank line.
   */
  lemma BlockShape(o: Outcome)
    ensures var r := Block(o);
      && |r| >= 6 && r[..5] == Header(o) && r[|r| - 1] == "\n"
      && (|r| > 6 <==> o.justification != ["null"])
      && (|r| > 6 ==> r[5] == "Justification:\n" && r[6..|r| - 1] == Lines(o.justification))
  {
    var r := Block(o);
    if o.justification != ["null"] {
      assert r == Header(o) + ["Justification:\n"] + Lines(o.justification) + ["\n"];
      assert r[6..|r| - 1] == Lines(o.justification);
    }
  }

  /** As written, every block carries a "Justification:" line, the marker "null" included. */
  lemma JustificationAlwaysWritten(o: Outcome)
    ensures BlockAsWritten(o)[5] == "Justification:\n"
    ensures o.justification == ["null"] ==> BlockAsWritten(o)[5..] == ["Justification:\n", "null\n", "\n"]
  {
    var r := BlockAsWritten(o);
    assert ListString(o.justification) != "null";
    assert r == Header(o) + ["Justification:\n"] + Lines(o.justification) + ["\n"];
    if o.justification == ["null"] {
      assert "null" + "\n" == "null\n";
      assert Lines(o.justification) == Lines([]) + ["null" + "\n"];
    }
  }

  /**
   * As written, the marker "null" gets a "Justification:" line and a "null"
   * line the corrected block leaves out; every other block is the same.
   */
  lemma BlockAsWrittenDiffers(o: Outcome)
    ensures BlockAsWritten(o) == Block(o) <==> o.justification != ["null"]
    ensures o.justification == ["null"] ==> |BlockAsWritten(o)| == |Block(o)| + 2
  {
    JustificationAlwaysWritten(o);
    BlockShape(o);
  }

  /** The lines of the blocks of `results`, in order, each block made by `block`. */
  function Blocks(block: Outcome -> seq<string>, results: seq<Outcome>): seq<string> {
    if results == [] then [] else Blocks(block, results[..|results| - 1]) + block(results[|results| - 1])
  }

  /** The file as written and the corrected file agree exactly when no result carries the "null" marker. */
  lemma {:induction false} BlocksAgree(results: seq<Outcome>)
    ensures (forall i :: 0 <= i < |results| ==> results[i].justification != ["null"]) ==>
      Blocks(BlockAsWritten, results) == Blocks(Block, results)
    ensures (exists i :: 0 <= i < |results| && results[i].justification == ["null"]) ==>
      |Blocks(BlockAsWritten, results)| > |Blocks(Block, results)|
  {
    if results != [] {
      var init := results[..|results| - 1];
      BlocksAgree(init);
      BlocksNoShorter(init);
      BlockAsWrittenDiffers(results[|results| - 1]);
      assert forall i :: 0 <= i < |init| ==> init[i] == results[i];
      if exists i :: 0 <= i < |results| && results[i].justification == ["null"] {
        var i :| 0 <= i < |results| && results[i].justification == ["null"];
        if i < |init| {
          assert init[i].justification == ["null"];
        }
      }
    }
  }

  /** No block as written is shorter than the corrected one. */
  lemma {:induction false} BlocksNoShorter(results: seq<Outcome>)
    ensures |Blocks(BlockAsWritten, results)| >= |Blocks(Block, results)|
  {
    if results != [] {
      BlocksNoShorter(results[..|results| - 1]);
      BlockAsWrittenDiffers(results[|results| - 1]);
    }
  }

  function Concat(records: seq<string>): string {
    if records == [] then "" else Concat(records[..|records| - 1]) + records[|records| - 1]
  }

  lemma {:induction false} ConcatAppend(a: seq<string>, b: seq<string>)
    ensures Concat(a + b) == Concat(a) + Concat(b)
    decreases |b|
  {
    if b == [] {
      assert a + b == a;
    } else {
      var b' := b[..|b| - 1];
      assert (a + b)[..|a + b| - 1] == a + b';
      ConcatAppend(a, b');
    }
  }

  /** Writing the results one after the other gives the blocks of the earlier ones followed by the new one. */
  lemma BlocksAppend(block: Outcome -> seq<string>, results: seq<Outcome>, o: Outcome)
    ensures Concat(Blocks(block, results + [o])) == Concat(Blocks(block, results)) + Concat(block(o))
  {
    assert (results + [o])[..|results|] == results;
    ConcatAppend(Blocks(block, results), block(o));
  }

  /** data/DataWriter.java lines 29-43 for one result, with the test of line 35 as written. */
  method BlockOf(result: Outcome) returns (block: seq<string>)
    ensures block == BlockAsWritten(result)
    ensures block[..5] == Header(result) && block[5] == "Justification:\n" && block[|block| - 1] == "\n"
  {
    JustificationAlwaysWritten(result);
    block := Header(result);
    if ListString(result.justification) != "null" {
      block := block + ["Justification:\n"];
      var k := 0;
      while k < |result.justification|
        invariant 0 <= k <= |result.justification|
        invariant block == Header(result) + ["Justification:\n"] + Lines(result.justification[..k])
      {
        assert result.justification[..k + 1][..k] == result.justification[..k];
        block := block + [result.justification[k] + "\n"];
        k := k + 1;
      }
      assert result.justification[..k] == result.justification;
    }
    block := block + ["\n"];
  }

  /**
   * The loop of `writeEntaimentResult`: after each result the file holds the
   * blocks of all results so far, in order, each as line 35 lets it through;
   * with no result nothing is written.
   */
  method WriteEntailmentResult(results: seq<Outcome>) returns (file: Option<string>)
    ensures file.None? <==> results == []
    ensures file.Some? ==> file.value == Concat(Blocks(BlockAsWritten, results))
  {
    var records: seq<string> := [];
    file := None;
    var i := 0;
    while i < |results|
      invariant 0 <= i <= |results|
      invariant records == Blocks(BlockAsWritten, results[..i])
      invariant file.None? <==> i == 0
      invariant file.Some? ==> file.value == Concat(records)
    {
      var block := BlockOf(results[i]);
      assert results[..i + 1][..i] == results[..i];
      records := records + block;
      file := Some(Concat(records));
      i := i + 1;
    }
    assert results[..i] == results;
  }
}
