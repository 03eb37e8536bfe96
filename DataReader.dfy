/**
 * The dataset reader (data/DataReader.readTextDataset): records of three
 * non-blank lines, `<id> T: <text>`, `<id> H: <hypothesis>`,
 * `<id> A: <entailment>`, separated by blank lines. The file is passed in
 * as its list of lines.
 */
module Reader {
  import opened Strings

  /** The JSON object a record is read into; an absent key is None. */
  datatype Record = Record(id: Option<string>, text: Option<string>, hypothesis: Option<string>, entailment: Option<string>)

  const Empty := Record(None, None, None, None)

  /** `lineCount` (1, 2 or 3), the record being filled, and the records so far. */
  datatype ReaderState = ReaderState(lineCount: int, pair: Record, pairs: seq<Record>)

  const Initial := ReaderState(1, Empty, [])

  /** `line.substring(0, line.indexOf(" "))`, which throws when the line has no blank. */
  function IdOf(line: string): (r: Result<string>)
    ensures r.Ok? <==> Contains(line, " ")
    ensures r.Ok? ==> StartsWith(line, r.value + " ") && !Contains(r.value, " ")
  {
    var sp := IndexOf(line, " ");
    if sp < 0 then Err(IndexOutOfBounds)
    else
      assert line[..sp + 1] == line[..sp] + " ";
      NoEarlierBlank(line, sp);
      Ok(line[..sp])
  }

  /** Before the first occurrence of a one-character pattern, the prefix does not contain it. */
  lemma {:induction false} NoEarlierBlank(line: string, sp: int)
    requires 0 <= sp < |line| && line[sp] == ' '
    requires forall k :: 0 <= k < sp ==> !StartsWith(line[k..], " ")
    ensures !Contains(line[..sp], " ")
    decreases sp
  {
    if sp > 0 {
      assert !StartsWith(line[..sp], " ") by {
        assert !StartsWith(line[0..], " ");
        assert line[0..] == line;
      }
      forall k | 0 <= k < sp - 1 ensures !StartsWith(line[1..][k..], " ") {
        assert line[1..][k..] == line[k + 1..];
      }
      NoEarlierBlank(line[1..], sp - 1);
      assert line[..sp][1..] == line[1..][..sp - 1];
    }
  }

  /**
   * `line.substring(line.indexOf(":") + 2)`: the text two characters after
   * the first ':' (from the second character when there is no ':'), which
   * throws when that position is past the end of the line.
   */
  function FieldOf(line: string): (r: Result<string>)
    ensures var start := IndexOf(line, ":") + 2;
      (r.Ok? <==> start <= |line|) && (r.Ok? ==> r.value == line[start..])
  {
    var start := IndexOf(line, ":") + 2;
    if start <= |line| then Ok(line[start..]) else Err(IndexOutOfBounds)
  }

  /** One line of the read loop. */
  function Step(st: ReaderState, line: string): (r: Result<ReaderState>)
    ensures line == "" ==> r.Ok? && r.value.pairs == st.pairs + [st.pair] && r.value.pair == Empty
    ensures line != "" && r.Ok? ==> r.value.pairs == st.pairs
    ensures r.Err? ==> line != "" && 1 <= st.lineCount <= 3
  {
    if line == "" then
      Ok(ReaderState(st.lineCount, Empty, st.pairs + [st.pair]))
    else if st.lineCount == 1 then
      match IdOf(line)
      case Err(e) => Err(e)
      case Ok(id) =>
        match FieldOf(line)
        case Err(e) => Err(e)
        case Ok(text) => Ok(ReaderState(2, st.pair.(id := Some(id), text := Some(text)), st.pairs))
    else if st.lineCount == 2 then
      match FieldOf(line)
      case Err(e) => Err(e)
      case Ok(hyp) => Ok(ReaderState(3, st.pair.(hypothesis := Some(hyp)), st.pairs))
    else if st.lineCount == 3 then
      match FieldOf(line)
      case Err(e) => Err(e)
      case Ok(entail) => Ok(ReaderState(1, st.pair.(entailment := Some(entail)), st.pairs))
    else Ok(st)
  }

  function Run(st: ReaderState, lines: seq<string>): Result<ReaderState>
    decreases |lines|
  {
    if lines == [] then Ok(st)
    else
      match Step(st, lines[0])
      case Err(e) => Err(e)
      case Ok(st') => Run(st', lines[1..])
  }

  /** The records read from the lines: those closed by blank lines, then the last one. */
  function ReadDataset(lines: seq<string>): (r: Result<seq<Record>>)
    ensures r.Ok? ==> Run(Initial, lines).Ok? && |r.value| >= 1 && r.value[|r.value| - 1] == Run(Initial, lines).value.pair
  {
    match Run(Initial, lines)
    case Err(e) => Err(e)
    case Ok(st) => Ok(st.pairs + [st.pair])
  }

  function Blanks(lines: seq<string>): nat {
    if lines == [] then 0 else (if lines[0] == "" then 1 else 0) + Blanks(lines[1..])
  }

  function NonBlanks(lines: seq<string>): nat {
    if lines == [] then 0 else (if lines[0] == "" then 0 else 1) + NonBlanks(lines[1..])
  }

  /** The position on the cycle 1, 2, 3 reached from c after n steps. */
  function Advance(c: int, n: nat): int {
    (c - 1 + n) % 3 + 1
  }

  /** One step round the cycle and then n more is n + 1 steps. */
  lemma AdvanceStep(c: int, n: nat)
    requires 1 <= c <= 3
    ensures Advance(c % 3 + 1, n) == Advance(c, n + 1)
  {
    if c == 3 {
      assert (n + 3) % 3 == n % 3;
    }
  }

  /** One line of the read loop: a blank line closes a record, any other moves one step round the cycle. */
  lemma StepCounts(st: ReaderState, line: string)
    requires 1 <= st.lineCount <= 3 && Step(st, line).Ok?
    ensures |Step(st, line).value.pairs| == |st.pairs| + (if line == "" then 1 else 0)
    ensures Step(st, line).value.lineCount == if line == "" then st.lineCount else st.lineCount % 3 + 1
  {
  }

  /** A successful read past the first line is a successful step followed by a successful read of the rest. */
  lemma RunStep(st: ReaderState, lines: seq<string>)
    requires lines != [] && Run(st, lines).Ok?
    ensures Step(st, lines[0]).Ok? && Run(st, lines) == Run(Step(st, lines[0]).value, lines[1..])
  {
  }

  /** Each blank line closes one record. */
  lemma {:induction false} RunRecords(st: ReaderState, lines: seq<string>)
    requires 1 <= st.lineCount <= 3 && Run(st, lines).Ok?
    ensures |Run(st, lines).value.pairs| == |st.pairs| + Blanks(lines)
    ensures 1 <= Run(st, lines).value.lineCount <= 3
    decreases |lines|
  {
    if lines != [] {
      RunStep(st, lines);
      StepCounts(st, lines[0]);
      RunRecords(Step(st, lines[0]).value, lines[1..]);
    }
  }

  /** Each line other than a blank one moves the state one step round the cycle 1, 2, 3. */
  lemma {:induction false} RunLineCount(st: ReaderState, lines: seq<string>)
    requires 1 <= st.lineCount <= 3 && Run(st, lines).Ok?
    ensures Run(st, lines).value.lineCount == Advance(st.lineCount, NonBlanks(lines))
    decreases |lines|
  {
    if lines != [] {
      RunStep(st, lines);
      StepCounts(st, lines[0]);
      var st' := Step(st, lines[0]).value;
      RunLineCount(st', lines[1..]);
      var n := NonBlanks(lines[1..]);
      if lines[0] != "" {
        assert NonBlanks(lines) == n + 1;
        AdvanceStep(st.lineCount, n);
      } else {
        assert NonBlanks(lines) == n;
      }
    }
  }

  /** There is one record more than there are blank lines, empty records included. */
  lemma ReadCount(lines: seq<string>)
    requires ReadDataset(lines).Ok?
    ensures |ReadDataset(lines).value| == Blanks(lines) + 1
  {
    RunRecords(Initial, lines);
  }

  /** The read loop of `readTextDataset`; an escaping exception is an Err. */
  method ReadTextDataset(lines: seq<string>) returns (r: Result<seq<Record>>)
    ensures r == ReadDataset(lines)
    ensures r.Ok? ==> |r.value| == Blanks(lines) + 1
  {
    var pairs: seq<Record> := [];
    var lineCount := 1;
    var pair := Empty;
    var i := 0;
    while i < |lines|
      invariant 0 <= i <= |lines|
      invariant Run(Initial, lines) == Run(ReaderState(lineCount, pair, pairs), lines[i..])
    {
      assert lines[i..][1..] == lines[i + 1..];
      var line := lines[i];
      if line != "" {
        if lineCount == 1 {
          var id := IdOf(line);
          if id.Err? {
            return Err(id.error);
          }
          var text := FieldOf(line);
          if text.Err? {
            return Err(text.error);
          }
          pair := pair.(id := Some(id.value), text := Some(text.value));
          lineCount := 2;
        } else if lineCount == 2 {
          var hyp := FieldOf(line);
          if hyp.Err? {
            return Err(hyp.error);
          }
          pair := pair.(hypothesis := Some(hyp.value));
          lineCount := 3;
        } else if lineCount == 3 {
          var entail := FieldOf(line);
          if entail.Err? {
            return Err(entail.error);
          }
          pair := pair.(entailment := Some(entail.value));
          lineCount := 1;
        }
      } else {
        pairs := pairs + [pair];
        pair := Empty;
      }
      i := i + 1;
    }
    assert lines[i..] == [];
    r := Ok(pairs + [pair]);
    ReadCount(lines);
  }
}
