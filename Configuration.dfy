/**
 * The configuration reader (util/Configuration): lines `key = value`, blank
 * lines and `#` comments, read into a parameter map. The file is passed in
 * as its list of lines; a missing file leaves the map empty, which is the
 * same as an empty list of lines.
 */
module Config {
  import opened Strings

  datatype Param = Param(key: string, value: string)

  /** `replaceAll("\\\\", "\\\\\\\\")`: every backslash written twice. */
  function DoubleBackslashes(s: string): (r: string)
    ensures |r| == |s| + Count(s, '\\')
  {
    if s == [] then []
    else (if s[0] == '\\' then "\\\\" else [s[0]]) + DoubleBackslashes(s[1..])
  }

  /** Reads a doubled backslash back as one; the inverse of DoubleBackslashes. */
  function HalveBackslashes(s: string): string {
    if |s| >= 2 && s[0] == '\\' && s[1] == '\\' then "\\" + HalveBackslashes(s[2..])
    else if s == [] then []
    else [s[0]] + HalveBackslashes(s[1..])
  }

  /** No information is lost: the stored value gives back the one in the file. */
  lemma {:induction false} HalveDoubled(s: string)
    ensures HalveBackslashes(DoubleBackslashes(s)) == s
  {
    if s != [] {
      HalveDoubled(s[1..]);
      var d := DoubleBackslashes(s);
      if s[0] == '\\' {
        assert d == "\\\\" + DoubleBackslashes(s[1..]);
        assert d[2..] == DoubleBackslashes(s[1..]);
      } else {
        assert d == [s[0]] + DoubleBackslashes(s[1..]);
        assert d[1..] == DoubleBackslashes(s[1..]);
      }
    }
  }

  /**
   * One line: None for a blank or `#` line, otherwise the text before the
   * first " = " as key and the text up to the next " = " as value; a line
   * without a value raises ArrayIndexOutOfBoundsException.
   */
  function ParseLine(line: string): (r: Result<Option<Param>>)
    ensures r.Err? ==> r.error == IndexOutOfBounds
    ensures r.Ok? && r.value.Some? ==> line != "" && !StartsWith(line, "#")
  {
    if line == "" || StartsWith(line, "#") then Ok(None)
    else
      match SplitAt(line, " = ", 0)
      case Err(e) => Err(e)
      case Ok(key) =>
        match SplitAt(line, " = ", 1)
        case Err(e) => Err(e)
        case Ok(value) => Ok(Some(Param(key, DoubleBackslashes(value))))
  }

  /**
   * What a line reads as: nothing for a blank or comment line, an exception
   * for a line with fewer than two " = " fields, otherwise its first field
   * as key and its second, backslashes doubled, as value.
   */
  lemma ParseLineSpec(line: string)
    ensures var r := ParseLine(line);
      && (r == Ok(None) <==> line == "" || StartsWith(line, "#"))
      && (r.Err? <==> line != "" && !StartsWith(line, "#") && |Split(line, " = ")| < 2)
      && (r.Ok? && r.value.Some? ==>
        r.value.value.key == Split(line, " = ")[0] &&
        HalveBackslashes(r.value.value.value) == Split(line, " = ")[1])
  {
    if line != "" && !StartsWith(line, "#") && |Split(line, " = ")| >= 2 {
      HalveDoubled(Split(line, " = ")[1]);
    }
  }

  /** The read loop over the first lines; the first malformed line ends it with the exception. */
  function Load(params: map<string, string>, lines: seq<string>): (r: Result<map<string, string>>)
    ensures r.Err? ==> r.error == IndexOutOfBounds
    ensures r.Ok? ==> params.Keys <= r.value.Keys
  {
    if lines == [] then Ok(params)
    else
      match Load(params, lines[..|lines| - 1])
      case Err(e) => Err(e)
      case Ok(m) =>
        match ParseLine(lines[|lines| - 1])
        case Err(e) => Err(e)
        case Ok(None) => Ok(m)
        case Ok(Some(p)) => Ok(m[p.key := p.value])
  }

  /** Does line i of the file set `key`? */
  predicate Sets(lines: seq<string>, i: int, key: string)
    requires 0 <= i < |lines|
  {
    var p := ParseLine(lines[i]);
    p.Ok? && p.value.Some? && p.value.value.key == key
  }

  /** Once a line has failed, the whole read fails. */
  lemma {:induction false} LoadFailsOnPrefix(params: map<string, string>, lines: seq<string>, n: nat)
    requires n <= |lines| && Load(params, lines[..n]).Err?
    ensures Load(params, lines).Err?
    decreases |lines| - n
  {
    if n < |lines| {
      assert lines[..n + 1][..n] == lines[..n];
      LoadFailsOnPrefix(params, lines, n + 1);
    } else {
      assert lines[..n] == lines;
    }
  }

  /** A line's effect on the map read so far. */
  function Apply(m: map<string, string>, p: Option<Param>): map<string, string> {
    if p.Some? then m[p.value.key := p.value.value] else m
  }

  /** The last line of a successful read parsed and was applied to what the lines before it gave. */
  lemma LoadStep(params: map<string, string>, lines: seq<string>)
    requires lines != [] && Load(params, lines).Ok?
    ensures var n := |lines| - 1;
      && Load(params, lines[..n]).Ok? && ParseLine(lines[n]).Ok?
      && Load(params, lines).value == Apply(Load(params, lines[..n]).value, ParseLine(lines[n]).value)
  {
  }

  /**
   * A successful read leaves under a key the value of the last line that
   * sets it: a later line overrides an earlier one.
   */
  lemma {:induction false} LoadLastWins(params: map<string, string>, lines: seq<string>, key: string, i: nat, value: string)
    requires Load(params, lines).Ok?
    requires i < |lines| && ParseLine(lines[i]) == Ok(Some(Param(key, value)))
    requires forall j :: i < j < |lines| ==> !Sets(lines, j, key)
    ensures key in Load(params, lines).value
    ensures Load(params, lines).value[key] == value
  {
    var n := |lines| - 1;
    var prefix := lines[..n];
    LoadStep(params, lines);
    var m := Load(params, prefix).value;
    var last := ParseLine(lines[n]).value;
    if i < n {
      assert prefix[i] == lines[i];
      forall j | i < j < n ensures !Sets(prefix, j, key) {
        assert prefix[j] == lines[j];
        assert !Sets(lines, j, key);
      }
      LoadLastWins(params, prefix, key, i, value);
      assert !Sets(lines, n, key);
      ApplyOther(m, last, key);
    } else {
      ApplyThis(m, last, key);
    }
  }

  /** A line that sets the key leaves its value there. */
  lemma ApplyThis(m: map<string, string>, p: Option<Param>, key: string)
    requires p.Some? && p.value.key == key
    ensures key in Apply(m, p) && Apply(m, p)[key] == p.value.value
  {
  }

  /** A line that sets another key leaves this one as it was. */
  lemma ApplyOther(m: map<string, string>, p: Option<Param>, key: string)
    requires key in m && !(p.Some? && p.value.key == key)
    ensures key in Apply(m, p) && Apply(m, p)[key] == m[key]
  {
  }

  /** A key no line sets keeps what it had before the read. */
  lemma {:induction false} LoadUnset(params: map<string, string>, lines: seq<string>, key: string)
    requires Load(params, lines).Ok?
    requires forall i :: 0 <= i < |lines| ==> !Sets(lines, i, key)
    ensures key in Load(params, lines).value <==> key in params
    ensures key in params ==> Load(params, lines).value[key] == params[key]
  {
    if lines != [] {
      var n := |lines| - 1;
      var prefix := lines[..n];
      forall j | 0 <= j < n ensures !Sets(prefix, j, key) {
        assert prefix[j] == lines[j];
        assert !Sets(lines, j, key);
      }
      LoadUnset(params, prefix, key);
      assert !Sets(lines, n, key);
    }
  }

  class Configuration {
    var params: map<string, string>

    constructor ()
      ensures params == map[]
    {
      params := map[];
    }

    /**
     * Reads the lines into `params`. Returns false where Java lets an
     * ArrayIndexOutOfBoundsException escape from the constructor; `params`
     * then holds what the lines before the malformed one put there.
     */
    method Read(lines: seq<string>) returns (ok: bool)
      modifies this
      ensures ok <==> Load(old(params), lines).Ok?
      ensures ok ==> params == Load(old(params), lines).value
    {
      var i := 0;
      while i < |lines|
        invariant 0 <= i <= |lines|
        invariant Load(old(params), lines[..i]) == Ok(params)
      {
        assert lines[..i + 1][..i] == lines[..i];
        var line := lines[i];
        if line != "" && !StartsWith(line, "#") {
          var parts := Split(line, " = ");
          if |parts| < 2 {
            LoadFailsOnPrefix(old(params), lines, i + 1);
            return false;
          }
          var key := parts[0];
          var value := DoubleBackslashes(parts[1]);
          params := params[key := value];
        }
        i := i + 1;
      }
      assert lines[..i] == lines;
      ok := true;
    }
  }
}
