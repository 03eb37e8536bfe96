/**
 * The parts of java.lang.String and java.util.List behaviour that the
 * entailment engine relies on, written out over `seq<char>`: literal
 * `split` (with Java's removal of trailing empty strings), `contains`,
 * `startsWith`, `endsWith`, `indexOf`, `trim`, ASCII case folding and
 * `equalsIgnoreCase`, plus the Option/Result wrappers used for the
 * source's NaN values and uncaught exceptions.
 */
module Strings {

  datatype Option<+T> = None | Some(value: T)

  /** An uncaught Java runtime exception, by kind. */
  datatype Error =
    | IndexOutOfBounds   // ArrayIndexOutOfBoundsException / StringIndexOutOfBoundsException
    | Exit               // System.exit(1)
    | NullPointer        // NullPointerException
    | NumberFormat       // NumberFormatException

  datatype Result<+T> = Ok(value: T) | Err(error: Error)

  function Abs(x: real): (r: real)
    ensures r >= 0.0 && (r == x || r == -x)
  {
    if x < 0.0 then -x else x
  }

  predicate StartsWith(s: string, prefix: string) {
    |prefix| <= |s| && s[..|prefix|] == prefix
  }

  predicate EndsWith(s: string, suffix: string) {
    |suffix| <= |s| && s[|s| - |suffix|..] == suffix
  }

  /** `s.contains(pat)`: pat occurs somewhere in s. */
  predicate Contains(s: string, pat: string)
    decreases |s|
  {
    StartsWith(s, pat) || (|s| > 0 && Contains(s[1..], pat))
  }

  /** A pattern longer than the string never occurs in it. */
  lemma {:induction false} NotContainsLonger(s: string, pat: string)
    requires |s| < |pat|
    ensures !Contains(s, pat)
    decreases |s|
  {
    if |s| > 0 {
      NotContainsLonger(s[1..], pat);
    }
  }

  /** An occurrence at position j is an occurrence. */
  lemma {:induction false} ContainsAt(s: string, pat: string, j: nat)
    requires j + |pat| <= |s| && s[j..j + |pat|] == pat
    ensures Contains(s, pat)
    decreases j
  {
    if j > 0 {
      assert s[1..][j - 1..j - 1 + |pat|] == s[j..j + |pat|];
      ContainsAt(s[1..], pat, j - 1);
    }
  }

  /** `s.indexOf(pat)`: the first position of pat in s, or -1. */
  function IndexOf(s: string, pat: string): (r: int)
    ensures -1 <= r && (r >= 0 ==> r + |pat| <= |s|)
    ensures r >= 0 ==> s[r..r + |pat|] == pat
    ensures r == -1 <==> !Contains(s, pat)
    ensures r >= 0 ==> forall k :: 0 <= k < r ==> !StartsWith(s[k..], pat)
    decreases |s|
  {
    if StartsWith(s, pat) then 0
    else if |s| == 0 then -1
    else
      var k := IndexOf(s[1..], pat);
      if k == -1 then -1
      else
        assert forall j :: 1 <= j < k + 1 ==> s[j..] == s[1..][j - 1..];
        k + 1
  }

  /** Cuts s at every non-overlapping occurrence of sep, left to right. */
  function RawSplit(s: string, sep: string): (r: seq<string>)
    requires |sep| > 0
    ensures |r| >= 1
    decreases |s|
  {
    var i := IndexOf(s, sep);
    if i < 0 then [s]
    else [s[..i]] + RawSplit(s[i + |sep|..], sep)
  }

  function DropTrailingEmpty(parts: seq<string>): (r: seq<string>)
    ensures |r| <= |parts| && r == parts[..|r|]
    ensures r == [] || r[|r| - 1] != ""
  {
    if parts == [] then []
    else if parts[|parts| - 1] == "" then DropTrailingEmpty(parts[..|parts| - 1])
    else parts
  }

  /**
   * `s.split(sep)` for a separator without regex metacharacters: when sep
   * does not occur the result is [s] (so "".split(sep) == [""]); otherwise
   * the pieces between occurrences with trailing empty pieces removed.
   */
  function Split(s: string, sep: string): (r: seq<string>)
    requires |sep| > 0
    ensures !Contains(s, sep) ==> r == [s]
  {
    if !Contains(s, sep) then [s] else DropTrailingEmpty(RawSplit(s, sep))
  }

  /** `s.split(sep)[i]`, failing as Java does when the index is out of range. */
  function SplitAt(s: string, sep: string, i: nat): (r: Result<string>)
    requires |sep| > 0
    ensures r.Ok? <==> i < |Split(s, sep)|
    ensures r.Ok? ==> r.value == Split(s, sep)[i]
  {
    var parts := Split(s, sep);
    if i < |parts| then Ok(parts[i]) else Err(IndexOutOfBounds)
  }

  /** `s.replace(a, b)` for two characters. */
  function ReplaceChar(s: string, a: char, b: char): (r: string)
    ensures |r| == |s|
    ensures forall i :: 0 <= i < |s| ==> r[i] == (if s[i] == a then b else s[i])
  {
    if s == [] then [] else [if s[0] == a then b else s[0]] + ReplaceChar(s[1..], a, b)
  }

  function LowerChar(c: char): char {
    if 'A' <= c <= 'Z' then (c as int + 32) as char else c
  }

  function UpperChar(c: char): char {
    if 'a' <= c <= 'z' then (c as int - 32) as char else c
  }

  /** `toLowerCase()`, restricted to ASCII letters. */
  function ToLower(s: string): (r: string)
    ensures |r| == |s|
    ensures forall i :: 0 <= i < |s| ==> r[i] == LowerChar(s[i])
  {
    if s == [] then [] else [LowerChar(s[0])] + ToLower(s[1..])
  }

  lemma ToLowerAppend(a: string, b: string)
    ensures ToLower(a + b) == ToLower(a) + ToLower(b)
  {
    var l, r := ToLower(a + b), ToLower(a) + ToLower(b);
    forall i | 0 <= i < |l| ensures l[i] == r[i] {
      if i < |a| {
        assert (a + b)[i] == a[i];
      } else {
        assert (a + b)[i] == b[i - |a|];
      }
    }
  }

  predicate EqualsIgnoreCase(a: string, b: string) {
    ToLower(a) == ToLower(b)
  }

  /** The characters `trim()` removes: every code point up to the blank. */
  predicate IsTrimmable(c: char) {
    c <= ' '
  }

  function TrimStart(s: string): (r: string)
    ensures |r| <= |s| && r == s[|s| - |r|..]
    ensures r == [] || !IsTrimmable(r[0])
  {
    if s != [] && IsTrimmable(s[0]) then TrimStart(s[1..]) else s
  }

  function TrimEnd(s: string): (r: string)
    ensures |r| <= |s| && r == s[..|r|]
    ensures r == [] || !IsTrimmable(r[|r| - 1])
  {
    if s != [] && IsTrimmable(s[|s| - 1]) then TrimEnd(s[..|s| - 1]) else s
  }

  function Trim(s: string): string {
    TrimEnd(TrimStart(s))
  }

  /** Concatenation of the words, each followed by one blank (before trimming). */
  function JoinBlank(words: seq<string>): (r: string)
  {
    if words == [] then "" else JoinBlank(words[..|words| - 1]) + words[|words| - 1] + " "
  }

  /** Number of occurrences of c in s (`StringUtils.countMatches`). */
  function Count(s: string, c: char): (r: nat)
    ensures r <= |s|
  {
    if s == [] then 0 else (if s[0] == c then 1 else 0) + Count(s[1..], c)
  }

  lemma {:induction false} CountAppend(a: string, b: string, c: char)
    ensures Count(a + b, c) == Count(a, c) + Count(b, c)
  {
    if a == [] {
      assert a + b == b;
    } else {
      assert (a + b)[1..] == a[1..] + b;
      CountAppend(a[1..], b, c);
    }
  }

  lemma {:induction false} IndexOfNotFound(s: string, pat: string)
    requires !Contains(s, pat)
    ensures forall k :: 0 <= k <= |s| ==> !StartsWith(s[k..], pat)
    decreases |s|
  {
    if |s| > 0 {
      IndexOfNotFound(s[1..], pat);
      assert forall k :: 1 <= k <= |s| ==> s[k..] == s[1..][k - 1..];
    }
  }

  /** c occurs in s exactly when its count is positive. */
  lemma {:induction false} CountPositive(s: string, c: char)
    ensures Count(s, c) > 0 <==> c in s
  {
    if s != [] {
      CountPositive(s[1..], c);
      assert s == [s[0]] + s[1..];
    }
  }
}
