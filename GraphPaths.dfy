/**
 * The path bookkeeping of models/GraphNavigation: the depth of a path (the
 * number of concepts it really visits), the clean-up of a finished path,
 * the choice of the shallowest path and its rendering as a justification.
 *
 * A path step is the string "node#POS;role" (or "node;role" without a
 * POS); it is modelled as its three fields. This is faithful as long as no
 * field contains ';' or '#', a POS is never empty and has no '_': then
 * `split(";")[1]` is the role, `split("#")[0]` is `StepNode`, a test
 * `contains(";supertype")` is "the role starts with supertype" and
 * `endsWith(";supertype head")` is "the role is supertype head".
 */
module Paths {
  import opened Strings
  import opened Text

  const MaxDepth: nat := 5
  const MaxPathLength: nat := 50

  datatype Step = Step(node: string, pos: Option<string>, role: string)

  /** `step.split("#")[0]`: the node, or the whole "node;role" when there is no POS. */
  function StepNode(step: Step): string {
    if step.pos.Some? then step.node else step.node + ";" + step.role
  }

  /** The role after step i, as the loop of `getPathDepth` holds it. */
  function NextRole(path: seq<Step>, i: nat): (r: string)
    requires i < |path|
    ensures |path| == 1 ==> r == ""
    ensures |path| > 1 ==> exists j :: i <= j < |path| && 0 < j && r == path[j].role
  {
    if i + 1 < |path| then path[i + 1].role else if i > 0 then path[i].role else ""
  }

  /** The role before step i; the first step counts as following a source. */
  function PrevRole(path: seq<Step>, i: nat): string
    requires i < |path|
  {
    if i == 0 then "source" else path[i - 1].role
  }

  /** Whether step i adds to the depth. */
  predicate Counted(path: seq<Step>, i: nat)
    requires i < |path|
    ensures var role := path[i].role;
      Counted(path, i) ==> role != "source" && !StartsWith(role, "head") && !StartsWith(role, "synonym")
    ensures var role := path[i].role;
      (role != "source" && role != "supertype head" && !StartsWith(role, "head") && !StartsWith(role, "synonym")
       && !StartsWith(role, "supertype")) ==> Counted(path, i)
  {
    var role := path[i].role;
    var next := NextRole(path, i);
    role != "source" && role != "supertype head" && !StartsWith(role, "head") && !StartsWith(role, "synonym")
    && (!StartsWith(role, "supertype")
        || (StartsWith(role, "supertype") && StartsWith(next, "supertype") && !StartsWith(next, "head") && next != "supertype head")
        || ((StartsWith(next, "head") || next == "supertype head") && PrevRole(path, i) == "source"))
  }

  /** The number of counted steps among the first n. */
  function CountedPrefix(path: seq<Step>, n: nat): (r: nat)
    requires n <= |path|
    ensures r <= n
  {
    if n == 0 then 0 else CountedPrefix(path, n - 1) + (if Counted(path, n - 1) then 1 else 0)
  }

  /** The depth of a path: MaxDepth + 1 for a path over 50 steps (a likely loop), else its counted steps. */
  function Depth(path: seq<Step>): (d: nat)
    ensures |path| > MaxPathLength ==> d == MaxDepth + 1
    ensures |path| <= MaxPathLength ==> d <= |path|
  {
    if |path| > MaxPathLength then MaxDepth + 1 else CountedPrefix(path, |path|)
  }

  /** Roles that never add to the depth. */
  predicate Uncounted(role: string) {
    role == "source" || role == "supertype head" || StartsWith(role, "head") || StartsWith(role, "synonym")
  }

  /** A path of at most 50 steps made only of source, head, supertype-head and synonym steps has depth 0. */
  lemma {:induction false} UncountedPrefix(path: seq<Step>, n: nat)
    requires n <= |path|
    requires forall i :: 0 <= i < n ==> Uncounted(path[i].role)
    ensures CountedPrefix(path, n) == 0
  {
    if n > 0 {
      UncountedPrefix(path, n - 1);
    }
  }

  lemma UncountedDepth(path: seq<Step>)
    requires |path| <= MaxPathLength
    requires forall i :: 0 <= i < |path| ==> Uncounted(path[i].role)
    ensures Depth(path) == 0
  {
    UncountedPrefix(path, |path|);
  }

  /** `getPathDepth`. */
  method PathDepth(path: seq<Step>) returns (depth: nat)
    ensures depth == Depth(path)
  {
    depth := 0;
    if |path| > MaxPathLength {
      depth := MaxDepth + 1;
    } else {
      var nextNodeRole := "";
      var previousNodeRole := "source";
      var i := 0;
      while i < |path|
        invariant 0 <= i <= |path|
        invariant depth == CountedPrefix(path, i)
        invariant i < |path| ==> nextNodeRole == (if i == 0 then "" else path[i].role)
        invariant i < |path| ==> previousNodeRole == PrevRole(path, i)
      {
        var nodeRole := path[i].role;
        if i + 1 < |path| {
          nextNodeRole := path[i + 1].role;
        }
        assert nextNodeRole == NextRole(path, i);
        if nodeRole != "source" && nodeRole != "supertype head" && !StartsWith(nodeRole, "head")
          && !StartsWith(nodeRole, "synonym") && (!StartsWith(nodeRole, "supertype")
            || (StartsWith(nodeRole, "supertype") && StartsWith(nextNodeRole, "supertype")
                && !StartsWith(nextNodeRole, "head") && nextNodeRole != "supertype head")
            || ((StartsWith(nextNodeRole, "head") || nextNodeRole == "supertype head")
                && previousNodeRole == "source"))
        {
          depth := depth + 1;
        }
        previousNodeRole := nodeRole;
        i := i + 1;
      }
    }
  }

  /** Whether `cleanPath` copies the middle step i, given the last step it kept. */
  predicate KeepStep(path: seq<Step>, i: nat, lastKept: Step)
    requires 2 <= i < |path| - 1
  {
    var step := path[i];
    var supertypeOfItself := step.role == "supertype of " + StepNode(step);
    step != path[i - 1] && step != lastKept
    && (!supertypeOfItself || (supertypeOfItself && !StartsWith(path[i + 1].role, "supertype")))
    && path[i - 1] != path[i + 1]
  }

  /** Steps 0 and 1, then the middle steps 2 .. n-1 that `cleanPath` keeps. */
  function CleanedUpTo(path: seq<Step>, n: nat): (r: seq<Step>)
    requires 2 <= |path| && 2 <= n && (n == 2 || n < |path|)
    ensures 2 <= |r| <= n
    ensures r[0] == path[0] && r[1] == path[1]
    ensures forall k :: 2 <= k < |r| ==> r[k] != r[k - 1]
    ensures forall s :: s in r ==> s in path[..n]
  {
    if n == 2 then path[..2]
    else
      var prev := CleanedUpTo(path, n - 1);
      if KeepStep(path, n - 1, prev[|prev| - 1]) then prev + [path[n - 1]] else prev
  }

  /** The path `cleanPath` returns. */
  function Clean(path: seq<Step>): (r: seq<Step>)
    requires |path| >= 2
    ensures 3 <= |r|
    ensures r[0] == path[0] && r[1] == path[1] && r[|r| - 1] == path[|path| - 1]
    ensures |path| >= 3 ==> |r| <= |path|
    ensures |path| == 2 ==> |r| == 3
  {
    CleanedUpTo(path, if |path| > 3 then |path| - 1 else 2) + [path[|path| - 1]]
  }

  /** A two-step path comes back with its last step twice. */
  lemma CleanTwoSteps(a: Step, b: Step)
    ensures Clean([a, b]) == [a, b, b]
  {
  }

  /** Every step of a cleaned path comes from the path. */
  lemma CleanSteps(path: seq<Step>)
    requires |path| >= 2
    ensures forall s :: s in Clean(path) ==> s in path
  {
    var n := if |path| > 3 then |path| - 1 else 2;
    assert forall s :: s in CleanedUpTo(path, n) ==> s in path[..n];
  }

  /** `cleanPath`: keep the source and its supertype, the middle steps that are not repetitions, and the end. */
  method CleanPath(path: seq<Step>) returns (newPath: seq<Step>)
    requires |path| >= 2
    ensures newPath == Clean(path)
  {
    newPath := [path[0], path[1]];
    assert newPath == path[..2];
    var i := 2;
    while i < |path| - 1
      invariant 2 <= i
      invariant i == 2 || i <= |path| - 1
      invariant newPath == CleanedUpTo(path, i)
    {
      var step := path[i];
      var stepNode := StepNode(step);
      var role := step.role;
      var previousStep := path[i - 1];
      var nextStep := path[i + 1];
      var previousNewStep := newPath[|newPath| - 1];
      if step != previousStep && step != previousNewStep
        && (role != "supertype of " + stepNode
            || (role == "supertype of " + stepNode && !StartsWith(nextStep.role, "supertype")))
        && previousStep != nextStep
      {
        newPath := newPath + [step];
      }
      i := i + 1;
    }
    newPath := newPath + [path[|path| - 1]];
  }

  /** The index `getShortestPath` picks: the first path of least depth. */
  function ShortestIndex(paths: seq<seq<Step>>): (m: nat)
    requires |paths| > 0
    ensures m < |paths|
    ensures forall k :: 0 <= k < |paths| ==> Depth(paths[m]) <= Depth(paths[k])
    ensures forall k :: 0 <= k < m ==> Depth(paths[k]) > Depth(paths[m])
  {
    if |paths| == 1 then 0
    else
      var m := ShortestIndex(paths[..|paths| - 1]);
      assert forall k :: 0 <= k < |paths| - 1 ==> paths[..|paths| - 1][k] == paths[k];
      if Depth(paths[|paths| - 1]) < Depth(paths[m]) then |paths| - 1 else m
  }

  /** `getShortestPath`: the current best is replaced only by a strictly shallower path. */
  /** Extending the list by one path moves the shortest index there only if that path is strictly shorter. */
  lemma ShortestIndexNext(paths: seq<seq<Step>>, i: nat)
    requires 0 < i < |paths|
    ensures var m := ShortestIndex(paths[..i]);
      ShortestIndex(paths[..i + 1]) == if Depth(paths[i]) < Depth(paths[m]) then i else m
  {
    assert paths[..i + 1][..i] == paths[..i];
  }

  method GetShortestPath(paths: seq<seq<Step>>) returns (shortestPath: seq<Step>)
    requires |paths| > 0
    ensures shortestPath == paths[ShortestIndex(paths)]
  {
    shortestPath := paths[0];
    var shortestDepth := PathDepth(paths[0]);
    ghost var m := 0;
    var i := 0;
    while i < |paths|
      invariant 0 <= i <= |paths|
      invariant m == if i == 0 then 0 else ShortestIndex(paths[..i])
      invariant shortestPath == paths[m] && shortestDepth == Depth(paths[m])
    {
      var depth := PathDepth(paths[i]);
      if i > 0 {
        ShortestIndexNext(paths, i);
      }
      if depth < shortestDepth {
        shortestPath := paths[i];
        shortestDepth := depth;
        m := i;
      }
      i := i + 1;
    }
    assert paths[..i] == paths;
  }

  /** The text rendered so far and the concept the next sentence is about. */
  datatype Rendering = Rendering(text: string, current: string)

  /** The node of a step with '_' written as a blank. */
  function Plain(step: Step): string {
    ReplaceChar(step.node, '_', ' ')
  }

  /** The POS of a step, "" when it has none. */
  function PosOf(step: Step): string {
    if step.pos.Some? then step.pos.value else ""
  }

  /** Strip a leading "to ", then "a ", then "an ", then "the ", each only when present. */
  function StripArticles(node: string): (r: string)
    ensures |r| <= |node|
    ensures !StartsWith(node, "to ") && !StartsWith(node, "a ") && !StartsWith(node, "an ") && !StartsWith(node, "the ") ==> r == node
  {
    var n1 := if StartsWith(node, "to ") then node[3..] else node;
    var n2 := if StartsWith(n1, "a ") then n1[2..] else n1;
    var n3 := if StartsWith(n2, "an ") then n2[3..] else n2;
    if StartsWith(n3, "the ") then n3[4..] else n3
  }

  /** `s.replace(pat, "")`: every occurrence removed, scanning left to right. */
  function RemoveAll(s: string, pat: string): (r: string)
    requires pat != []
    ensures |r| <= |s|
  {
    if s == [] then []
    else if StartsWith(s, pat) then RemoveAll(s[|pat|..], pat)
    else [s[0]] + RemoveAll(s[1..], pat)
  }

  /** "To X is " for a verb, "A X is " or "An X is " for anything else. */
  function Subject(current: string, verb: bool): string
    requires current != []
  {
    if verb then "To " + current + " is " else (if IsVowel(current[0]) then "An " else "A ") + current + " is "
  }

  /** How a supertype sentence ends: "a way of (to) Y" for verbs, "a kind of Y" otherwise. */
  function Relation(n: string, verb: bool): string {
    if verb then "a way of " + (if EndsWith(n, "ing") then "" else "to ") + n + "\n" else "a kind of " + n + "\n"
  }

  /**
   * What `writeJustification` adds for step i (never the last) and the
   * concept it moves on to. Reading the first character of an empty
   * concept throws; that is the error.
   */
  function RenderStep(path: seq<Step>, i: nat, current: string): (r: Result<Rendering>)
    requires i + 1 < |path|
    ensures r.Err? ==> r == Err(IndexOutOfBounds) && (current == [] || Plain(path[i]) == [])
  {
    var step := path[i];
    var next := path[i + 1];
    var node := Plain(step);
    var role := step.role;
    var verb := StartsWith(PosOf(step), "VB");
    if (Contains(role, "supertype") && next.role != "supertype head") || role == "supertype head" then
      if current == [] then Err(IndexOutOfBounds)
      else if StartsWith(next.role, "supertype") || StartsWith(next.role, "synonym") || StartsWith(next.role, "target") then
        var n := StripArticles(node);
        Ok(Rendering(Subject(current, verb) + Relation(n, verb), n))
      else if node == [] then Err(IndexOutOfBounds)
      else
        var complement := if verb then "to " + node + " " else (if IsVowel(node[0]) then "an " else "a ") + node + " ";
        Ok(Rendering(Subject(current, verb) + complement, node))
    else if Contains(role, "synonym") then
      var line := if verb then "To " + node + " is synonym of to " + RemoveAll(role, "synonym of ") + "\n"
                  else Capitalize(node) + " is " + role + "\n";
      Ok(Rendering(line, node))
    else if role != "source" && role != "head" && role != "target" && !Contains(role, "supertype") then
      Ok(Rendering(node + "\n", current))
    else if role == "head" then
      Ok(Rendering("", node))
    else
      Ok(Rendering("", current))
  }

  /** A head step prints nothing; it only makes its node the current concept. */
  lemma HeadStepSilent(path: seq<Step>, i: nat, current: string)
    requires i + 1 < |path| && path[i].role == "head"
    ensures RenderStep(path, i, current) == Ok(Rendering("", Plain(path[i])))
  {
    NotContainsLonger("head", "supertype");
    NotContainsLonger("head", "synonym");
  }

  /** A supertype step followed by a supertype, synonym or target step is a "kind of" or "way of" sentence about the current concept. */
  lemma SupertypeSentence(path: seq<Step>, i: nat, current: string)
    requires i + 1 < |path| && current != []
    requires Contains(path[i].role, "supertype") && path[i + 1].role != "supertype head"
    requires StartsWith(path[i + 1].role, "supertype") || StartsWith(path[i + 1].role, "synonym") || StartsWith(path[i + 1].role, "target")
    ensures var y := StripArticles(Plain(path[i]));
      RenderStep(path, i, current) == Ok(Rendering(Subject(current, StartsWith(PosOf(path[i]), "VB")) + Relation(y, StartsWith(PosOf(path[i]), "VB")), y))
  {
  }

  /** A noun supertype step is the sentence "A(n) X is a kind of Y". */
  lemma KindOfSentence(current: string, y: string)
    requires current != []
    ensures Subject(current, false) + Relation(y, false) == (if IsVowel(current[0]) then "An " else "A ") + current + " is a kind of " + y + "\n"
  {
    assert " is " + "a kind of " == " is a kind of ";
  }

  /** A verb supertype step is the sentence "To X is a way of (to) Y"; a gerund Y takes no "to". */
  lemma WayOfSentence(current: string, y: string)
    requires current != []
    ensures Subject(current, true) + Relation(y, true) == "To " + current + " is a way of " + (if EndsWith(y, "ing") then "" else "to ") + y + "\n"
  {
    assert " is " + "a way of " == " is a way of ";
  }


  /** The rendering of steps 0 .. n-1, starting from the first step's node. */
  function RenderPrefix(path: seq<Step>, n: nat): Result<Rendering>
    requires 0 < |path| && n < |path|
  {
    if n == 0 then Ok(Rendering("", StepNode(path[0])))
    else
      match RenderPrefix(path, n - 1)
      case Err(e) => Err(e)
      case Ok(sofar) =>
        match RenderStep(path, n - 1, sofar.current)
        case Err(e) => Err(e)
        case Ok(step) => Ok(Rendering(sofar.text + step.text, step.current))
  }

  /** The justification for a path: every step but the last rendered in order. */
  function Justification(path: seq<Step>): (r: Result<string>)
    ensures path == [] ==> r == Err(IndexOutOfBounds)
    ensures |path| == 1 ==> r == Ok("")
  {
    if path == [] then Err(IndexOutOfBounds)
    else
      match RenderPrefix(path, |path| - 1)
      case Err(e) => Err(e)
      case Ok(r) => Ok(r.text)
  }

  /** Step i renders the same in two paths that agree on step i and on the role of step i + 1. */
  lemma RenderStepLocal(p: seq<Step>, q: seq<Step>, i: nat, current: string)
    requires i + 1 < |p| && i + 1 < |q|
    requires p[i] == q[i] && p[i + 1].role == q[i + 1].role
    ensures RenderStep(p, i, current) == RenderStep(q, i, current)
  {
  }

  lemma {:induction false} RenderPrefixAgree(p: seq<Step>, q: seq<Step>, n: nat)
    requires 0 < |p| && n < |p| && n < |q|
    requires forall k :: 0 <= k < n ==> p[k] == q[k]
    requires p[0] == q[0]
    requires n > 0 ==> p[n].role == q[n].role
    ensures RenderPrefix(p, n) == RenderPrefix(q, n)
  {
    if n > 0 {
      RenderPrefixAgree(p, q, n - 1);
      var sofar := RenderPrefix(p, n - 1);
      if sofar.Ok? {
        RenderStepLocal(p, q, n - 1, sofar.value.current);
      }
    }
  }

  /** The last step is never rendered: only its role matters. */
  lemma LastStepNotRendered(path: seq<Step>, s: Step, t: Step)
    requires s.role == t.role
    ensures Justification(path + [s]) == Justification(path + [t])
  {
    var p, q := path + [s], path + [t];
    if path != [] {
      assert forall k :: 0 <= k < |path| ==> p[k] == q[k];
      RenderPrefixAgree(p, q, |path|);
      JustificationAgree(p, q);
    }
  }

  /** Two paths whose steps but the last render alike have the same justification. */
  lemma JustificationAgree(p: seq<Step>, q: seq<Step>)
    requires 0 < |p| == |q| && RenderPrefix(p, |p| - 1) == RenderPrefix(q, |q| - 1)
    ensures Justification(p) == Justification(q)
  {
  }

  /** The justification is the text of the rendered prefix, or its error. */
  lemma JustificationOfPrefix(path: seq<Step>)
    requires 0 < |path|
    ensures RenderPrefix(path, |path| - 1).Ok? ==> Justification(path) == Ok(RenderPrefix(path, |path| - 1).value.text)
    ensures RenderPrefix(path, |path| - 1).Err? ==> Justification(path) == Err(RenderPrefix(path, |path| - 1).error)
  {
  }

  /** One more step of rendering: the step's error, or its text appended and its concept made current. */
  lemma RenderPrefixNext(path: seq<Step>, i: nat, sofar: Rendering)
    requires i + 1 < |path| && RenderPrefix(path, i) == Ok(sofar)
    ensures var r := RenderStep(path, i, sofar.current);
      RenderPrefix(path, i + 1) == if r.Err? then Err(r.error) else Ok(Rendering(sofar.text + r.value.text, r.value.current))
  {
  }

  /** Once rendering fails, it fails with the same error for every longer prefix. */
  lemma {:induction false} ErrorPersists(path: seq<Step>, n: nat, m: nat)
    requires 0 < |path| && n <= m < |path|
    requires RenderPrefix(path, n).Err?
    ensures RenderPrefix(path, m) == RenderPrefix(path, n)
    decreases m - n
  {
    if n < m {
      ErrorPersists(path, n, m - 1);
      var e := RenderPrefix(path, n).error;
      assert RenderPrefix(path, m - 1) == Err(e);
    }
  }

  /** One pass of the loop of `writeJustification`: render step i and append its text. */
  method RenderNext(path: seq<Step>, i: nat, text: string, currentNode: string) returns (r: Result<Rendering>)
    requires i + 1 < |path| && RenderPrefix(path, i) == Ok(Rendering(text, currentNode))
    ensures r == RenderPrefix(path, i + 1)
  {
    var step := RenderStep(path, i, currentNode);
    RenderPrefixNext(path, i, Rendering(text, currentNode));
    if step.Err? {
      return Err(step.error);
    }
    r := Ok(Rendering(text + step.value.text, step.value.current));
  }

  /** `writeJustification`. */
  method WriteJustification(path: seq<Step>) returns (justification: Result<string>)
    ensures justification == Justification(path)
  {
    if path == [] {
      return Err(IndexOutOfBounds);
    }
    var rendered := RenderSteps(path);
    JustificationOfPrefix(path);
    if rendered.Err? {
      return Err(rendered.error);
    }
    justification := Ok(rendered.value.text);
  }

  /** The loop of `writeJustification`: every step but the last rendered in turn; the first failure ends it. */
  method RenderSteps(path: seq<Step>) returns (rendered: Result<Rendering>)
    requires 0 < |path|
    ensures rendered == RenderPrefix(path, |path| - 1)
  {
    var text := "";
    var currentNode := StepNode(path[0]);
    var steps := |path| - 1;
    var i := 0;
    while i < steps
      invariant 0 <= i <= steps
      invariant RenderPrefix(path, i) == Ok(Rendering(text, currentNode))
    {
      var r := RenderNext(path, i, text, currentNode);
      if r.Err? {
        ErrorPersists(path, i + 1, steps);
        return r;
      }
      text := r.value.text;
      currentNode := r.value.current;
      i := i + 1;
    }
    assert i == steps;
    rendered := Ok(Rendering(text, currentNode));
  }
}
