/**
 * The bounded depth-first search of models/GraphNavigation (`findPaths`)
 * and the decision built on it (`computeEntailment`).
 *
 * `findPaths` keeps a stack of partial paths, seeded with the source step.
 * Each round pops the top path and explores from its end through the
 * definition graph (synsets, supertypes, roles, head words); the graph
 * lookups and the similarity ranking are not part of this model, so one
 * round of exploration is an oracle that reports the steps appended to the
 * popped path, whether the target was matched, and the alternative
 * extensions to push, or the exception a round raises (the `get(0)` on an
 * empty list of ranked supertypes or roles, models/GraphNavigation.java
 * lines 496 and 577), which nothing in `findPaths` or `computeEntailment`
 * catches. The skeleton around it is modelled exactly: the terminal step,
 * cleaning, de-duplication, the 100/200 limits and the final removal of
 * dead ends.
 */
module Search {
  import opened Strings
  import opened Lists
  import opened Text
  import opened Decisions
  import opened Paths

  /** Rounds after which the search stops once a target path is recorded. */
  const MaxPaths := 100
  /** Rounds after which the search stops in any case. */
  const SearchLimit := 200

  /** A path to push: the popped path extended by `suffix`; a guarded push is skipped when the stack already holds that path. */
  datatype Push = Push(suffix: seq<Step>, guarded: bool)

  /** What one round of exploring from the end of a popped path does to that path and to the stack. */
  datatype Exploration = Exploration(added: seq<Step>, matched: bool, pushed: seq<Push>)

  /** The local state of `findPaths`: the stack (top last), the recorded paths, the rounds made and whether a target path was recorded. */
  datatype SearchState = SearchState(stack: seq<seq<Step>>, paths: seq<seq<Step>>, tried: nat, reached: bool)

  /** The step `<target>;target`. */
  function TargetStep(target: Token): Step {
    Step(target.word, None, "target")
  }

  /** The dead-end step `null;null`. */
  const NullStep := Step("null", None, "null")

  /** The step a round ends its path with. */
  function Terminal(matched: bool, target: Token): (s: Step)
    ensures s == TargetStep(target) <==> matched
    ensures s == NullStep <==> !matched
  {
    if matched then TargetStep(target) else NullStep
  }

  /** The step `<source>#<VB or NN>;source` every path starts from. */
  function Seed(source: Token): (s: Step)
    ensures s.role == "source" && s.pos.Some?
    ensures s.pos.value == "VB" <==> StartsWith(source.pos, "VB")
  {
    Step(source.word, Some(if StartsWith(source.pos, "VB") then "VB" else "NN"), "source")
  }

  function Last<T>(s: seq<T>): T
    requires s != []
  {
    s[|s| - 1]
  }

  /** The stack after the pushes of one round, made in order on top of `stack`. */
  function PushAll(stack: seq<seq<Step>>, base: seq<Step>, pushes: seq<Push>): (r: seq<seq<Step>>)
    ensures |r| <= |stack| + |pushes|
  {
    if pushes == [] then stack
    else
      var s := PushAll(stack, base, pushes[..|pushes| - 1]);
      var p := base + Last(pushes).suffix;
      if !Last(pushes).guarded || p !in s then s + [p] else s
  }

  /** Every path on the stack starts with the seed. */
  predicate Seeded(stack: seq<seq<Step>>, seed: Step) {
    forall i :: 0 <= i < |stack| ==> |stack[i]| > 0 && stack[i][0] == seed
  }

  /** Each recorded path starts with the seed, has at least three steps, and ends with the target or the dead-end step. */
  predicate WellFormedPath(p: seq<Step>, seed: Step, target: Token) {
    |p| >= 3 && p[0] == seed && (Last(p) == TargetStep(target) || Last(p) == NullStep)
  }

  /** Some recorded path ends with the target step. */
  predicate SomeReaches(paths: seq<seq<Step>>, target: Token) {
    exists i :: 0 <= i < |paths| && |paths[i]| > 0 && Last(paths[i]) == TargetStep(target)
  }

  /** The loop of `findPaths` may make another round from this state, and every popped path has a first step. */
  predicate Pending(seed: Step, st: SearchState) {
    st.tried < SearchLimit && Seeded(st.stack, seed)
  }

  /** What holds at the head of the loop of `findPaths`. */
  predicate Inv(seed: Step, target: Token, st: SearchState) {
    && Pending(seed, st)
    && NoDuplicates(st.paths)
    && (forall i :: 0 <= i < |st.paths| ==> WellFormedPath(st.paths[i], seed, target))
    && (st.reached <==> SomeReaches(st.paths, target))
  }

  /** The state the loop starts from. */
  function Init(source: Token): (st: SearchState)
    ensures st.stack == [[Seed(source)]] && st.paths == [] && st.tried == 0 && !st.reached
  {
    SearchState([[Seed(source)]], [], 0, false)
  }

  /** The path a round records: the popped path, what exploring appended, the terminal step, cleaned. */
  function Finished(current: seq<Step>, e: Exploration, target: Token): seq<Step>
    requires current != []
  {
    Clean(current + e.added + [Terminal(e.matched, target)])
  }

  /** One round with the exploration's outcome `e`: pop, push, record the cleaned path unless already recorded, count the round. */
  function Advance(target: Token, st: SearchState, e: Exploration): (r: SearchState)
    requires st.stack != [] && Last(st.stack) != []
    ensures r.tried == st.tried + 1
    ensures st.paths <= r.paths && |r.paths| <= |st.paths| + 1
    ensures st.reached ==> r.reached
  {
    var current := Last(st.stack);
    var stack := PushAll(st.stack[..|st.stack| - 1], current, e.pushed);
    var recorded := Record(st.paths, st.reached, Finished(current, e, target), target);
    SearchState(stack, recorded.0, st.tried + 1, recorded.1)
  }

  /** The recorded paths and `targetReached` after a round finishing with `finished`: a path already recorded changes nothing. */
  function Record(paths: seq<seq<Step>>, reached: bool, finished: seq<Step>, target: Token): (seq<seq<Step>>, bool)
    requires finished != []
  {
    if finished in paths then (paths, reached)
    else (paths + [finished], reached || Last(finished) == TargetStep(target))
  }

  /** Whether the loop breaks after a round. */
  predicate Stops(st: SearchState) {
    (st.reached && st.tried >= MaxPaths) || st.tried >= SearchLimit
  }

  /**
   * The state the loop of `findPaths` ends in: it runs while the stack is
   * not empty and no limit is hit; the first round whose exploration raises
   * ends it with that exception.
   */
  function Run(explore: (Token, Token, seq<Step>) -> Result<Exploration>, source: Token, target: Token, st: SearchState): (r: Result<SearchState>)
    requires Pending(Seed(source), st)
    ensures r.Ok? ==> st.tried <= r.value.tried && st.paths <= r.value.paths && (st.reached ==> r.value.reached)
    decreases SearchLimit - st.tried
  {
    if st.stack == [] then Ok(st)
    else
      match explore(source, target, Last(st.stack))
      case Err(err) => Err(err)
      case Ok(e) =>
        AdvanceKeepsPending(source, target, st, e);
        var next := Advance(target, st, e);
        if Stops(next) then Ok(next) else Run(explore, source, target, next)
  }

  /** The paths `findPaths` returns: those of the final state not ending with the dead-end step, or the exception of a round. */
  function Found(explore: (Token, Token, seq<Step>) -> Result<Exploration>, source: Token, target: Token): (r: Result<seq<seq<Step>>>)
    ensures r.Err? <==> Run(explore, source, target, Init(source)).Err?
    ensures r.Ok? ==> forall p :: p in r.value <==>
      p in Run(explore, source, target, Init(source)).value.paths && (p == [] || Last(p) != NullStep)
  {
    match Run(explore, source, target, Init(source))
    case Err(err) => Err(err)
    case Ok(fin) => Ok(NonNull(fin.paths))
  }

  /** `paths.removeIf(v -> v.lastElement().equals("null;null"))`. */
  function NonNull(paths: seq<seq<Step>>): (r: seq<seq<Step>>)
    ensures |r| <= |paths|
    ensures forall p :: p in r <==> p in paths && (p == [] || Last(p) != NullStep)
  {
    if paths == [] then []
    else
      var p := Last(paths);
      var keep := p == [] || Last(p) != NullStep;
      NonNull(paths[..|paths| - 1]) + (if keep then [Last(paths)] else [])
  }

  /** Pushing extensions of a seeded path keeps the stack seeded. */
  lemma {:induction false} PushAllSeeded(stack: seq<seq<Step>>, base: seq<Step>, pushes: seq<Push>, seed: Step)
    requires Seeded(stack, seed) && base != [] && base[0] == seed
    ensures Seeded(PushAll(stack, base, pushes), seed)
  {
    if pushes != [] {
      PushAllSeeded(stack, base, pushes[..|pushes| - 1], seed);
    }
  }

  /** A round pops a path with a first step and leaves every path on the stack seeded. */
  lemma AdvanceKeepsPending(source: Token, target: Token, st: SearchState, e: Exploration)
    requires Pending(Seed(source), st) && st.stack != []
    ensures Last(st.stack) != []
    ensures var next := Advance(target, st, e);
      next.tried == st.tried + 1 && (!Stops(next) ==> Pending(Seed(source), next))
  {
    var seed := Seed(source);
    assert |Last(st.stack)| > 0 && Last(st.stack)[0] == seed;
    var current := Last(st.stack);
    PushAllSeeded(st.stack[..|st.stack| - 1], current, e.pushed, seed);
  }

  /** The invariant of the loop head survives a round that does not end the loop, whatever the exploration reports. */
  lemma AdvanceKeepsInvariant(source: Token, target: Token, st: SearchState, e: Exploration)
    requires Inv(Seed(source), target, st) && st.stack != []
    ensures Last(st.stack) != []
    ensures var next := Advance(target, st, e);
      !Stops(next) ==> Inv(Seed(source), target, next)
    ensures var next := Advance(target, st, e);
      && next.tried == st.tried + 1 <= SearchLimit
      && NoDuplicates(next.paths)
      && (forall i :: 0 <= i < |next.paths| ==> WellFormedPath(next.paths[i], Seed(source), target))
      && (next.reached <==> SomeReaches(next.paths, target))
  {
    var seed := Seed(source);
    AdvanceKeepsPending(source, target, st, e);
    var current := Last(st.stack);
    assert current[0] == seed;
    var whole := current + e.added + [Terminal(e.matched, target)];
    assert whole[0] == seed && Last(whole) == Terminal(e.matched, target);
    RecordKeeps(st.paths, st.reached, Finished(current, e, target), seed, target);
  }

  /** Recording a well-formed path keeps the recorded paths distinct and well-formed, and `targetReached` exact. */
  lemma RecordKeeps(paths: seq<seq<Step>>, reached: bool, finished: seq<Step>, seed: Step, target: Token)
    requires NoDuplicates(paths) && (forall i :: 0 <= i < |paths| ==> WellFormedPath(paths[i], seed, target))
    requires reached <==> SomeReaches(paths, target)
    requires WellFormedPath(finished, seed, target)
    ensures var r := Record(paths, reached, finished, target);
      && NoDuplicates(r.0)
      && (forall i :: 0 <= i < |r.0| ==> WellFormedPath(r.0[i], seed, target))
      && (r.1 <==> SomeReaches(r.0, target))
  {
    if finished !in paths {
      var paths' := paths + [finished];
      assert paths'[|paths|] == finished;
      assert forall i :: 0 <= i < |paths| ==> paths'[i] == paths[i];
      if Last(finished) == TargetStep(target) {
        assert SomeReaches(paths', target);
      } else {
        assert SomeReaches(paths', target) ==> SomeReaches(paths, target);
      }
    }
  }

  /** The loop of `findPaths`, when no round raises, makes between one and 200 rounds, and stops only on an empty stack or a limit. */
  lemma {:induction false} RunBounds(explore: (Token, Token, seq<Step>) -> Result<Exploration>, source: Token, target: Token, st: SearchState)
    requires Inv(Seed(source), target, st)
    ensures var fin := Run(explore, source, target, st);
      fin.Ok? ==>
      && st.tried <= fin.value.tried <= SearchLimit
      && (fin.value.stack == [] || Stops(fin.value))
      && (st.stack != [] ==> fin.value.tried > st.tried)
    decreases SearchLimit - st.tried
  {
    if st.stack != [] {
      var r := explore(source, target, Last(st.stack));
      if r.Ok? {
        AdvanceKeepsInvariant(source, target, st, r.value);
        var next := Advance(target, st, r.value);
        if !Stops(next) {
          RunBounds(explore, source, target, next);
        }
      }
    }
  }

  /** The loop fails only through a round whose exploration raises: with an exploration that never raises it always ends normally. */
  lemma {:induction false} RunTotal(explore: (Token, Token, seq<Step>) -> Result<Exploration>, source: Token, target: Token, st: SearchState)
    requires Inv(Seed(source), target, st)
    requires forall p :: explore(source, target, p).Ok?
    ensures Run(explore, source, target, st).Ok?
    decreases SearchLimit - st.tried
  {
    if st.stack != [] {
      var e := explore(source, target, Last(st.stack)).value;
      AdvanceKeepsInvariant(source, target, st, e);
      var next := Advance(target, st, e);
      if !Stops(next) {
        RunTotal(explore, source, target, next);
      }
    }
  }

  /** An exception in the first round, exploring from the seed, is the outcome of the whole search. */
  lemma FirstRoundRaises(explore: (Token, Token, seq<Step>) -> Result<Exploration>, source: Token, target: Token)
    requires explore(source, target, [Seed(source)]).Err?
    ensures Found(explore, source, target) == Err(explore(source, target, [Seed(source)]).error)
  {
  }

  /** What the loop leaves: distinct recorded paths, each from the seed to the target or a dead end, and `targetReached` exactly when one reaches the target. */
  lemma {:induction false} RunKeepsPaths(explore: (Token, Token, seq<Step>) -> Result<Exploration>, source: Token, target: Token, st: SearchState)
    requires Inv(Seed(source), target, st)
    ensures var fin := Run(explore, source, target, st);
      fin.Ok? ==>
      && NoDuplicates(fin.value.paths)
      && (forall i :: 0 <= i < |fin.value.paths| ==> WellFormedPath(fin.value.paths[i], Seed(source), target))
      && (fin.value.reached <==> SomeReaches(fin.value.paths, target))
    decreases SearchLimit - st.tried
  {
    if st.stack != [] {
      var r := explore(source, target, Last(st.stack));
      if r.Ok? {
        AdvanceKeepsInvariant(source, target, st, r.value);
        var next := Advance(target, st, r.value);
        if !Stops(next) {
          RunKeepsPaths(explore, source, target, next);
        }
      }
    }
  }

  /**
   * The paths `findPaths` returns are pairwise distinct, each starts with
   * the seed and ends with the target step, and there is one exactly when
   * the search recorded a target path; it fails only with the exception of
   * a round.
   */
  lemma FoundPaths(explore: (Token, Token, seq<Step>) -> Result<Exploration>, source: Token, target: Token)
    ensures Found(explore, source, target).Err? <==> Run(explore, source, target, Init(source)).Err?
    ensures var found := Found(explore, source, target);
      found.Ok? ==>
      && NoDuplicates(found.value)
      && (forall p :: p in found.value ==> |p| >= 3 && p[0] == Seed(source) && Last(p) == TargetStep(target))
      && (found.value != [] <==> Run(explore, source, target, Init(source)).value.reached)
  {
    var fin := Run(explore, source, target, Init(source));
    RunKeepsPaths(explore, source, target, Init(source));
    if fin.Ok? {
      NonNullDistinct(fin.value.paths);
      NonNullReach(fin.value.paths, Seed(source), target);
    }
  }

  /** Of well-formed paths, those left after dropping dead ends all reach the target, and some are left iff one reached it. */
  lemma NonNullReach(paths: seq<seq<Step>>, seed: Step, target: Token)
    requires forall i :: 0 <= i < |paths| ==> WellFormedPath(paths[i], seed, target)
    ensures forall p :: p in NonNull(paths) ==> |p| >= 3 && p[0] == seed && Last(p) == TargetStep(target)
    ensures NonNull(paths) != [] <==> SomeReaches(paths, target)
  {
    var found := NonNull(paths);
    forall p | p in found ensures |p| >= 3 && p[0] == seed && Last(p) == TargetStep(target) {
      var i :| 0 <= i < |paths| && paths[i] == p;
      assert WellFormedPath(paths[i], seed, target);
    }
    if SomeReaches(paths, target) {
      var i :| 0 <= i < |paths| && |paths[i]| > 0 && Last(paths[i]) == TargetStep(target);
      assert paths[i] in found;
    }
    if found != [] {
      assert found[0] in found;
      var i :| 0 <= i < |paths| && paths[i] == found[0];
    }
  }

  /** Dropping dead ends keeps distinct paths distinct. */
  lemma {:induction false} NonNullDistinct(paths: seq<seq<Step>>)
    requires NoDuplicates(paths)
    ensures NoDuplicates(NonNull(paths))
  {
    if paths != [] {
      var init := paths[..|paths| - 1];
      NonNullDistinct(init);
      assert Last(paths) !in init;
    }
  }

  /** The pushes of one round, as `findPaths` makes them: a guarded push is skipped when the stack already holds the path. */
  method PushPaths(stack: seq<seq<Step>>, base: seq<Step>, pushes: seq<Push>) returns (r: seq<seq<Step>>)
    ensures r == PushAll(stack, base, pushes)
  {
    r := stack;
    var i := 0;
    while i < |pushes|
      invariant 0 <= i <= |pushes|
      invariant r == PushAll(stack, base, pushes[..i])
    {
      assert pushes[..i + 1][..i] == pushes[..i];
      var p := base + pushes[i].suffix;
      if !pushes[i].guarded || p !in r {
        r := r + [p];
      }
      i := i + 1;
    }
    assert pushes[..i] == pushes;
  }

  /** One round of the loop of `findPaths`: the exploration's exception, or the state after the round. */
  method Round(explore: (Token, Token, seq<Step>) -> Result<Exploration>, source: Token, target: Token, st: SearchState) returns (next: Result<SearchState>)
    requires Inv(Seed(source), target, st) && st.stack != []
    ensures Last(st.stack) != []
    ensures explore(source, target, Last(st.stack)).Err? ==> next == Err(explore(source, target, Last(st.stack)).error)
    ensures explore(source, target, Last(st.stack)).Ok? ==> next == Ok(Advance(target, st, explore(source, target, Last(st.stack)).value))
  {
    var subpaths := st.stack;
    var currentPath := subpaths[|subpaths| - 1];
    var explored := explore(source, target, currentPath);
    if explored.Err? {
      return Err(explored.error);
    }
    var e := explored.value;
    AdvanceKeepsInvariant(source, target, st, e);
    subpaths := subpaths[..|subpaths| - 1];
    subpaths := PushPaths(subpaths, currentPath, e.pushed);
    var finished := CleanPath(currentPath + e.added + [if e.matched then TargetStep(target) else NullStep]);
    assert finished == Finished(currentPath, e, target);
    var paths := st.paths;
    var targetReached := st.reached;
    if finished !in paths {
      paths := paths + [finished];
      if finished[|finished| - 1] == TargetStep(target) {
        targetReached := true;
      }
    }
    next := Ok(SearchState(subpaths, paths, st.tried + 1, targetReached));
  }

  /** `findPaths`: the loop of rounds, then the dead ends dropped; an exception of a round escapes. */
  method FindPaths(explore: (Token, Token, seq<Step>) -> Result<Exploration>, source: Token, target: Token) returns (paths: Result<seq<seq<Step>>>)
    ensures paths == Found(explore, source, target)
  {
    var st := Init(source);
    ghost var fin := Run(explore, source, target, st);
    while st.stack != []
      invariant Inv(Seed(source), target, st)
      invariant Run(explore, source, target, st) == fin
      decreases SearchLimit - st.tried
    {
      var next := Round(explore, source, target, st);
      if next.Err? {
        return Err(next.error);
      }
      AdvanceKeepsInvariant(source, target, st, explore(source, target, Last(st.stack)).value);
      st := next.value;
      if Stops(st) {
        break;
      }
    }
    var kept := DropDeadEnds(st.paths);
    paths := Ok(kept);
  }

  /** The `removeIf` that ends `findPaths`. */
  method DropDeadEnds(paths: seq<seq<Step>>) returns (r: seq<seq<Step>>)
    ensures r == NonNull(paths)
  {
    r := [];
    var i := 0;
    while i < |paths|
      invariant 0 <= i <= |paths|
      invariant r == NonNull(paths[..i])
    {
      assert paths[..i + 1][..i] == paths[..i];
      if paths[i] == [] || paths[i][|paths[i]| - 1] != NullStep {
        r := r + [paths[i]];
      }
      i := i + 1;
    }
    assert paths[..i] == paths;
  }

  /** Each pair's paths, as `findPaths` gives them. */
  function Finder(explore: (Token, Token, seq<Step>) -> Result<Exploration>): (Token, Token) -> Result<seq<seq<Step>>> {
    (source: Token, target: Token) => Found(explore, source, target)
  }

  /** The paths `find` gives for all candidate pairs, pair by pair; the first pair whose search raises ends the loop. */
  function Collected(find: (Token, Token) -> Result<seq<seq<Step>>>, pairs: seq<(Token, Token)>): Result<seq<seq<Step>>> {
    if pairs == [] then Ok([])
    else
      match Collected(find, pairs[..|pairs| - 1])
      case Err(err) => Err(err)
      case Ok(earlier) =>
        match find(Last(pairs).0, Last(pairs).1)
        case Err(err) => Err(err)
        case Ok(found) => Ok(earlier + found)
  }

  /** The paths found for all candidate pairs. */
  function AllPaths(explore: (Token, Token, seq<Step>) -> Result<Exploration>, pairs: seq<(Token, Token)>): Result<seq<seq<Step>>> {
    Collected(Finder(explore), pairs)
  }

  /**
   * The decision `computeEntailment` returns: "yes" justified by the first
   * shortest path when any pair yielded a path, "no" with "null" otherwise;
   * always labelled graph navigation. Rendering the justification can fail.
   */
  function GraphDecision(explore: (Token, Token, seq<Step>) -> Result<Exploration>, pairs: seq<(Token, Token)>): (r: Result<Decision>)
    ensures AllPaths(explore, pairs).Err? ==> r == Err(AllPaths(explore, pairs).error)
    ensures AllPaths(explore, pairs) == Ok([]) ==> r == Ok(Decided("no", "null", "GraphNavigation"))
    ensures r.Ok? ==> r.value.model == Some("GraphNavigation")
  {
    match AllPaths(explore, pairs)
    case Err(e) => Err(e)
    case Ok(paths) =>
      if paths == [] then Ok(Decided("no", "null", "GraphNavigation"))
      else
        match Justification(paths[ShortestIndex(paths)])
        case Err(e) => Err(e)
        case Ok(j) => Ok(Decided("yes", j, "GraphNavigation"))
  }

  /** Every collected path belongs to one pair. */
  lemma {:induction false} CollectedFrom(find: (Token, Token) -> Result<seq<seq<Step>>>, pairs: seq<(Token, Token)>, p: seq<Step>)
    requires Collected(find, pairs).Ok? && p in Collected(find, pairs).value
    ensures exists k :: 0 <= k < |pairs| && find(pairs[k].0, pairs[k].1).Ok? && p in find(pairs[k].0, pairs[k].1).value
  {
    var init := pairs[..|pairs| - 1];
    if p in Collected(find, init).value {
      CollectedFrom(find, init, p);
      var k :| 0 <= k < |init| && find(init[k].0, init[k].1).Ok? && p in find(init[k].0, init[k].1).value;
      assert pairs[k] == init[k];
    } else {
      assert p in find(pairs[|pairs| - 1].0, pairs[|pairs| - 1].1).value;
    }
  }

  /**
   * Collecting succeeds exactly when every pair's search does; otherwise it
   * fails with the exception of the first pair whose search raises.
   */
  lemma {:induction false} CollectedFails(find: (Token, Token) -> Result<seq<seq<Step>>>, pairs: seq<(Token, Token)>)
    ensures Collected(find, pairs).Ok? <==> forall k :: 0 <= k < |pairs| ==> find(pairs[k].0, pairs[k].1).Ok?
    ensures Collected(find, pairs).Err? ==>
      exists k :: 0 <= k < |pairs| && find(pairs[k].0, pairs[k].1) == Err(Collected(find, pairs).error)
        && forall j :: 0 <= j < k ==> find(pairs[j].0, pairs[j].1).Ok?
  {
    if pairs != [] {
      var init := pairs[..|pairs| - 1];
      CollectedFails(find, init);
      assert forall k :: 0 <= k < |init| ==> init[k] == pairs[k];
      if Collected(find, init).Err? {
        var k :| 0 <= k < |init| && find(init[k].0, init[k].1) == Err(Collected(find, init).error)
          && forall j :: 0 <= j < k ==> find(init[j].0, init[j].1).Ok?;
        assert find(pairs[k].0, pairs[k].1) == Err(Collected(find, pairs).error);
      } else if Collected(find, pairs).Err? {
        assert find(pairs[|pairs| - 1].0, pairs[|pairs| - 1].1) == Err(Collected(find, pairs).error);
      }
    }
  }

  /** Once the pairs up to `i` have failed, the later pairs are never searched. */
  lemma {:induction false} CollectedStops(find: (Token, Token) -> Result<seq<seq<Step>>>, pairs: seq<(Token, Token)>, i: nat)
    requires i <= |pairs| && Collected(find, pairs[..i]).Err?
    ensures Collected(find, pairs) == Collected(find, pairs[..i])
    decreases |pairs|
  {
    if i < |pairs| {
      var init := pairs[..|pairs| - 1];
      assert init[..i] == pairs[..i];
      CollectedStops(find, init, i);
    } else {
      assert pairs[..i] == pairs;
    }
  }

  /** Nothing is collected exactly when no pair gives a path. */
  lemma {:induction false} CollectedEmpty(find: (Token, Token) -> Result<seq<seq<Step>>>, pairs: seq<(Token, Token)>)
    ensures Collected(find, pairs) == Ok([]) <==> forall k :: 0 <= k < |pairs| ==> find(pairs[k].0, pairs[k].1) == Ok([])
  {
    if pairs != [] {
      var init := pairs[..|pairs| - 1];
      CollectedEmpty(find, init);
      assert forall k :: 0 <= k < |init| ==> init[k] == pairs[k];
      var last := find(pairs[|pairs| - 1].0, pairs[|pairs| - 1].1);
      if Collected(find, pairs) == Ok([]) {
        assert |Collected(find, init).value + last.value| == 0;
      }
    }
  }

  /**
   * The model is always graph navigation; the answer is "yes" exactly when
   * some pair's search found a path (by FoundPaths, one from that pair's
   * source to its target), and "no" with "null" otherwise; the justifying
   * path is one of those found. The search of a pair that raises makes the
   * whole computation raise, and an answer means every search ended.
   */
  lemma GraphDecisionMeaning(explore: (Token, Token, seq<Step>) -> Result<Exploration>, pairs: seq<(Token, Token)>)
    ensures var d := GraphDecision(explore, pairs);
      d.Ok? ==> d.value.model == Some("GraphNavigation") && d.value.decision.Some? && d.value.justification.Some?
    ensures var d := GraphDecision(explore, pairs);
      d.Ok? ==> forall k :: 0 <= k < |pairs| ==> Found(explore, pairs[k].0, pairs[k].1).Ok?
    ensures (exists k :: 0 <= k < |pairs| && Found(explore, pairs[k].0, pairs[k].1).Err?) ==>
      GraphDecision(explore, pairs).Err?
    ensures var d := GraphDecision(explore, pairs);
      d.Ok? ==> (d.value.decision == Some("yes") <==> exists k :: 0 <= k < |pairs| && Found(explore, pairs[k].0, pairs[k].1) != Ok([]))
    ensures var d := GraphDecision(explore, pairs);
      d.Ok? && d.value.decision != Some("yes") ==> d.value == Decided("no", "null", "GraphNavigation")
    ensures var paths := AllPaths(explore, pairs);
      paths.Ok? && paths.value != [] ==>
        exists k :: 0 <= k < |pairs| && Found(explore, pairs[k].0, pairs[k].1).Ok?
          && paths.value[ShortestIndex(paths.value)] in Found(explore, pairs[k].0, pairs[k].1).value
  {
    CollectedEmpty(Finder(explore), pairs);
    CollectedFails(Finder(explore), pairs);
    var paths := AllPaths(explore, pairs);
    if paths.Ok? && paths.value != [] {
      CollectedFrom(Finder(explore), pairs, paths.value[ShortestIndex(paths.value)]);
    }
  }

  /** `computeEntailment`: every pair searched in order, the first exception escaping, then the decision on the paths. */
  method ComputeEntailment(explore: (Token, Token, seq<Step>) -> Result<Exploration>, pairs: seq<(Token, Token)>) returns (decision: Result<Decision>)
    ensures decision == GraphDecision(explore, pairs)
  {
    var paths: seq<seq<Step>> := [];
    var i := 0;
    while i < |pairs|
      invariant 0 <= i <= |pairs|
      invariant Collected(Finder(explore), pairs[..i]) == Ok(paths)
    {
      assert pairs[..i + 1][..i] == pairs[..i];
      var found := FindPaths(explore, pairs[i].0, pairs[i].1);
      if found.Err? {
        CollectedStops(Finder(explore), pairs, i + 1);
        return Err(found.error);
      }
      paths := paths + found.value;
      i := i + 1;
    }
    assert pairs[..i] == pairs;
    if paths != [] {
      var bestPath := GetShortestPath(paths);
      var justification := WriteJustification(bestPath);
      if justification.Err? {
        return Err(justification.error);
      }
      decision := Ok(Decided("yes", justification.value, "GraphNavigation"));
    } else {
      decision := Ok(Decided("no", "null", "GraphNavigation"));
    }
  }
}
