/**
 * The dependency-graph serialiser (util/TreeFormatter): a depth-first walk
 * from the roots writes a bracketed tree, each vertex expanded once; the
 * vertices the roots do not reach are appended afterwards, and a final
 * brace count ends the program when the counts differ.
 *
 * The dependency graph is abstract: vertices are 0 .. n-1 with a lemma
 * each, and each vertex lists its outgoing edges (relation name and
 * target) in the order `Collections.sort` puts them. The StringBuilder and
 * the visited set that the Java code threads through the recursion are
 * passed in and handed back.
 */
module Trees {
  import opened Strings

  datatype Edge = Edge(relation: string, target: nat)

  datatype Graph = Graph(lemmas: seq<string>, edges: seq<seq<Edge>>, roots: seq<nat>)

  /** Every edge and every root names a vertex. */
  predicate ValidGraph(g: Graph) {
    |g.edges| == |g.lemmas| &&
    (forall u, k :: 0 <= u < |g.edges| && 0 <= k < |g.edges[u]| ==> g.edges[u][k].target < |g.lemmas|) &&
    (forall i :: 0 <= i < |g.roots| ==> g.roots[i] < |g.lemmas|)
  }

  function Vertices(g: Graph): (r: set<nat>)
    ensures forall v: nat :: v in r <==> v < |g.lemmas|
  {
    Below(|g.lemmas|)
  }

  /** The naturals below n. */
  function Below(n: nat): (r: set<nat>)
    ensures forall v: nat :: v in r <==> v < n
  {
    if n == 0 then {} else Below(n - 1) + {n - 1}
  }

  predicate NoBraces(s: string) {
    '{' !in s && '}' !in s
  }

  /** No lemma and no relation name holds a brace. */
  predicate BraceFree(g: Graph) {
    (forall i :: 0 <= i < |g.lemmas| ==> NoBraces(g.lemmas[i])) &&
    (forall u, k :: 0 <= u < |g.edges| && 0 <= k < |g.edges[u]| ==> NoBraces(g.edges[u][k].relation))
  }

  /** '{' count minus '}' count. */
  function Balance(s: string): int {
    Count(s, '{') - Count(s, '}')
  }

  lemma BalanceAppend(a: string, b: string)
    ensures Balance(a + b) == Balance(a) + Balance(b)
  {
    CountAppend(a, b, '{');
    CountAppend(a, b, '}');
  }

  lemma BalanceNoBraces(s: string)
    requires NoBraces(s)
    ensures Balance(s) == 0 && NoBraces(ToLower(s))
  {
    CountPositive(s, '{');
    CountPositive(s, '}');
    assert forall i :: 0 <= i < |s| ==> ToLower(s)[i] == LowerChar(s[i]);
  }

  /** "}}" appended: two closing braces. */
  function Close(tree: string): (r: string)
    ensures tree <= r && |r| == |tree| + 2 && r[|r| - 1] == '}'
    ensures Balance(r) == Balance(tree) - 2
  {
    BalanceAppend(tree, "}}");
    tree + "}}"
  }

  /** The text written for an edge before the target is expanded. */
  function EdgeOpening(g: Graph, e: Edge): string
    requires e.target < |g.lemmas|
  {
    "{" + e.relation + "{" + ToLower(g.lemmas[e.target])
  }

  lemma EdgeOpeningBalance(g: Graph, e: Edge)
    requires e.target < |g.lemmas| && NoBraces(e.relation) && NoBraces(g.lemmas[e.target])
    ensures Balance(EdgeOpening(g, e)) == 2
  {
    BalanceNoBraces(e.relation);
    BalanceNoBraces(g.lemmas[e.target]);
    BalanceNoBraces(ToLower(g.lemmas[e.target]));
    BalanceAppend("{", e.relation);
    BalanceAppend("{" + e.relation, "{");
    BalanceAppend("{" + e.relation + "{", ToLower(g.lemmas[e.target]));
  }

  predicate HasEdge(g: Graph, u: nat, v: nat)
    requires u < |g.edges|
  {
    exists k :: 0 <= k < |g.edges[u]| && g.edges[u][k].target == v
  }

  /** A walk along edges, built one step at a time. */
  ghost predicate IsPath(g: Graph, p: seq<nat>)
    decreases |p|
  {
    |p| >= 1 && p[|p| - 1] < |g.edges| &&
    (|p| > 1 ==> IsPath(g, p[..|p| - 1]) && p[|p| - 2] < |g.edges| && HasEdge(g, p[|p| - 2], p[|p| - 1]))
  }

  ghost predicate ReachableFrom(g: Graph, src: set<nat>, v: nat) {
    exists p :: IsPath(g, p) && p[0] in src && p[|p| - 1] == v
  }

  /** Every vertex of s is reachable from src. */
  ghost predicate AllReached(g: Graph, src: set<nat>, s: set<nat>) {
    forall v :: v in s ==> ReachableFrom(g, src, v)
  }

  /**
   * Every visited vertex that is not still being expanded has all its
   * successors visited.
   */
  ghost predicate Closed(g: Graph, visited: set<nat>, active: set<nat>)
    requires ValidGraph(g)
  {
    forall u, k :: u in visited && u !in active && u < |g.edges| && 0 <= k < |g.edges[u]| ==> g.edges[u][k].target in visited
  }

  lemma ReachStep(g: Graph, src: set<nat>, u: nat, k: nat)
    requires ValidGraph(g) && u < |g.edges| && k < |g.edges[u]| && ReachableFrom(g, src, u)
    ensures ReachableFrom(g, src, g.edges[u][k].target)
  {
    var p :| IsPath(g, p) && p[0] in src && p[|p| - 1] == u;
    var v := g.edges[u][k].target;
    var q := p + [v];
    assert q[..|q| - 1] == p;
    assert HasEdge(g, q[|q| - 2], q[|q| - 1]);
    assert IsPath(g, q);
  }

  lemma ReachSelf(g: Graph, src: set<nat>, v: nat)
    requires v in src && v < |g.edges|
    ensures ReachableFrom(g, src, v)
  {
    assert IsPath(g, [v]);
  }

  /** A closed set that holds the sources holds everything they reach. */
  lemma {:induction false} ClosedHoldsReach(g: Graph, visited: set<nat>, src: set<nat>, p: seq<nat>)
    requires ValidGraph(g) && Closed(g, visited, {}) && src <= visited
    requires IsPath(g, p) && p[0] in src
    ensures p[|p| - 1] in visited
    decreases |p|
  {
    if |p| > 1 {
      var q := p[..|p| - 1];
      assert q[0] == p[0] && q[|q| - 1] == p[|p| - 2];
      ClosedHoldsReach(g, visited, src, q);
    }
  }

  /** The targets of the first k edges of u are in s. */
  predicate FirstTargetsIn(g: Graph, u: nat, k: nat, s: set<nat>)
    requires u < |g.edges| && k <= |g.edges[u]|
  {
    forall j :: 0 <= j < k ==> g.edges[u][j].target in s
  }

  lemma SubsetCard(a: set<nat>, b: set<nat>)
    requires a <= b
    ensures |a| <= |b|
  {
    assert b == a + (b - a);
  }

  lemma RemoveCard(a: set<nat>, x: nat)
    requires x in a
    ensures |a - {x}| < |a|
  {
  }

  lemma AppendAssoc(a: string, b: string, c: string)
    ensures a + b + c == a + (b + c)
  {
  }

  /** Taking off the last character of a + b takes it off b. */
  lemma DropLastAppend(a: string, b: string)
    requires |b| >= 1
    ensures (a + b)[..|a + b| - 1] == a + b[..|b| - 1]
  {
  }

  function RootSet(g: Graph): set<nat> {
    set i | 0 <= i < |g.roots| :: g.roots[i]
  }

  /** The text a walk writes and the visited set it leaves behind. */
  datatype Expansion = Expansion(text: string, visited: set<nat>)

  /**
   * What `getAllChildren` appends for `node`, given the vertices visited so
   * far: each outgoing edge in order, then "}}"; a node without edges
   * writes "}}" alone.
   */
  function Expand(g: Graph, node: nat, visited: set<nat>): (r: Expansion)
    requires ValidGraph(g) && node < |g.lemmas|
    ensures visited + {node} <= r.visited
    ensures |r.text| >= 2 && r.text[|r.text| - 2] == '}' && r.text[|r.text| - 1] == '}'
    ensures |g.edges[node]| == 0 ==> r.text == "}}"
    decreases |Vertices(g) - visited - {node}|, 2, 0
  {
    assert Vertices(g) - (visited + {node}) == Vertices(g) - visited - {node};
    var e := ExpandFrom(g, node, 0, visited + {node});
    Expansion(e.text + "}}", e.visited)
  }

  /** The edges of `node` from the k-th on, each written as `ExpandOne` says. */
  function ExpandFrom(g: Graph, node: nat, k: nat, visited: set<nat>): (r: Expansion)
    requires ValidGraph(g) && node < |g.lemmas| && k <= |g.edges[node]|
    ensures visited <= r.visited
    ensures forall j :: k <= j < |g.edges[node]| ==> g.edges[node][j].target in r.visited
    ensures k == |g.edges[node]| ==> r.text == ""
    decreases |Vertices(g) - visited|, 1, |g.edges[node]| - k
  {
    if k == |g.edges[node]| then Expansion("", visited)
    else
      var e := ExpandOne(g, node, k, visited);
      SubsetCard(Vertices(g) - e.visited, Vertices(g) - visited);
      var rest := ExpandFrom(g, node, k + 1, e.visited);
      Expansion(e.text + rest.text, rest.visited)
  }

  /**
   * Edge k of `node`: "{" relation "{" lower-cased lemma, then the target's
   * expansion when it is not yet visited, and "}}" when it is.
   */
  function ExpandOne(g: Graph, node: nat, k: nat, visited: set<nat>): (r: Expansion)
    requires ValidGraph(g) && node < |g.lemmas| && k < |g.edges[node]|
    ensures visited + {g.edges[node][k].target} <= r.visited
    ensures EdgeOpening(g, g.edges[node][k]) <= r.text
    ensures g.edges[node][k].target in visited ==> r.visited == visited
    decreases |Vertices(g) - visited|, 0, 0
  {
    var edge := g.edges[node][k];
    if edge.target !in visited then
      RemoveCard(Vertices(g) - visited, edge.target);
      var e := Expand(g, edge.target, visited);
      Expansion(EdgeOpening(g, edge) + e.text, e.visited)
    else
      Expansion(EdgeOpening(g, edge) + "}}", visited)
  }

  /** What one root adds: "{", its lower-cased lemma and its expansion without the last '}'. */
  function RootSegment(g: Graph, root: nat, visited: set<nat>): (r: Expansion)
    requires ValidGraph(g) && root < |g.lemmas|
    ensures visited + {root} <= r.visited
    ensures |r.text| >= 2 && r.text[0] == '{' && r.text[|r.text| - 1] == '}'
  {
    var e := Expand(g, root, visited);
    Expansion("{" + ToLower(g.lemmas[root]) + e.text[..|e.text| - 1], e.visited)
  }

  /** Appending "{", the lemma and the expansion, then taking off the last '}', appends the root's segment. */
  lemma RootSegmentAppended(g: Graph, root: nat, visited: set<nat>, tree: string)
    requires ValidGraph(g) && root < |g.lemmas|
    ensures var full := tree + "{" + ToLower(g.lemmas[root]) + Expand(g, root, visited).text;
      |full| >= 1 && full[..|full| - 1] == tree + RootSegment(g, root, visited).text
  {
    var opening := "{" + ToLower(g.lemmas[root]);
    var e := Expand(g, root, visited);
    AppendAssoc(tree, "{", ToLower(g.lemmas[root]));
    DropLastAppend(tree + opening, e.text);
    AppendAssoc(tree, opening, e.text[..|e.text| - 1]);
  }

  /** Closing the node's edges with "}}" completes its expansion. */
  lemma ExpansionClosed(g: Graph, node: nat, visited: set<nat>, tree: string)
    requires ValidGraph(g) && node < |g.lemmas|
    ensures var e := ExpandFrom(g, node, 0, visited + {node});
      tree + e.text + "}}" == tree + Expand(g, node, visited).text && e.visited == Expand(g, node, visited).visited
  {
    var e := ExpandFrom(g, node, 0, visited + {node});
    assert Expand(g, node, visited) == Expansion(e.text + "}}", e.visited);
    AppendAssoc(tree, e.text, "}}");
  }

  /** The loop over the first n roots, from an empty tree and an empty visited set. */
  function RootsWalk(g: Graph, n: nat): (r: Expansion)
    requires ValidGraph(g) && n <= |g.roots|
    ensures forall j :: 0 <= j < n ==> g.roots[j] in r.visited
    decreases n
  {
    if n == 0 then Expansion("", {})
    else
      var prev := RootsWalk(g, n - 1);
      var s := RootSegment(g, g.roots[n - 1], prev.visited);
      Expansion(prev.text + s.text, s.visited)
  }

  /** One more root appends its segment. */
  lemma RootsWalkStep(g: Graph, i: nat)
    requires ValidGraph(g) && i < |g.roots|
    ensures RootsWalk(g, i + 1) == Expansion(RootsWalk(g, i).text + RootSegment(g, g.roots[i], RootsWalk(g, i).visited).text,
      RootSegment(g, g.roots[i], RootsWalk(g, i).visited).visited)
  {
  }

  /** One more root only appends to the text and only adds to the visited set. */
  lemma RootsWalkGrows(g: Graph, n: nat)
    requires ValidGraph(g) && 0 < n <= |g.roots|
    ensures RootsWalk(g, n - 1).text <= RootsWalk(g, n).text
    ensures RootsWalk(g, n - 1).visited <= RootsWalk(g, n).visited
  {
  }

  /** Every vertex of picks is a vertex of g. */
  predicate InGraph(g: Graph, picks: seq<nat>) {
    forall i :: 0 <= i < |picks| ==> picks[i] < |g.lemmas|
  }

  /**
   * The loop over the vertices no root reached, for the vertices in the
   * order the set's iterator hands them out: each lower-cased lemma, then
   * its expansion.
   */
  function UnreachedWalk(g: Graph, picks: seq<nat>, visited: set<nat>): (r: Expansion)
    requires ValidGraph(g) && InGraph(g, picks)
    ensures visited <= r.visited
    ensures forall i :: 0 <= i < |picks| ==> picks[i] in r.visited
    decreases |picks|
  {
    if picks == [] then Expansion("", visited)
    else
      var prev := UnreachedWalk(g, picks[..|picks| - 1], visited);
      var node := picks[|picks| - 1];
      var e := Expand(g, node, prev.visited);
      Expansion(prev.text + ToLower(g.lemmas[node]) + e.text, e.visited)
  }

  /** One more vertex taken appends its lemma and its expansion. */
  lemma UnreachedWalkStep(g: Graph, picks: seq<nat>, node: nat, visited: set<nat>)
    requires ValidGraph(g) && InGraph(g, picks) && node < |g.lemmas|
    ensures InGraph(g, picks + [node])
    ensures UnreachedWalk(g, picks + [node], visited) ==
      var prev := UnreachedWalk(g, picks, visited);
      var e := Expand(g, node, prev.visited);
      Expansion(prev.text + ToLower(g.lemmas[node]) + e.text, e.visited)
  {
    assert (picks + [node])[..|picks|] == picks;
  }

  /** Each vertex of picks was still unvisited when its turn came. */
  ghost predicate TakenUnvisited(g: Graph, picks: seq<nat>, visited: set<nat>)
    requires ValidGraph(g) && InGraph(g, picks)
  {
    forall i :: 0 <= i < |picks| ==> picks[i] !in UnreachedWalk(g, picks[..i], visited).visited
  }

  /** Taking a vertex that is still unvisited keeps every vertex taken unvisited at its turn. */
  lemma TakenStep(g: Graph, picks: seq<nat>, node: nat, visited: set<nat>)
    requires ValidGraph(g) && InGraph(g, picks) && node < |g.lemmas|
    requires TakenUnvisited(g, picks, visited) && node !in UnreachedWalk(g, picks, visited).visited
    ensures InGraph(g, picks + [node]) && TakenUnvisited(g, picks + [node], visited)
  {
    var next := picks + [node];
    forall i | 0 <= i < |next|
      ensures next[i] !in UnreachedWalk(g, next[..i], visited).visited
    {
      if i < |picks| {
        assert next[..i] == picks[..i];
      } else {
        assert next[..i] == picks;
      }
    }
  }

  /**
   * When the walk over picks completes the visited set, nothing was taken
   * exactly when the visited set was already complete.
   */
  lemma NothingTaken(g: Graph, picks: seq<nat>, visited: set<nat>)
    requires ValidGraph(g) && InGraph(g, picks) && TakenUnvisited(g, picks, visited)
    requires UnreachedWalk(g, picks, visited).visited == Vertices(g)
    ensures picks == [] <==> visited == Vertices(g)
  {
    if picks != [] {
      assert picks[..0] == [];
      assert picks[0] !in visited && picks[0] in Vertices(g);
    }
  }

  /**
   * The whole text `convertToTree` builds when the vertices no root reached
   * are taken in the order picks.
   */
  function Written(g: Graph, picks: seq<nat>): string
    requires ValidGraph(g) && InGraph(g, picks)
  {
    var roots := RootsWalk(g, |g.roots|);
    roots.text + UnreachedWalk(g, picks, roots.visited).text
  }

  /**
   * `getAllChildren(graph, node, tree, visited)`: mark the node, then write
   * each outgoing edge and expand its target unless visited ("}}" instead),
   * then "}}"; a node without edges writes "}}". The StringBuilder and the
   * set, which the Java code updates in place, go in and come back out.
   * `active` holds the nodes whose expansion is under way further up the
   * recursion, and `src` the vertices the walk started from.
   */
  method GetAllChildren(g: Graph, node: nat, tree: string, visited: set<nat>, ghost active: set<nat>, ghost src: set<nat>)
    returns (tree': string, visited': set<nat>)
    requires ValidGraph(g) && node < |g.lemmas|
    requires visited <= Vertices(g) && active <= visited && node !in active && Closed(g, visited, active)
    requires ReachableFrom(g, src, node) && AllReached(g, src, visited)
    ensures visited + {node} <= visited' <= Vertices(g)
    ensures Closed(g, visited', active)
    ensures AllReached(g, src, visited')
    ensures tree <= tree' && |tree'| >= |tree| + 2 && tree'[|tree'| - 1] == '}'
    ensures BraceFree(g) ==> Balance(tree') == Balance(tree) - 2
    ensures tree' == tree + Expand(g, node, visited).text && visited' == Expand(g, node, visited).visited
    decreases |Vertices(g) - visited - {node}|, 2
  {
    assert Vertices(g) - (visited + {node}) == Vertices(g) - visited - {node};
    tree', visited' := ExpandEdges(g, node, tree, visited + {node}, active + {node}, src);
    assert (active + {node}) - {node} == active;
    ExpansionClosed(g, node, visited, tree);
    tree' := Close(tree');
  }

  /** The loop of `getAllChildren` over the edges of a node just marked visited. */
  method ExpandEdges(g: Graph, node: nat, tree: string, visited: set<nat>, ghost active: set<nat>, ghost src: set<nat>)
    returns (tree': string, visited': set<nat>)
    requires ValidGraph(g) && node < |g.lemmas|
    requires visited <= Vertices(g) && node in active && active <= visited && Closed(g, visited, active)
    requires ReachableFrom(g, src, node) && AllReached(g, src, visited)
    ensures visited <= visited' <= Vertices(g)
    ensures Closed(g, visited', active - {node})
    ensures AllReached(g, src, visited')
    ensures tree <= tree'
    ensures BraceFree(g) ==> Balance(tree') == Balance(tree)
    ensures tree' == tree + ExpandFrom(g, node, 0, visited).text && visited' == ExpandFrom(g, node, 0, visited).visited
    decreases |Vertices(g) - visited|, 1
  {
    visited' := visited;
    tree' := tree;
    var edges := g.edges[node];
    var k := 0;
    while k < |edges|
      invariant 0 <= k <= |edges|
      invariant visited <= visited' <= Vertices(g)
      invariant Closed(g, visited', active)
      invariant FirstTargetsIn(g, node, k, visited')
      invariant AllReached(g, src, visited')
      invariant tree <= tree'
      invariant BraceFree(g) ==> Balance(tree') == Balance(tree)
      invariant tree + ExpandFrom(g, node, 0, visited).text == tree' + ExpandFrom(g, node, k, visited').text
      invariant ExpandFrom(g, node, 0, visited).visited == ExpandFrom(g, node, k, visited').visited
    {
      SubsetCard(Vertices(g) - visited', Vertices(g) - visited);
      ghost var before := tree';
      ghost var one := ExpandOne(g, node, k, visited');
      ghost var rest := ExpandFrom(g, node, k + 1, one.visited);
      assert ExpandFrom(g, node, k, visited') == Expansion(one.text + rest.text, rest.visited);
      tree', visited' := ExpandEdge(g, node, k, tree', visited', active, src);
      AppendAssoc(before, one.text, rest.text);
      k := k + 1;
    }
  }

  /**
   * One edge of the loop in `getAllChildren`: "{" relation "{" lemma, then
   * the target's expansion, or "}}" when the target is visited.
   */
  method ExpandEdge(g: Graph, node: nat, k: nat, tree: string, visited: set<nat>, ghost active: set<nat>, ghost src: set<nat>)
    returns (tree': string, visited': set<nat>)
    requires ValidGraph(g) && node < |g.lemmas| && k < |g.edges[node]|
    requires visited <= Vertices(g) && node in active && active <= visited && Closed(g, visited, active)
    requires ReachableFrom(g, src, node) && AllReached(g, src, visited)
    ensures visited + {g.edges[node][k].target} <= visited' <= Vertices(g)
    ensures Closed(g, visited', active)
    ensures AllReached(g, src, visited')
    ensures tree <= tree'
    ensures BraceFree(g) ==> Balance(tree') == Balance(tree)
    ensures tree' == tree + ExpandOne(g, node, k, visited).text && visited' == ExpandOne(g, node, k, visited).visited
    decreases |Vertices(g) - visited|, 0
  {
    var edge := g.edges[node][k];
    if BraceFree(g) {
      EdgeOpeningBalance(g, edge);
    }
    BalanceAppend(tree, EdgeOpening(g, edge));
    tree' := tree + EdgeOpening(g, edge);
    ReachStep(g, src, node, k);
    if edge.target !in visited {
      RemoveCard(Vertices(g) - visited, edge.target);
      ghost var e := Expand(g, edge.target, visited);
      assert ExpandOne(g, node, k, visited) == Expansion(EdgeOpening(g, edge) + e.text, e.visited);
      tree', visited' := GetAllChildren(g, edge.target, tree', visited, active, src);
      AppendAssoc(tree, EdgeOpening(g, edge), e.text);
    } else {
      assert ExpandOne(g, node, k, visited) == Expansion(EdgeOpening(g, edge) + "}}", visited);
      tree' := Close(tree');
      visited' := visited;
      AppendAssoc(tree, EdgeOpening(g, edge), "}}");
    }
  }

  /**
   * One root of `convertToTree`: "{" and its lemma, its expansion, and the
   * last '}' taken off again.
   */
  method WalkRoot(g: Graph, root: nat, tree: string, visited: set<nat>, ghost roots: set<nat>)
    returns (tree': string, visited': set<nat>)
    requires ValidGraph(g) && root < |g.lemmas| && root in roots
    requires visited <= Vertices(g) && Closed(g, visited, {}) && AllReached(g, roots, visited)
    ensures visited + {root} <= visited' <= Vertices(g)
    ensures Closed(g, visited', {}) && AllReached(g, roots, visited')
    ensures BraceFree(g) ==> Balance(tree') == Balance(tree)
    ensures tree' == tree + RootSegment(g, root, visited).text && visited' == RootSegment(g, root, visited).visited
  {
    ReachSelf(g, roots, root);
    var word := ToLower(g.lemmas[root]);
    if BraceFree(g) {
      BalanceNoBraces(g.lemmas[root]);
      BalanceNoBraces(word);
    }
    BalanceAppend(tree, "{");
    BalanceAppend(tree + "{", word);
    tree', visited' := GetAllChildren(g, root, tree + "{" + word, visited, {}, roots);
    assert tree' == tree'[..|tree'| - 1] + "}";
    BalanceAppend(tree'[..|tree'| - 1], "}");
    RootSegmentAppended(g, root, visited, tree);
    tree' := tree'[..|tree'| - 1];
  }

  /** One vertex of the loop over the vertices no root reached: its lemma and its expansion. */
  method WalkUnreached(g: Graph, node: nat, tree: string, visited: set<nat>)
    returns (tree': string, visited': set<nat>)
    requires ValidGraph(g) && node < |g.lemmas|
    requires visited <= Vertices(g) && Closed(g, visited, {})
    ensures visited + {node} <= visited' <= Vertices(g)
    ensures Closed(g, visited', {})
    ensures BraceFree(g) ==> Balance(tree') == Balance(tree) - 2
    ensures tree' == tree + ToLower(g.lemmas[node]) + Expand(g, node, visited).text
    ensures visited' == Expand(g, node, visited).visited
  {
    ReachSelf(g, Vertices(g), node);
    AllReachedSelf(g, visited);
    var word := ToLower(g.lemmas[node]);
    if BraceFree(g) {
      BalanceNoBraces(g.lemmas[node]);
      BalanceNoBraces(word);
    }
    BalanceAppend(tree, word);
    tree', visited' := GetAllChildren(g, node, tree + word, visited, {}, Vertices(g));
  }

  /** The loop over the roots, from an empty tree and an empty visited set. */
  method WalkRoots(g: Graph) returns (tree: string, visited: set<nat>)
    requires ValidGraph(g)
    ensures visited <= Vertices(g) && Closed(g, visited, {}) && AllReached(g, RootSet(g), visited)
    ensures RootSet(g) <= visited
    ensures BraceFree(g) ==> Balance(tree) == 0
    ensures tree == RootsWalk(g, |g.roots|).text && visited == RootsWalk(g, |g.roots|).visited
  {
    tree := "";
    visited := {};
    var i := 0;
    while i < |g.roots|
      invariant 0 <= i <= |g.roots|
      invariant visited <= Vertices(g) && Closed(g, visited, {}) && AllReached(g, RootSet(g), visited)
      invariant BraceFree(g) ==> Balance(tree) == 0
      invariant Expansion(tree, visited) == RootsWalk(g, i)
    {
      RootsWalkStep(g, i);
      tree, visited := WalkRoot(g, g.roots[i], tree, visited, RootSet(g));
      i := i + 1;
    }
  }

  /**
   * One pass of the loop over the vertices no root reached: the vertex
   * taken is appended to the vertices taken since the loop started from
   * tree0 and visited0.
   */
  method WalkNext(g: Graph, tree0: string, visited0: set<nat>, tree: string, visited: set<nat>, ghost picks: seq<nat>, node: nat)
    returns (tree': string, visited': set<nat>, ghost picks': seq<nat>)
    requires ValidGraph(g) && node < |g.lemmas| && node !in visited
    requires visited <= Vertices(g) && Closed(g, visited, {})
    requires InGraph(g, picks) && TakenUnvisited(g, picks, visited0)
    requires tree == tree0 + UnreachedWalk(g, picks, visited0).text && visited == UnreachedWalk(g, picks, visited0).visited
    ensures picks' == picks + [node]
    ensures visited + {node} <= visited' <= Vertices(g) && Closed(g, visited', {})
    ensures BraceFree(g) ==> Balance(tree') == Balance(tree) - 2
    ensures InGraph(g, picks') && TakenUnvisited(g, picks', visited0)
    ensures tree' == tree0 + UnreachedWalk(g, picks', visited0).text && visited' == UnreachedWalk(g, picks', visited0).visited
  {
    ghost var done := UnreachedWalk(g, picks, visited0);
    ghost var e := Expand(g, node, visited);
    UnreachedWalkStep(g, picks, node, visited0);
    TakenStep(g, picks, node, visited0);
    tree', visited' := WalkUnreached(g, node, tree, visited);
    AppendAssoc(tree0, done.text, ToLower(g.lemmas[node]));
    AppendAssoc(tree0, done.text + ToLower(g.lemmas[node]), e.text);
    picks' := picks + [node];
  }

  /**
   * The loop over the vertices not yet visited, each taken in turn until
   * none is left; the balance drops by 2 for each.
   */
  method WalkAllUnreached(g: Graph, tree: string, visited: set<nat>) returns (tree': string, visited': set<nat>, ghost picks: seq<nat>)
    requires ValidGraph(g)
    requires visited <= Vertices(g) && Closed(g, visited, {})
    ensures visited' == Vertices(g)
    ensures BraceFree(g) ==> (Balance(tree') == Balance(tree) <==> visited == Vertices(g))
    ensures InGraph(g, picks) && TakenUnvisited(g, picks, visited)
    ensures tree' == tree + UnreachedWalk(g, picks, visited).text && visited' == UnreachedWalk(g, picks, visited).visited
    ensures visited == Vertices(g) ==> picks == []
  {
    tree', visited', picks := TakeUnreached(g, tree, visited);
    NothingTaken(g, picks, visited);
  }

  /** The loop itself: each vertex not yet visited is taken until none is left. */
  method TakeUnreached(g: Graph, tree: string, visited: set<nat>) returns (tree': string, visited': set<nat>, ghost picks: seq<nat>)
    requires ValidGraph(g)
    requires visited <= Vertices(g) && Closed(g, visited, {})
    ensures visited' == Vertices(g)
    ensures BraceFree(g) ==> Balance(tree') == Balance(tree) - 2 * |picks|
    ensures InGraph(g, picks) && TakenUnvisited(g, picks, visited)
    ensures tree' == tree + UnreachedWalk(g, picks, visited).text && visited' == UnreachedWalk(g, picks, visited).visited
  {
    tree', visited' := tree, visited;
    picks := [];
    var nodes := Vertices(g) - visited;
    while nodes != {}
      invariant visited' <= Vertices(g) && Closed(g, visited', {})
      invariant nodes == Vertices(g) - visited'
      invariant BraceFree(g) ==> Balance(tree') == Balance(tree) - 2 * |picks|
      invariant InGraph(g, picks) && TakenUnvisited(g, picks, visited)
      invariant tree' == tree + UnreachedWalk(g, picks, visited).text && visited' == UnreachedWalk(g, picks, visited).visited
      decreases |nodes|
    {
      var node :| node in nodes;
      tree', visited', picks := WalkNext(g, tree, visited, tree', visited', picks, node);
      nodes := nodes - visited';
    }
  }



  /**
   * The two loops of `convertToTree`: the roots' trees, each without its
   * last brace, then the vertices no root reached. The ghost `picks` is the
   * order in which the set's iterator handed out the vertices no root
   * reached.
   */
  method BuildTree(g: Graph) returns (tree: string, ghost picks: seq<nat>)
    requires ValidGraph(g)
    ensures InGraph(g, picks) && TakenUnvisited(g, picks, RootsWalk(g, |g.roots|).visited)
    ensures tree == Written(g, picks)
    ensures BraceFree(g) ==> (Balance(tree) == 0 <==> forall v :: v in Vertices(g) ==> ReachableFrom(g, RootSet(g), v))
    ensures BraceFree(g) && Balance(tree) == 0 ==> tree == RootsWalk(g, |g.roots|).text
  {
    var visited;
    tree, visited := WalkRoots(g);
    if BraceFree(g) {
      ClosedCoversReach(g, visited, RootSet(g));
    }
    tree, visited, picks := WalkAllUnreached(g, tree, visited);
  }

  /**
   * `convertToTree`: the tree `BuildTree` writes; Err(Exit) stands for the
   * `System.exit` taken when the brace counts differ.
   */
  method ConvertToTree(g: Graph) returns (r: Result<string>, ghost picks: seq<nat>)
    requires ValidGraph(g)
    ensures r.Ok? ==> Balance(r.value) == 0
    ensures r.Err? ==> r.error == Exit
    ensures BraceFree(g) ==> (r.Ok? <==> forall v :: v in Vertices(g) ==> ReachableFrom(g, RootSet(g), v))
    ensures InGraph(g, picks) && TakenUnvisited(g, picks, RootsWalk(g, |g.roots|).visited)
    ensures r.Ok? <==> Balance(Written(g, picks)) == 0
    ensures r.Ok? ==> r.value == Written(g, picks)
    ensures BraceFree(g) && r.Ok? ==> r.value == RootsWalk(g, |g.roots|).text
  {
    var tree;
    tree, picks := BuildTree(g);
    var lBrackets := Count(tree, '{');
    var rBrackets := Count(tree, '}');
    if lBrackets != rBrackets {
      r := Err(Exit);
      return;
    }
    r := Ok(tree);
  }

  /**
   * The loop over the vertices no root reached, written as the roots' loop
   * is: "{" before each lemma and the last '}' taken off again, so that each
   * pass leaves the balance where it was.
   */
  method WalkAllUnreachedAsRoots(g: Graph, tree: string, visited: set<nat>) returns (tree': string, visited': set<nat>)
    requires ValidGraph(g)
    requires visited <= Vertices(g) && Closed(g, visited, {})
    ensures visited' == Vertices(g)
    ensures BraceFree(g) ==> Balance(tree') == Balance(tree)
    ensures tree <= tree'
  {
    tree', visited' := tree, visited;
    var nodes := Vertices(g) - visited;
    while nodes != {}
      invariant visited' <= Vertices(g) && Closed(g, visited', {})
      invariant nodes == Vertices(g) - visited'
      invariant BraceFree(g) ==> Balance(tree') == Balance(tree)
      invariant tree <= tree'
      decreases |nodes|
    {
      var node :| node in nodes;
      AllReachedSelf(g, visited');
      tree', visited' := WalkRoot(g, node, tree', visited', Vertices(g));
      nodes := nodes - visited';
    }
  }

  /**
   * `convertToTree` with the unreached vertices opened by "{" like the
   * roots: on a graph whose lemmas and relations hold no brace the count
   * always matches, so the exit is never taken.
   */
  method ConvertToTreeIntended(g: Graph) returns (r: Result<string>)
    requires ValidGraph(g)
    ensures r.Ok? ==> Balance(r.value) == 0
    ensures r.Err? ==> r.error == Exit
    ensures BraceFree(g) ==> r.Ok?
    ensures r.Ok? ==> RootsWalk(g, |g.roots|).text <= r.value
  {
    var tree, visited := WalkRoots(g);
    tree, visited := WalkAllUnreachedAsRoots(g, tree, visited);
    var lBrackets := Count(tree, '{');
    var rBrackets := Count(tree, '}');
    if lBrackets != rBrackets {
      return Err(Exit);
    }
    r := Ok(tree);
  }

  /** Two words, the root "see" and a vertex "it" whose only edge points back at the root. */
  const StrayGraph: Graph := Graph(["see", "it"], [[], [Edge("dep", 0)]], [0])

  /**
   * A brace-free graph with a vertex its root does not reach (no edge leads
   * into vertex 1, and the only root is 0): by `ConvertToTree`'s contract
   * the program exits on it.
   */
  lemma StrayVertexUnreached()
    ensures ValidGraph(StrayGraph) && BraceFree(StrayGraph)
    ensures 1 in Vertices(StrayGraph) && !ReachableFrom(StrayGraph, RootSet(StrayGraph), 1)
  {
    assert NoBraces(StrayGraph.lemmas[0]) && NoBraces(StrayGraph.lemmas[1]);
    assert NoBraces(StrayGraph.edges[1][0].relation);
  }

  /** Every vertex reaches itself. */
  lemma AllReachedSelf(g: Graph, s: set<nat>)
    requires ValidGraph(g) && s <= Vertices(g)
    ensures AllReached(g, Vertices(g), s)
  {
    forall v | v in s ensures ReachableFrom(g, Vertices(g), v) {
      ReachSelf(g, Vertices(g), v);
    }
  }

  /**
   * After the roots' walk, the visited set is exactly the set of vertices
   * the roots reach.
   */
  lemma ClosedCoversReach(g: Graph, visited: set<nat>, roots: set<nat>)
    requires ValidGraph(g) && visited <= Vertices(g) && Closed(g, visited, {}) && roots <= visited
    requires AllReached(g, roots, visited)
    ensures visited == Vertices(g) <==> forall v :: v in Vertices(g) ==> ReachableFrom(g, roots, v)
  {
    forall v | v in Vertices(g) && ReachableFrom(g, roots, v) ensures v in visited {
      var p :| IsPath(g, p) && p[0] in roots && p[|p| - 1] == v;
      ClosedHoldsReach(g, visited, roots, p);
    }
  }
}
