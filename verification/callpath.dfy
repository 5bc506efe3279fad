/** The shortest call path between two symbols, found over the rows of the reference table. */
module CallPath {
  import opened Prelude
  import opened Ordering
  import opened Graphs
  import opened Discovery
  import Bfs

  /** A reference row joined with the qualified name of its source symbol. */
  datatype RefRow = RefRow(fromQName: string, toQName: string, kind: string, line: int)

  datatype PathError = NoError | SameSymbol | SymbolNotFound(qname: string)

  const CALL: string := "call"
  const CALLEE_LIMIT: nat := 200
  const DEFAULT_MAX_DEPTH: nat := 6

  /** The distinct call targets of q, in table order. */
  function Targets(refs: seq<RefRow>, q: string): (r: seq<string>)
    ensures forall c ::
              c in r <==> exists row :: row in refs && row.fromQName == q && row.kind == CALL && row.toQName == c
    ensures Distinct(r)
  {
    if refs == [] then []
    else
      var front, row := Targets(refs[..|refs| - 1], q), refs[|refs| - 1];
      assert refs == refs[..|refs| - 1] + [row];
      if row.fromQName == q && row.kind == CALL && row.toQName !in front then front + [row.toQName] else front
  }

  /** What the callee query returns: distinct targets in name order, the first 200. */
  function Callees(refs: seq<RefRow>, q: string): seq<string> {
    var sorted := SortBy(Targets(refs, q), Strings());
    if |sorted| <= CALLEE_LIMIT then sorted else sorted[..CALLEE_LIMIT]
  }

  /** The graph the search walks. */
  function CallGraph(refs: seq<RefRow>): Graph {
    q => Callees(refs, q)
  }

  /** Every callee comes from a call row; below the limit every call row gives a callee. */
  lemma {:induction false} CalleesAreCalls(refs: seq<RefRow>, q: string, c: string)
    ensures c in Callees(refs, q) ==>
              exists row :: row in refs && row.fromQName == q && row.kind == "call" && row.toQName == c
    ensures |Targets(refs, q)| <= CALLEE_LIMIT && c in Targets(refs, q) ==> c in Callees(refs, q)
  {
    var sorted := SortBy(Targets(refs, q), Strings());
    assert c in sorted <==> c in multiset(sorted);
    assert c in Targets(refs, q) <==> c in multiset(Targets(refs, q));
  }

  /** The least names among the targets, in byte order and once each: all of them, or 200. */
  lemma {:induction false} CalleesAreLeast(refs: seq<RefRow>, q: string)
    ensures SortedBy(Callees(refs, q), Strings()) && Distinct(Callees(refs, q))
    ensures |Callees(refs, q)| == if |Targets(refs, q)| < 200 then |Targets(refs, q)| else 200
    ensures forall c, t :: c in Callees(refs, q) && t in Targets(refs, q) && t !in Callees(refs, q) ==> Less(c, t)
  {
    hide Targets, Insert, Less;
    var targets := Targets(refs, q);
    var sorted := SortBy(targets, Strings());
    StringsAreOrdered();
    SortBySorts(targets, Strings());
    SameElements(targets, sorted);
    forall c, t | c in Callees(refs, q) && t in targets && t !in Callees(refs, q)
      ensures Less(c, t)
    {
      assert t in Elements(sorted);
      var i :| 0 <= i < |Callees(refs, q)| && Callees(refs, q)[i] == c;
      var j :| 0 <= j < |sorted| && sorted[j] == t;
      assert sorted[i] == c && j >= |Callees(refs, q)|;
      assert !Strings()(t, c);
      LessTotal(c, t);
    }
  }

  predicate IsHop(row: RefRow, a: string, b: string) {
    row.fromQName == a && row.toQName == b
  }

  /**
   A row the batched query may report for a hop: one with the least line, of whatever kind. Two rows of a hop can share
   that line, and then the query may take the other columns from either.
   */
  predicate IsRepresentative(refs: seq<RefRow>, a: string, b: string, row: RefRow) {
    row in refs && IsHop(row, a, b) && forall r :: r in refs && IsHop(r, a, b) ==> row.line <= r.line
  }

  /** The first such row, if the hop has a row at all. */
  function Representative(refs: seq<RefRow>, a: string, b: string): (r: Option<RefRow>)
    ensures r.Some? ==> IsRepresentative(refs, a, b, r.value)
    ensures r.None? ==> forall row :: row in refs ==> !IsHop(row, a, b)
  {
    if refs == [] then None
    else
      var front, row := Representative(refs[..|refs| - 1], a, b), refs[|refs| - 1];
      assert refs == refs[..|refs| - 1] + [row];
      if IsHop(row, a, b) && (front.None? || row.line < front.value.line) then Some(row) else front
  }

  /** Edges that lead from one symbol to another, each a least-line row of its hop. */
  ghost predicate Chains(refs: seq<RefRow>, edges: seq<RefRow>, from: string, to: string) {
    && |edges| > 0
    && edges[0].fromQName == from && edges[|edges| - 1].toQName == to
    && (forall k :: 0 <= k < |edges| - 1 ==> edges[k].toQName == edges[k + 1].fromQName)
    && (forall k :: 0 <= k < |edges| ==>
          && edges[k].toQName in Callees(refs, edges[k].fromQName)
          && IsRepresentative(refs, edges[k].fromQName, edges[k].toQName, edges[k]))
  }

  lemma {:induction false} HopsChain(refs: seq<RefRow>, path: seq<string>, edges: seq<RefRow>)
    requires IsWalk(CallGraph(refs), path) && |path| == |edges| + 1 && edges != []
    requires forall k :: 0 <= k < |edges| ==> IsRepresentative(refs, path[k], path[k + 1], edges[k])
    ensures Chains(refs, edges, path[0], path[|edges|])
  {
    hide Callees;
    forall k | 0 <= k < |edges|
      ensures edges[k].fromQName == path[k] && edges[k].toQName == path[k + 1]
    {
      assert IsRepresentative(refs, path[k], path[k + 1], edges[k]);
    }
    forall k | 0 <= k < |edges| - 1
      ensures edges[k].toQName == edges[k + 1].fromQName
    {
      assert edges[k].toQName == path[k + 1];
    }
    forall k | 0 <= k < |edges|
      ensures edges[k].toQName in Callees(refs, edges[k].fromQName)
    {
      assert path[k + 1] in CallGraph(refs)(path[k]);
    }
    var last := |edges| - 1;
    assert edges[0].fromQName == path[0] && edges[last].toQName == path[last + 1];
    forall k | 0 <= k < |edges|
      ensures IsRepresentative(refs, edges[k].fromQName, edges[k].toQName, edges[k])
    {
      assert edges[k].toQName == path[k + 1];
    }
  }

  /** Every stop but the first hangs below the one before it. */
  ghost predicate InTree(path: seq<string>, parent: map<string, string>) {
    forall k :: 0 < k < |path| ==> path[k] in parent && parent[path[k]] == path[k - 1]
  }

  /** A chain of parents, turned around. */
  lemma TurnedAround(g: Graph, chain: seq<string>, path: seq<string>, parent: map<string, string>)
    requires |path| == |chain| && forall k :: 0 <= k < |chain| ==> path[k] == chain[|chain| - 1 - k]
    requires forall k :: 0 <= k < |chain| - 1 ==>
               chain[k] in g(chain[k + 1]) && chain[k] in parent && parent[chain[k]] == chain[k + 1]
    ensures InTree(path, parent) && forall k :: 0 <= k < |path| - 1 ==> path[k + 1] in g(path[k])
  {
    forall k | 0 < k < |path|
      ensures path[k] in parent && parent[path[k]] == path[k - 1] && path[k] in g(path[k - 1])
    {
      var j := |chain| - 1 - k;
      assert chain[j] in g(chain[j + 1]) && path[k] == chain[j] && path[k - 1] == chain[j + 1];
    }
    forall k | 0 <= k < |path| - 1
      ensures path[k + 1] in g(path[k])
    {
      assert path[k + 1] in g(path[k + 1 - 1]);
    }
  }

  lemma HopsFollow(refs: seq<RefRow>, path: seq<string>, edges: seq<RefRow>, parent: map<string, string>)
    requires |path| == |edges| + 1
    requires forall k :: 0 <= k < |edges| ==> IsRepresentative(refs, path[k], path[k + 1], edges[k])
    requires InTree(path, parent)
    ensures Follows(edges, parent)
  {
    forall k | 0 <= k < |edges|
      ensures edges[k].toQName in parent && parent[edges[k].toQName] == edges[k].fromQName
    {
      assert IsRepresentative(refs, path[k], path[k + 1], edges[k]);
      var next := k + 1;
      assert path[next] in parent && parent[path[next]] == path[k];
    }
  }

  method AnyRepresentative(refs: seq<RefRow>, a: string, b: string) returns (row: RefRow)
    requires exists r :: r in refs && IsHop(r, a, b)
    ensures IsRepresentative(refs, a, b, row)
  {
    assert Representative(refs, a, b).Some?;
    row :| row in refs && IsRepresentative(refs, a, b, row);
  }

  /** Every edge comes from the recorded parent of its target. */
  ghost predicate Follows(edges: seq<RefRow>, parent: map<string, string>) {
    forall k :: 0 <= k < |edges| ==> edges[k].toQName in parent && parent[edges[k].toQName] == edges[k].fromQName
  }

  /** The symbols a path comes through. */
  ghost function Stops(from: string, edges: seq<RefRow>): seq<string> {
    [from] + seq(|edges|, k requires 0 <= k < |edges| => edges[k].toQName)
  }

  /** Where two paths part, p goes to the smaller name. */
  ghost predicate ComesFirst(p: seq<string>, w: seq<string>) {
    forall i :: 0 < i < |p| && i < |w| && p[..i] == w[..i] && p[i] != w[i] ==> Less(p[i], w[i])
  }

  lemma {:induction false} EarlierIsLess(refs: seq<RefRow>, q: string, a: string, b: string)
    requires a in Callees(refs, q) && b in Callees(refs, q) && Place(Callees(refs, q), a) < Place(Callees(refs, q), b)
    ensures Less(a, b)
  {
    hide Callees, Less, Place;
    CalleesAreLeast(refs, q);
    var s := Callees(refs, q);
    assert !Strings()(s[Place(s, b)], s[Place(s, a)]);
    LessTotal(a, b);
  }

  /** No shortest call path to a target comes before the one that follows the recorded parents. */
  lemma {:induction false} PathComesFirst(refs: seq<RefRow>, from: string, to: string, edges: seq<RefRow>,
                                          nodes: seq<string>, parent: map<string, string>, w: seq<string>)
    requires InOrder(CallGraph(refs), 1, nodes, parent) && Distinct(nodes)
    requires Chains(refs, edges, from, to) && Follows(edges, parent) && to in nodes
    requires Ball(CallGraph(refs), {from}, |edges| - 1) <= Elements(nodes)
    requires IsWalk(CallGraph(refs), w) && |w| == |edges| + 1 && w[0] == from && w[|edges|] == to
    ensures ComesFirst(Stops(from, edges), w)
  {
    assert |edges| > 0;
    hide *;
    var g, p := CallGraph(refs), Stops(from, edges);
    WalkIsVisited(g, from, nodes, w);
    StopsInTree(refs, from, to, edges, parent);
    TreePathGoesFirst(g, 1, nodes, parent, p, w);
    ByName(refs, p, w);
  }

  lemma {:induction false} WalkIsVisited(g: Graph, from: string, nodes: seq<string>, w: seq<string>)
    requires IsWalk(g, w) && w[0] == from && |w| > 1 && w[|w| - 1] in nodes
    requires Ball(g, {from}, |w| - 2) <= Elements(nodes)
    ensures forall k :: 0 <= k < |w| ==> w[k] in nodes
  {
    hide Ball;
    forall k | 0 <= k < |w|
      ensures w[k] in nodes
    {
      if k < |w| - 1 {
        assert IsWalk(g, w[..k + 1]);
        WalkStaysInBall(g, {from}, w[..k + 1]);
        BallGrows(g, {from}, k, |w| - 2);
      }
    }
  }

  lemma StopsInTree(refs: seq<RefRow>, from: string, to: string, edges: seq<RefRow>, parent: map<string, string>)
    requires Chains(refs, edges, from, to) && Follows(edges, parent)
    ensures var p := Stops(from, edges);
            && |p| == |edges| + 1 && p[|edges|] == to && IsWalk(CallGraph(refs), p)
            && forall k :: 0 < k < |p| ==> p[k] in parent && parent[p[k]] == p[k - 1]
  {
    hide Callees, Representative, IsRepresentative;
    var p := Stops(from, edges);
    forall k | 0 < k < |p|
      ensures p[k] in parent && parent[p[k]] == p[k - 1] && p[k] in CallGraph(refs)(p[k - 1])
    {
      assert p[k] == edges[k - 1].toQName && edges[k - 1].fromQName == p[k - 1];
    }
    forall k | 0 <= k < |p| - 1
      ensures p[k + 1] in CallGraph(refs)(p[k])
    {
      assert p[k + 1] in CallGraph(refs)(p[k + 1 - 1]);
    }
  }

  lemma ByName(refs: seq<RefRow>, p: seq<string>, w: seq<string>)
    requires IsWalk(CallGraph(refs), p) && IsWalk(CallGraph(refs), w) && GoesFirst(CallGraph(refs), p, w)
    ensures ComesFirst(p, w)
  {
    hide Callees, Less, Place;
    var g := CallGraph(refs);
    forall i | 0 < i < |p| && i < |w| && p[..i] == w[..i] && p[i] != w[i]
      ensures Less(p[i], w[i])
    {
      assert p[..i][i - 1] == w[..i][i - 1];
      assert p[i - 1 + 1] in g(p[i - 1]) && w[i - 1 + 1] in g(w[i - 1]);
      EarlierIsLess(refs, p[i - 1], p[i], w[i]);
    }
  }

  /** Follows the parents from `to` back to `from` and fetches one row for each hop. */
  method Reconstruct(refs: seq<RefRow>, from: string, to: string, parent: map<string, string>, ghost nodes: seq<string>,
                     ghost depth: map<string, nat>) returns (out: seq<RefRow>)
    requires Bfs.WellFormed(CallGraph(refs), {from}, nodes, parent, depth)
    requires to in nodes && to in depth && depth[to] > 0
    ensures Chains(refs, out, from, to)
    ensures |out| == depth[to] && Follows(out, parent)
  {
    hide Ball, Callees, Representative;
    ghost var g := CallGraph(refs);
    var chain := [to];
    var cur := to;
    while cur != from
      invariant |chain| > 0 && chain[0] == to && chain[|chain| - 1] == cur
      invariant cur in nodes && cur in depth && depth[to] == depth[cur] + |chain| - 1
      invariant forall k :: 0 <= k < |chain| - 1 ==>
                  chain[k] in g(chain[k + 1]) && chain[k] in parent && parent[chain[k]] == chain[k + 1]
      decreases depth[cur]
    {
      // the lookup never misses: every visited node but `from` has a parent
      assert Bfs.NodeOk(g, {from}, parent, depth, cur);
      cur := parent[cur];
      chain := chain + [cur];
    }
    assert Bfs.NodeOk(g, {from}, parent, depth, from);
    Bfs.RootAtZero(g, {from}, from, depth[from]);
    var path := ReverseChain(chain);
    TurnedAround(g, chain, path, parent);
    out := [];
    for k := 0 to |path| - 1
      invariant |out| == k
      invariant forall j :: 0 <= j < k ==> IsRepresentative(refs, path[j], path[j + 1], out[j])
    {
      // the hop is a call row, so the batched query always returns a row for it
      assert path[k + 1] in g(path[k]);
      CalleesAreCalls(refs, path[k], path[k + 1]);
      var row := AnyRepresentative(refs, path[k], path[k + 1]);
      out := out + [row];
    }
    HopsChain(refs, path, out);
    HopsFollow(refs, path, out, parent);
  }

  /** Records the unseen callees of cur; found tells that the target is among them. */
  method Scan(ghost g: Graph, ghost rs: set<string>, ghost d: nat, cur: string, callees: seq<string>, to: string,
              visited: set<string>, parent: map<string, string>, next: seq<string>, ghost nodes: seq<string>,
              ghost dist: map<string, nat>, ghost covered: set<string>, ghost c: nat)
    returns (visited': set<string>, parent': map<string, string>, next': seq<string>, ghost nodes': seq<string>,
             ghost dist': map<string, nat>, found: bool)
    requires Bfs.Expanding(g, rs, d, nodes, parent, dist, next, covered)
    requires cur in nodes && cur in dist && dist[cur] == d && callees == g(cur)
    requires visited == Elements(nodes) && to !in visited
    requires c < |nodes| && nodes[c] == cur && Scanned(g, 1, nodes, parent, c, 0) && Bfs.IsTail(next, nodes)
    ensures InOrder(g, 1, nodes', parent')
    ensures !found ==>
              && Scanned(g, 1, nodes', parent', c + 1, 0)
              && Bfs.IsTail(next', nodes') && |nodes'| - |next'| == |nodes| - |next|
    ensures found <==> to in callees
    ensures !found ==> visited' == visited + Elements(callees)
    ensures Bfs.WellFormed(g, rs, nodes', parent', dist')
    ensures nodes <= nodes' && forall n :: n in dist ==> n in dist' && dist'[n] == dist[n]
    ensures found ==> to in nodes' && to in dist' && dist'[to] == d + 1 && Ball(g, rs, d) <= Elements(nodes')
    ensures !found ==>
              && visited' == Elements(nodes') && to !in visited'
              && Bfs.Expanding(g, rs, d, nodes', parent', dist', next', covered + Elements(g(cur)))
  {
    hide Bfs.WellFormed, Ball, Scanned, InOrder, Bfs.IsTail;
    visited', parent', next', nodes', dist', found := visited, parent, next, nodes, dist, false;
    for j := 0 to |callees|
      invariant Bfs.Expanding(g, rs, d, nodes', parent', dist', next', covered)
      invariant nodes <= nodes' && forall n :: n in dist ==> n in dist' && dist'[n] == dist[n]
      invariant forall x :: x in callees[..j] ==> x in nodes'
      invariant visited' == visited + Elements(callees[..j])
      invariant visited' == Elements(nodes') && to !in visited'
      invariant nodes'[c] == cur && Scanned(g, 1, nodes', parent', c, j)
      invariant Bfs.IsTail(next', nodes') && |nodes'| - |next'| == |nodes| - |next|
    {
      var s := callees[j];
      PrefixElements(callees, j);
      if s == cur || s in visited' {
        SkipSeen(g, 1, nodes', parent', c, j);
        continue;
      }
      Bfs.AddWhileExpanding(g, rs, d, nodes', parent', dist', next', covered, cur, s);
      TakeNew(g, 1, nodes', parent', c, j);
      Bfs.TailGrows(next', nodes', s);
      visited' := visited' + {s};
      parent' := parent'[s := cur];
      nodes', dist' := nodes' + [s], dist'[s := d + 1];
      if s == to {
        ScannedInOrder(g, 1, nodes', parent', c, j + 1);
        found := true;
        return;
      }
      next' := next' + [s];
    }
    NextNode(g, 1, nodes', parent', c);
    ScannedInOrder(g, 1, nodes', parent', c + 1, 0);
  }

  lemma DefaultDepth()
    ensures DEFAULT_MAX_DEPTH == 6
  {
  }

  /** Some walk of at most n edges leads from a root to v. */
  ghost predicate WithinReach(g: Graph, roots: set<string>, v: string, n: int) {
    exists d: nat :: d <= n && ReachedBy(g, roots, v, d)
  }

  method Between(refs: seq<RefRow>, indexed: set<string>, from: string, to: string, maxDepth: int)
    returns (edges: seq<RefRow>, err: PathError)
    ensures err == if from == to then SameSymbol
                   else if from !in indexed then SymbolNotFound(from)
                   else if to !in indexed then SymbolNotFound(to) else NoError
    ensures err != NoError ==> edges == []
    ensures err == NoError && maxDepth > 0 ==>
              (edges != [] <==> WithinReach(CallGraph(refs), {from}, to, maxDepth))
    ensures err == NoError && maxDepth <= 0 ==>
              (edges != [] <==> WithinReach(CallGraph(refs), {from}, to, 6))
    ensures edges != [] ==> Chains(refs, edges, from, to) && IsDistance(CallGraph(refs), {from}, to, |edges|)
    ensures edges != [] ==>
              forall w :: IsWalk(CallGraph(refs), w) && |w| == |edges| + 1 && w[0] == from && w[|edges|] == to
                          ==> ComesFirst(Stops(from, edges), w)
  {
    hide *;
    DefaultDepth();
    edges := [];
    if from == to {
      return [], SameSymbol;
    }
    var cap: nat := if maxDepth <= 0 then DEFAULT_MAX_DEPTH else maxDepth;
    if from !in indexed {
      return [], SymbolNotFound(from);
    }
    if to !in indexed {
      return [], SymbolNotFound(to);
    }
    err := NoError;
    ghost var g, rs := CallGraph(refs), {from};
    var parent: map<string, string> := map[];
    var visited := {from};
    var frontier := [from];
    var calleeCache: map<string, seq<string>> := map[];
    ghost var nodes, dist: map<string, nat> := [from], map[from := 0];
    Start(g, from);
    ghost var lo: nat := 0;
    for depth := 0 to cap
      invariant Bfs.LevelDone(g, rs, depth, nodes, parent, dist, frontier)
      invariant visited == Elements(nodes) && to !in visited && nodes != []
      invariant forall q :: q in calleeCache ==> calleeCache[q] == Callees(refs, q)
      invariant Bfs.IsTail(frontier, nodes) && lo + |frontier| == |nodes| && Scanned(g, 1, nodes, parent, lo, 0)
    {
      LevelStarts(g, rs, depth, nodes, parent, dist, frontier);
      var next: seq<string> := [];
      ghost var covered: set<string>, before: seq<string> := {}, nodes;
      for i := 0 to |frontier|
        invariant covered == Successors(g, Elements(frontier[..i]))
        invariant Bfs.Expanding(g, rs, depth, nodes, parent, dist, next, covered)
        invariant forall v :: v in frontier ==> v in dist && dist[v] == depth
        invariant before <= nodes && Bfs.IsTail(next, nodes) && |nodes| - |next| == |before|
        invariant Scanned(g, 1, nodes, parent, lo + i, 0)
        invariant visited == Elements(nodes) && to !in visited && nodes != []
        invariant forall q :: q in calleeCache ==> calleeCache[q] == Callees(refs, q)
      {
        var cur := frontier[i];
        if cur !in calleeCache {
          calleeCache := calleeCache[cur := Callees(refs, cur)];
        }
        var callees := calleeCache[cur];
        CallsOf(refs, cur);
        assert cur in frontier && nodes[lo + i] == before[lo + i];
        var found: bool;
        visited, parent, next, nodes, dist, found :=
          Scan(g, rs, depth, cur, callees, to, visited, parent, next, nodes, dist, covered, lo + i);
        if found {
          edges := Reconstruct(refs, from, to, parent, nodes, dist);
          Found(g, rs, nodes, parent, dist, to, cap);
          FoundFirst(refs, from, to, edges, nodes, parent, dist);
          return;
        }
        Bfs.CoverStep(g, frontier, i);
        covered := covered + Elements(g(cur));
      }
      assert frontier[..|frontier|] == frontier;
      Bfs.LevelCompletes(g, rs, depth, frontier, nodes, parent, dist, next);
      if |next| == 0 {
        assert next == [];
        Bfs.EmptyFrontierIsClosed(g, rs, depth + 1, cap, nodes, parent, dist);
        NotReached(g, rs, nodes, parent, dist, to, cap, next);
        return;
      }
      frontier, lo := next, |before|;
    }
    NotReached(g, rs, nodes, parent, dist, to, cap, frontier);
  }

  /** The frontier is about to be expanded. */
  lemma LevelStarts(g: Graph, rs: set<string>, d: nat, nodes: seq<string>, parent: map<string, string>,
                    dist: map<string, nat>, frontier: seq<string>)
    requires Bfs.LevelDone(g, rs, d, nodes, parent, dist, frontier) && Bfs.IsTail(frontier, nodes)
    ensures forall i :: 0 <= i < |frontier| ==> frontier[i] == nodes[|nodes| - |frontier| + i]
    ensures forall v :: v in frontier ==> v in dist && dist[v] == d
    ensures forall v :: v in frontier <==> InShell(g, rs, v, d)
    ensures Bfs.IsTail([], nodes) && Bfs.Expanding(g, rs, d, nodes, parent, dist, [], {})
    ensures Successors(g, Elements(frontier[..0])) == {}
  {
    hide Ball, Successors, Bfs.WellFormed;
    Bfs.FrontierIsShell(g, rs, d, nodes, parent, dist, frontier);
    BallGrows(g, rs, d, d + 1);
    Bfs.NoSuccessors(g);
    assert Elements(frontier[..0]) == {};
  }

  lemma CallsOf(refs: seq<RefRow>, q: string)
    ensures CallGraph(refs)(q) == Callees(refs, q)
  {
  }

  lemma {:induction false} FoundFirst(refs: seq<RefRow>, from: string, to: string, edges: seq<RefRow>,
                                      nodes: seq<string>, parent: map<string, string>, dist: map<string, nat>)
    requires Bfs.WellFormed(CallGraph(refs), {from}, nodes, parent, dist) && InOrder(CallGraph(refs), 1, nodes, parent)
    requires Chains(refs, edges, from, to) && Follows(edges, parent) && to in nodes
    requires Ball(CallGraph(refs), {from}, |edges| - 1) <= Elements(nodes)
    ensures forall w :: IsWalk(CallGraph(refs), w) && |w| == |edges| + 1 && w[0] == from && w[|edges|] == to
                        ==> ComesFirst(Stops(from, edges), w)
  {
    hide Ball, Callees, InOrder, ComesFirst, Stops, Follows;
    forall w | IsWalk(CallGraph(refs), w) && |w| == |edges| + 1 && w[0] == from && w[|edges|] == to
      ensures ComesFirst(Stops(from, edges), w)
    {
      PathComesFirst(refs, from, to, edges, nodes, parent, w);
    }
  }

  lemma Start(g: Graph, from: string)
    ensures Scanned(g, 1, [from], map[], 0, 0) && Bfs.IsTail([from], [from]) && Elements([from]) == {from}
    ensures Bfs.LevelDone(g, {from}, 0, [from], map[], map[from := 0], [from])
  {
    assert Bfs.NodeOk(g, {from}, map[], map[from := 0], from);
    StartScan(g, [from]);
  }

  lemma Found(g: Graph, rs: set<string>, nodes: seq<string>, parent: map<string, string>, dist: map<string, nat>,
              to: string, cap: nat)
    requires Bfs.WellFormed(g, rs, nodes, parent, dist) && to in nodes && to in dist && dist[to] <= cap
    ensures IsDistance(g, rs, to, dist[to])
    ensures WithinReach(g, rs, to, cap)
  {
    Bfs.DepthIsDistance(g, rs, nodes, parent, dist, to);
    assert ReachedBy(g, rs, to, dist[to]);
  }

  lemma {:induction false} NotReached(g: Graph, rs: set<string>, nodes: seq<string>, parent: map<string, string>,
                                      dist: map<string, nat>, to: string, cap: nat, frontier: seq<string>)
    requires || Bfs.LevelDone(g, rs, cap, nodes, parent, dist, frontier)
             || (0 < cap && Bfs.Complete(g, rs, cap, |nodes| + 1, nodes))
    requires to !in Elements(nodes)
    ensures !WithinReach(g, rs, to, cap)
  {
    hide Ball, Bfs.WellFormed, Successors;
    BallIsReach(g, rs, to, cap);
  }

  /**
     The row reported for a hop is sure to be a call exactly
     when some call stands on a line before all its other rows.
  */
  lemma HopIsCallIff(refs: seq<RefRow>, a: string, b: string)
    requires exists row :: row in refs && IsHop(row, a, b)
    ensures (forall row :: IsRepresentative(refs, a, b, row) ==> row.kind == CALL) <==>
            exists c :: c in refs && IsHop(c, a, b) && c.kind == CALL && BeforeOthers(refs, a, b, c)
  {
    var first := Representative(refs, a, b).value;
    assert IsRepresentative(refs, a, b, first);
    if forall row :: IsRepresentative(refs, a, b, row) ==> row.kind == CALL {
      forall r | r in refs && IsHop(r, a, b) && r.kind != CALL
        ensures first.line < r.line
      {
        assert !IsRepresentative(refs, a, b, r);
      }
      assert BeforeOthers(refs, a, b, first);
    }
  }

  /** The row stands before every row of the hop that is not a call. */
  ghost predicate BeforeOthers(refs: seq<RefRow>, a: string, b: string, c: RefRow) {
    forall r :: r in refs && IsHop(r, a, b) && r.kind != CALL ==> c.line < r.line
  }

  /** The search follows calls only, yet the row it reports for a hop can be, and here must be, of another kind. */
  lemma HopMayNotBeACall() returns (refs: seq<RefRow>)
    ensures exists edges :: Chains(refs, edges, "a", "b")
    ensures forall edges: seq<RefRow> :: Chains(refs, edges, "a", "b") ==> edges != [] && edges[0].kind != CALL
  {
    hide *;
    var call, other := RefRow("a", "b", CALL, 5), RefRow("a", "b", "type-use", 3);
    refs := [call, other];
    OnlyHop(refs, call, other);
    forall edges: seq<RefRow> | Chains(refs, edges, "a", "b")
      ensures edges != [] && edges[0].kind != CALL
    {
      FirstHop(refs, edges, call, other);
    }
  }

  lemma OnlyHop(refs: seq<RefRow>, call: RefRow, other: RefRow)
    requires refs == [call, other] && call == RefRow("a", "b", CALL, 5) && other == RefRow("a", "b", "type-use", 3)
    ensures Chains(refs, [other], "a", "b")
  {
    CallsOnly(call, other);
    CalleesAreCalls(refs, "a", "b");
    hide Targets, Callees, Representative;
    assert other in refs;
    assert IsRepresentative(refs, "a", "b", other);
  }

  lemma FirstHop(refs: seq<RefRow>, edges: seq<RefRow>, call: RefRow, other: RefRow)
    requires refs == [call, other] && call == RefRow("a", "b", CALL, 5) && other == RefRow("a", "b", "type-use", 3)
    requires Chains(refs, edges, "a", "b")
    ensures edges != [] && edges[0].kind != CALL
  {
    CallsOnly(call, other);
    hide Targets, Callees, Representative;
    CalleesAreCalls(refs, "a", edges[0].toQName);
    assert IsRepresentative(refs, "a", edges[0].toQName, edges[0]);
    assert other in refs;
  }

  lemma CallsOnly(call: RefRow, other: RefRow)
    requires call == RefRow("a", "b", CALL, 5) && other == RefRow("a", "b", "type-use", 3)
    ensures Targets([call, other], "a") == ["b"]
  {
    assert [call, other][..1] == [call] && [call][..0] == [];
    assert Targets([call], "a") == ["b"];
  }
}
