/** The capped multi-root breadth-first traversal and the views of its tree. */
module Bfs {
  import opened Prelude
  import opened Graphs
  import opened Discovery

  const DEFAULT_MAX_DEPTH: nat := 4
  const DEFAULT_MAX_NODES: nat := 500

  /** The caller's successor query: None stands for a query that failed. */
  type Expand = string -> Option<seq<string>>

  datatype Options = Options(maxDepth: int, maxNodes: int)

  datatype BfsError = NoError | TooManyNodes | ExpandFailed(node: string)

  function DepthCap(opts: Options): nat {
    if opts.maxDepth <= 0 then DEFAULT_MAX_DEPTH else opts.maxDepth
  }

  function NodeCap(opts: Options): nat {
    if opts.maxNodes <= 0 then DEFAULT_MAX_NODES else opts.maxNodes
  }

  function NonEmpty(s: seq<string>): (r: seq<string>)
    ensures forall x :: x in r <==> x in s && x != ""
  {
    if s == [] then [] else (if s[0] == "" then [] else [s[0]]) + NonEmpty(s[1..])
  }

  lemma {:induction false} NonEmptyConcat(a: seq<string>, b: seq<string>)
    ensures NonEmpty(a + b) == NonEmpty(a) + NonEmpty(b)
  {
    if a == [] {
      assert [] + b == b;
    } else {
      assert (a + b)[1..] == a[1..] + b;
      NonEmptyConcat(a[1..], b);
    }
  }

  /** Where the j-th id of a list stands among its non-empty ids. */
  lemma NonEmptyStep(s: seq<string>, j: nat)
    requires j < |s|
    ensures var k := |NonEmpty(s[..j])|;
            if s[j] == "" then |NonEmpty(s[..j + 1])| == k
            else |NonEmpty(s[..j + 1])| == k + 1 && k < |NonEmpty(s)| && NonEmpty(s)[k] == s[j]
  {
    assert s[..j + 1] == s[..j] + [s[j]] && s == s[..j + 1] + s[j + 1..];
    NonEmptyConcat(s[..j], [s[j]]);
    NonEmptyConcat(s[..j + 1], s[j + 1..]);
    assert [s[j]][1..] == [];
  }

  /** The graph being traversed: empty ids are not nodes, a failed query has no edges. */
  function GraphOf(expand: Expand): Graph {
    x => if expand(x).Some? then NonEmpty(expand(x).value) else []
  }

  /** The distinct non-empty roots, in input order. */
  function DistinctRoots(roots: seq<string>): (r: seq<string>)
    ensures Distinct(r)
    ensures forall x :: x in r <==> x in roots && x != ""
  {
    if roots == [] then []
    else
      var front, last := DistinctRoots(roots[..|roots| - 1]), roots[|roots| - 1];
      assert roots == roots[..|roots| - 1] + [last];
      if last == "" || last in front then front else front + [last]
  }

  lemma NoRoots(roots: seq<string>)
    ensures DistinctRoots(roots[..0]) == []
  {
  }

  lemma RootStep(roots: seq<string>, k: nat)
    requires k < |roots|
    ensures var front := DistinctRoots(roots[..k]);
            DistinctRoots(roots[..k + 1]) ==
            if roots[k] == "" || roots[k] in front then front else front + [roots[k]]
  {
    assert roots[..k + 1][..k] == roots[..k];
  }

  /** The roots keep their input order, each at its first place. */
  lemma {:induction false} RootsInOrder(roots: seq<string>)
    ensures AsIn(DistinctRoots(roots), roots)
  {
    hide AsIn;
    if roots == [] {
      assert AsIn([], []) by { NoneAsIn(); }
    } else {
      var front, last := roots[..|roots| - 1], roots[|roots| - 1];
      RootsInOrder(front);
      assert roots == front + [last];
      AsInGrows(DistinctRoots(front), front, last);
    }
  }

  lemma NoneAsIn()
    ensures AsIn([], [])
  {
  }

  ghost function RootSet(roots: seq<string>): set<string> {
    Elements(DistinctRoots(roots))
  }

  /** One visited node: its depth is its distance, and a non-root hangs one edge below its parent. */
  ghost predicate NodeOk(g: Graph, rs: set<string>, parent: map<string, string>, depth: map<string, nat>, n: string) {
    && n in depth
    && InShell(g, rs, n, depth[n])
    && (n in parent <==> n !in rs)
    && (n in parent ==> parent[n] in depth && n in g(parent[n]) && depth[n] == depth[parent[n]] + 1)
  }

  ghost predicate DepthsAscend(nodes: seq<string>, depth: map<string, nat>)
    requires forall n :: n in nodes ==> n in depth
  {
    forall i, j :: 0 <= i < j < |nodes| ==> depth[nodes[i]] <= depth[nodes[j]]
  }

  lemma {:induction false} RootsAre(roots: seq<string>)
    ensures RootSet(roots) == Elements(DistinctRoots(roots))
    ensures Distinct(DistinctRoots(roots))
  {
  }

  /** What holds of every tree the traversal can return, cut off or not. */
  ghost predicate WellFormed(g: Graph, rs: set<string>, nodes: seq<string>, parent: map<string, string>,
                             depth: map<string, nat>) {
    && Distinct(nodes)
    && depth.Keys == Elements(nodes)
    && rs <= Elements(nodes)
    && parent.Keys <= Elements(nodes)
    && DepthsAscend(nodes, depth)
    && (forall n {:trigger NodeOk(g, rs, parent, depth, n)} :: n in nodes ==> NodeOk(g, rs, parent, depth, n))
  }

  /** Adding a node leaves the others as they were. */
  lemma OldNodeOk(g: Graph, rs: set<string>, parent: map<string, string>, depth: map<string, nat>, n: string, s: string,
                  cur: string, d: nat)
    requires NodeOk(g, rs, parent, depth, n) && s !in depth
    ensures NodeOk(g, rs, parent[s := cur], depth[s := d], n)
  {
  }

  lemma NewNodeOk(g: Graph, rs: set<string>, parent: map<string, string>, depth: map<string, nat>, cur: string,
                  s: string, d: nat)
    requires NodeOk(g, rs, parent, depth, cur) && depth[cur] == d
    requires s in g(cur) && s !in depth && s !in rs
    requires s !in Ball(g, rs, d)
    ensures NodeOk(g, rs, parent[s := cur], depth[s := d + 1], s)
    ensures s in Ball(g, rs, d + 1)
  {
    StepIntoBall(g, rs, cur, s, d);
  }

  /** A new node found from a node of level d while the ball of radius d is complete. */
  lemma AddNode(g: Graph, rs: set<string>, nodes: seq<string>, parent: map<string, string>, depth: map<string, nat>,
                cur: string, s: string, d: nat)
    requires WellFormed(g, rs, nodes, parent, depth)
    requires forall n :: n in depth ==> depth[n] <= d + 1
    requires Ball(g, rs, d) <= Elements(nodes)
    requires cur in nodes && depth[cur] == d
    requires s in g(cur) && s !in nodes
    ensures WellFormed(g, rs, nodes + [s], parent[s := cur], depth[s := d + 1])
    ensures s in Ball(g, rs, d + 1)
  {
    hide Ball, Successors;
    var nodes', parent', depth' := nodes + [s], parent[s := cur], depth[s := d + 1];
    assert Elements(nodes') == Elements(nodes) + {s};
    assert NodeOk(g, rs, parent, depth, cur);
    NewNodeOk(g, rs, parent, depth, cur, s, d);
    forall n | n in nodes'
      ensures NodeOk(g, rs, parent', depth', n)
    {
      if n != s {
        assert NodeOk(g, rs, parent, depth, n);
        OldNodeOk(g, rs, parent, depth, n, s, cur, d + 1);
      }
    }
  }

  /** The state of the traversal while level d is being expanded. */
  ghost predicate Expanding(g: Graph, rs: set<string>, d: nat, nodes: seq<string>, parent: map<string, string>,
                            depth: map<string, nat>, next: seq<string>, covered: set<string>) {
    && WellFormed(g, rs, nodes, parent, depth)
    && Ball(g, rs, d) <= Elements(nodes) <= Ball(g, rs, d + 1)
    && Elements(next) == Elements(nodes) - Ball(g, rs, d)
    && (forall n :: n in depth ==> depth[n] <= d + 1)
    && covered <= Elements(nodes)
  }

  lemma AddWhileExpanding(g: Graph, rs: set<string>, d: nat, nodes: seq<string>, parent: map<string, string>,
                          depth: map<string, nat>, next: seq<string>, covered: set<string>, cur: string, s: string)
    requires Expanding(g, rs, d, nodes, parent, depth, next, covered)
    requires cur in nodes && cur in depth && depth[cur] == d
    requires s in g(cur) && s !in nodes
    ensures Expanding(g, rs, d, nodes + [s], parent[s := cur], depth[s := d + 1], next + [s], covered)
    ensures s !in depth
  {
    hide Ball, Successors;
    AddNode(g, rs, nodes, parent, depth, cur, s, d);
    assert Elements(nodes + [s]) == Elements(nodes) + {s};
    assert Elements(next + [s]) == Elements(next) + {s};
    hide WellFormed;
  }

  /** A complete level: the visited nodes are exactly the ball of radius d. */
  ghost predicate LevelDone(g: Graph, rs: set<string>, d: nat, nodes: seq<string>, parent: map<string, string>,
                            depth: map<string, nat>, frontier: seq<string>) {
    && WellFormed(g, rs, nodes, parent, depth)
    && Elements(nodes) == Ball(g, rs, d)
    && (forall n :: n in depth ==> depth[n] <= d)
    && (forall n :: n in frontier <==> n in depth && depth[n] == d)
  }

  /** A node just outside the ball of radius d hangs off its outermost shell. */
  lemma NextShell(g: Graph, rs: set<string>, d: nat, v: string)
    requires InShell(g, rs, v, d + 1)
    ensures exists x :: InShell(g, rs, x, d) && v in g(x)
  {
    var x :| x in Ball(g, rs, d) && v in g(x);
    if d > 0 {
      StepIntoBall(g, rs, x, v, d - 1);
    }
    assert InShell(g, rs, x, d) && v in g(x);
  }

  lemma {:induction false} RootsLevel(g: Graph, roots: seq<string>, depth: map<string, nat>)
    requires depth.Keys == RootSet(roots)
    requires forall n :: n in depth ==> depth[n] == 0
    ensures LevelDone(g, RootSet(roots), 0, DistinctRoots(roots), map[], depth, DistinctRoots(roots))
  {
    assert forall n :: n in DistinctRoots(roots) <==> n in RootSet(roots);
  }

  /** Expanding the whole frontier of level d completes level d + 1. */
  lemma LevelCompletes(g: Graph, rs: set<string>, d: nat, frontier: seq<string>, nodes: seq<string>,
                       parent: map<string, string>, depth: map<string, nat>, next: seq<string>)
    requires Expanding(g, rs, d, nodes, parent, depth, next, Successors(g, Elements(frontier)))
    requires forall v :: v in frontier <==> InShell(g, rs, v, d)
    ensures LevelDone(g, rs, d + 1, nodes, parent, depth, next)
  {
    hide Ball;
    forall v | v in Ball(g, rs, d + 1)
      ensures v in nodes
    {
      if v !in Ball(g, rs, d) {
        NextShell(g, rs, d, v);
        var x :| InShell(g, rs, x, d) && v in g(x);
        assert x in Elements(frontier) && v in Successors(g, Elements(frontier));
      }
    }
    forall n | n in depth
      ensures n in next <==> depth[n] == d + 1
    {
      assert NodeOk(g, rs, parent, depth, n);
      assert n in next <==> n in Elements(next);
      if depth[n] <= d {
        BallGrows(g, rs, depth[n], d);
      }
    }
    assert forall n :: n in next ==> n in Elements(next);
  }

  lemma FrontierIsShell(g: Graph, rs: set<string>, d: nat, nodes: seq<string>, parent: map<string, string>,
                        depth: map<string, nat>, frontier: seq<string>)
    requires LevelDone(g, rs, d, nodes, parent, depth, frontier)
    ensures forall v :: v in frontier <==> InShell(g, rs, v, d)
  {
    hide Ball;
    forall v
      ensures v in frontier <==> InShell(g, rs, v, d)
    {
      if v in nodes {
        assert NodeOk(g, rs, parent, depth, v);
        if InShell(g, rs, v, d) {
          ShellUnique(g, rs, v, d, depth[v]);
        }
      }
    }
  }

  /** The depth cap: exactly the ball of that radius is visited, and its outermost shell is not empty. */
  ghost predicate DepthCapped(g: Graph, rs: set<string>, depthCap: nat, nodeCap: nat, nodes: seq<string>)
    requires 0 < depthCap
  {
    Elements(nodes) == Ball(g, rs, depthCap) != Ball(g, rs, depthCap - 1) && |nodes| < nodeCap
  }

  /** The node cap: exactly that many nodes (or all the roots), nearest levels first. */
  ghost predicate NodeCapped(g: Graph, rs: set<string>, depthCap: nat, nodeCap: nat, nodes: seq<string>,
                             depth: map<string, nat>) {
    && |nodes| == Max(nodeCap, |rs|)
    && Elements(nodes) <= Ball(g, rs, depthCap)
    && (forall n :: n in depth && depth[n] > 0 ==> Ball(g, rs, depth[n] - 1) <= Elements(nodes))
  }

  /** No cap: the visited nodes hold the roots and are closed under edges. */
  ghost predicate Complete(g: Graph, rs: set<string>, depthCap: nat, nodeCap: nat, nodes: seq<string>)
    requires 0 < depthCap
  {
    && rs <= Elements(nodes)
    && Successors(g, Elements(nodes)) <= Elements(nodes)
    && Elements(nodes) == Ball(g, rs, depthCap) == Ball(g, rs, depthCap - 1)
    && |nodes| < nodeCap
  }

  lemma NodeCapFires(g: Graph, rs: set<string>, d: nat, maxDepth: nat, nodes: seq<string>, parent: map<string, string>,
                     depth: map<string, nat>)
    requires WellFormed(g, rs, nodes, parent, depth)
    requires Ball(g, rs, d) <= Elements(nodes) <= Ball(g, rs, d + 1)
    requires forall n :: n in depth ==> depth[n] <= d + 1
    requires d < maxDepth
    ensures NodeCapped(g, rs, maxDepth, |nodes|, nodes, depth)
  {
    DistinctCardinality(nodes);
    SubsetCardinality(rs, Elements(nodes));
    BallGrows(g, rs, d + 1, maxDepth);
    forall n | n in depth && depth[n] > 0
      ensures Ball(g, rs, depth[n] - 1) <= Elements(nodes)
    {
      BallGrows(g, rs, depth[n] - 1, d);
    }
  }

  lemma EmptyFrontierIsClosed(g: Graph, rs: set<string>, d: nat, maxDepth: nat, nodes: seq<string>,
                              parent: map<string, string>, depth: map<string, nat>)
    requires LevelDone(g, rs, d, nodes, parent, depth, [])
    requires nodes != [] && d <= maxDepth && 0 < maxDepth
    ensures Complete(g, rs, maxDepth, |nodes| + 1, nodes)
  {
    hide Ball, Successors;
    FrontierIsShell(g, rs, d, nodes, parent, depth, []);
    assert forall v :: !InShell(g, rs, v, d);
    assert d > 0 by {
      assert nodes[0] in nodes;
      assert NodeOk(g, rs, parent, depth, nodes[0]);
    }
    assert Ball(g, rs, d) <= Ball(g, rs, d - 1) by {
      forall v | v in Ball(g, rs, d)
        ensures v in Ball(g, rs, d - 1)
      {
        assert !InShell(g, rs, v, d);
      }
    }
    BallStep(g, rs, d - 1);
    assert Elements(nodes) == Ball(g, rs, d - 1);
    BallFixpoint(g, rs, d - 1, maxDepth);
    BallFixpoint(g, rs, d - 1, maxDepth - 1);
  }

  lemma CoverStep(g: Graph, frontier: seq<string>, i: nat)
    requires i < |frontier|
    ensures Successors(g, Elements(frontier[..i + 1]))
            == Successors(g, Elements(frontier[..i])) + Elements(g(frontier[i]))
  {
    assert frontier[..i + 1] == frontier[..i] + [frontier[i]];
  }

  lemma NoSuccessors(g: Graph)
    ensures Successors(g, {}) == {}
  {
  }

  lemma EmptyRoots(g: Graph, maxDepth: nat, maxNodes: nat)
    requires 0 < maxDepth && 0 < maxNodes
    ensures Complete(g, {}, maxDepth, maxNodes, [])
  {
    BallFixpoint(g, {}, 0, maxDepth);
    BallFixpoint(g, {}, 0, maxDepth - 1);
  }

  lemma TooManyRoots(g: Graph, maxDepth: nat, maxNodes: nat, nodes: seq<string>, depth: map<string, nat>)
    requires Distinct(nodes) && maxNodes <= |nodes|
    requires forall n :: n in depth ==> depth[n] == 0
    ensures NodeCapped(g, Elements(nodes), maxDepth, maxNodes, nodes, depth)
  {
    DistinctCardinality(nodes);
    BallGrows(g, Elements(nodes), 0, maxDepth);
  }

  lemma DepthCapFires(g: Graph, rs: set<string>, maxDepth: nat, nodes: seq<string>, parent: map<string, string>,
                      depth: map<string, nat>, frontier: seq<string>)
    requires LevelDone(g, rs, maxDepth, nodes, parent, depth, frontier)
    requires frontier != [] && 0 < maxDepth
    ensures DepthCapped(g, rs, maxDepth, |nodes| + 1, nodes)
  {
    hide Ball;
    FrontierIsShell(g, rs, maxDepth, nodes, parent, depth, frontier);
    assert frontier[0] in frontier;
  }

  /** The empty id is never visited. */
  lemma NoEmptyNode(expand: Expand, roots: seq<string>, nodes: seq<string>, parent: map<string, string>,
                    depth: map<string, nat>)
    requires WellFormed(GraphOf(expand), RootSet(roots), nodes, parent, depth)
    ensures "" !in nodes
  {
    hide Ball;
    forall n | n in nodes
      ensures n != ""
    {
      assert NodeOk(GraphOf(expand), RootSet(roots), parent, depth, n);
    }
  }

  /** A node at depth 0 is a root, and a root is at depth 0. */
  lemma RootAtZero(g: Graph, rs: set<string>, v: string, d: nat)
    requires InShell(g, rs, v, d)
    ensures d == 0 <==> v in rs
  {
    if v in rs {
      assert InShell(g, rs, v, 0);
      ShellUnique(g, rs, v, 0, d);
    }
  }

  /** The nodes whose recorded parent is node; the missing entry of a root reads as the empty id. */
  function ChildrenOf(nodes: seq<string>, parent: map<string, string>, node: string): (r: seq<string>) {
    if nodes == [] then []
    else
      var front, n := ChildrenOf(nodes[..|nodes| - 1], parent, node), nodes[|nodes| - 1];
      if (if n in parent then parent[n] else "") == node then front + [n] else front
  }

  ghost predicate IsTail(s: seq<string>, of: seq<string>) {
    |s| <= |of| && s == of[|of| - |s|..]
  }

  lemma TailGrows(s: seq<string>, of: seq<string>, x: string)
    requires IsTail(s, of)
    ensures IsTail(s + [x], of + [x])
  {
  }

  /** The roots first, then the nodes in the order in which a search from them finds them. */
  ghost predicate FoundInOrder(g: Graph, roots: seq<string>, nodes: seq<string>, parent: map<string, string>) {
    InOrder(g, |DistinctRoots(roots)|, nodes, parent)
  }

  /** The frontier is the end of the nodes, and everything before it has been gone through. */
  ghost predicate LevelFound(g: Graph, roots: seq<string>, nodes: seq<string>, parent: map<string, string>,
                             frontier: seq<string>) {
    IsTail(frontier, nodes) && Scanned(g, |DistinctRoots(roots)|, nodes, parent, |nodes| - |frontier|, 0)
  }

  /** The queries of the first n nodes were answered. */
  ghost predicate Answered(expand: Expand, nodes: seq<string>, n: int) {
    n <= |nodes| && forall k :: 0 <= k < n ==> expand(nodes[k]).Some?
  }

  /** The traversal stopped before this node: all nodes before it are expanded, its own query failed. */
  ghost predicate StoppedAt(expand: Expand, roots: seq<string>, nodes: seq<string>, parent: map<string, string>,
                            node: string) {
    exists c: nat :: c < |nodes| && nodes[c] == node && expand(node).None? && Answered(expand, nodes, c)
                     && Scanned(GraphOf(expand), |DistinctRoots(roots)|, nodes, parent, c, 0)
  }

  /** No failed query was passed over: whatever was found, all queries up to its parent's were answered. */
  ghost predicate NoneIgnored(expand: Expand, nodes: seq<string>, parent: map<string, string>) {
    forall n :: n in parent ==> Answered(expand, nodes, Place(nodes, parent[n]) + 1)
  }

  ghost predicate AnsweredAbove(expand: Expand, depth: map<string, nat>, d: nat) {
    forall n :: n in depth && depth[n] < d ==> expand(n).Some?
  }

  lemma NoneIgnoredSoFar(expand: Expand, g: Graph, r: nat, nodes: seq<string>, parent: map<string, string>, c: nat,
                         k: nat)
    requires Scanned(g, r, nodes, parent, c, k) && Answered(expand, nodes, if k == 0 then c else c + 1)
    ensures NoneIgnored(expand, nodes, parent)
  {
    hide Place, SeenUpTo, AllSuccessive;
    forall n | n in parent
      ensures Answered(expand, nodes, Place(nodes, parent[n]) + 1)
    {
      assert n in nodes[r..];
      var j :| r <= j < |nodes| && nodes[j] == n;
      assert Passed(g, nodes, parent, c, k, j);
      assert FirstParent(g, nodes, parent, j);
    }
  }

  /** All levels before the last are expanded, and the last one is too when it is empty. */
  lemma LevelsAnswered(expand: Expand, g: Graph, rs: set<string>, d: nat, nodes: seq<string>,
                       parent: map<string, string>, depth: map<string, nat>, frontier: seq<string>, cap: nat)
    requires LevelDone(g, rs, d, nodes, parent, depth, frontier) && IsTail(frontier, nodes)
    requires Answered(expand, nodes, |nodes| - |frontier|) && (d == cap || frontier == [])
    ensures AnsweredAbove(expand, depth, cap)
  {
    hide Ball;
    forall n | n in depth && depth[n] < cap
      ensures expand(n).Some?
    {
      assert n in Elements(nodes);
      BeforeTail(frontier, nodes, n);
    }
  }

  lemma BeforeTail(s: seq<string>, of: seq<string>, x: string)
    requires IsTail(s, of) && x in of && x !in s
    ensures exists k :: 0 <= k < |of| - |s| && of[k] == x
  {
    var lo := |of| - |s|;
    assert of == of[..lo] + s;
  }

  /** One more node has been expanded, to its end or up to the cap. */
  lemma AfterNode(expand: Expand, g: Graph, r: nat, before: seq<string>, nodes: seq<string>,
                  parent: map<string, string>, c: nat, full: bool)
    requires Answered(expand, before, c) && c < |before| && expand(before[c]).Some? && before <= nodes
    requires full ==> exists k: nat :: Scanned(g, r, nodes, parent, c, k)
    requires !full ==> Scanned(g, r, nodes, parent, c + 1, 0)
    ensures Answered(expand, nodes, c + 1) && NoneIgnored(expand, nodes, parent)
  {
    hide Scanned, NoneIgnored;
    OneMoreAnswer(expand, before, c);
    AnswersStay(expand, before, nodes, c + 1);
    if full {
      var k: nat :| Scanned(g, r, nodes, parent, c, k);
      NoneIgnoredSoFar(expand, g, r, nodes, parent, c, k);
    } else {
      NoneIgnoredSoFar(expand, g, r, nodes, parent, c + 1, 0);
    }
  }

  lemma OneMoreAnswer(expand: Expand, nodes: seq<string>, n: nat)
    requires Answered(expand, nodes, n) && n < |nodes| && expand(nodes[n]).Some?
    ensures Answered(expand, nodes, n + 1)
  {
  }

  lemma AnswersStay(expand: Expand, nodes: seq<string>, more: seq<string>, n: int)
    requires Answered(expand, nodes, n) && nodes <= more
    ensures Answered(expand, more, n)
  {
    forall k | 0 <= k < n
      ensures expand(more[k]).Some?
    {
      assert more[k] == nodes[k];
    }
  }

  lemma StoppedFails(expand: Expand, roots: seq<string>, nodes: seq<string>, parent: map<string, string>, node: string)
    requires StoppedAt(expand, roots, nodes, parent, node)
    ensures expand(node).None?
  {
  }

  lemma {:induction false} StopsHere(expand: Expand, roots: seq<string>, nodes: seq<string>,
                                     parent: map<string, string>, c: nat)
    requires c < |nodes| && expand(nodes[c]).None? && Answered(expand, nodes, c)
    requires Scanned(GraphOf(expand), |DistinctRoots(roots)|, nodes, parent, c, 0)
    ensures StoppedAt(expand, roots, nodes, parent, nodes[c])
  {
    hide Scanned, DistinctRoots, Answered;
  }

  /** The frontier is about to be expanded. */
  lemma {:induction false} StartLevel(g: Graph, roots: seq<string>, d: nat, nodes: seq<string>,
                                      parent: map<string, string>, depth: map<string, nat>, frontier: seq<string>)
    requires LevelDone(g, RootSet(roots), d, nodes, parent, depth, frontier)
    requires LevelFound(g, roots, nodes, parent, frontier)
    ensures |frontier| <= |nodes| && IsTail([], nodes)
    ensures forall i :: 0 <= i < |frontier| ==>
              && frontier[i] == nodes[|nodes| - |frontier| + i] && frontier[i] in nodes
              && frontier[i] in depth && depth[frontier[i]] == d
    ensures Expanding(g, RootSet(roots), d, nodes, parent, depth, [], {})
    ensures Successors(g, Elements(frontier[..0])) == {}
    ensures forall v :: v in frontier <==> InShell(g, RootSet(roots), v, d)
    ensures Scanned(g, |DistinctRoots(roots)|, nodes, parent, |nodes| - |frontier|, 0)
    ensures FoundInOrder(g, roots, nodes, parent)
  {
    hide Ball, Successors, RootSet, Scanned, InOrder, WellFormed;
    FrontierIsShell(g, RootSet(roots), d, nodes, parent, depth, frontier);
    BallGrows(g, RootSet(roots), d, d + 1);
    NoSuccessors(g);
    assert Elements(frontier[..0]) == {};
    ScannedInOrder(g, |DistinctRoots(roots)|, nodes, parent, |nodes| - |frontier|, 0);
    assert depth.Keys == Elements(nodes) by { KeysAreNodes(g, RootSet(roots), nodes, parent, depth); }
  }

  lemma KeysAreNodes(g: Graph, rs: set<string>, nodes: seq<string>, parent: map<string, string>,
                     depth: map<string, nat>)
    requires WellFormed(g, rs, nodes, parent, depth)
    ensures depth.Keys == Elements(nodes)
  {
  }

  lemma ExpandingBounds(g: Graph, rs: set<string>, d: nat, nodes: seq<string>, parent: map<string, string>,
                        depth: map<string, nat>, next: seq<string>, covered: set<string>)
    requires Expanding(g, rs, d, nodes, parent, depth, next, covered)
    ensures WellFormed(g, rs, nodes, parent, depth)
    ensures Ball(g, rs, d) <= Elements(nodes) <= Ball(g, rs, d + 1)
    ensures forall n :: n in depth ==> depth[n] <= d + 1
  {
    hide WellFormed, Ball;
  }

  lemma CoverMore(g: Graph, rs: set<string>, d: nat, nodes: seq<string>, parent: map<string, string>,
                  depth: map<string, nat>, next: seq<string>, covered: set<string>, more: set<string>)
    requires Expanding(g, rs, d, nodes, parent, depth, next, covered) && more <= Elements(nodes)
    ensures Expanding(g, rs, d, nodes, parent, depth, next, covered + more)
  {
    hide WellFormed, Ball;
  }

  lemma {:induction false} FoundIs(g: Graph, roots: seq<string>, nodes: seq<string>, parent: map<string, string>)
    ensures FoundInOrder(g, roots, nodes, parent) <==> InOrder(g, |DistinctRoots(roots)|, nodes, parent)
    ensures forall next :: LevelFound(g, roots, nodes, parent, next) <==>
              IsTail(next, nodes) && Scanned(g, |DistinctRoots(roots)|, nodes, parent, |nodes| - |next|, 0)
  {
    hide InOrder, Scanned, DistinctRoots;
  }

  lemma EdgesOf(expand: Expand, cur: string)
    requires expand(cur).Some?
    ensures GraphOf(expand)(cur) == NonEmpty(expand(cur).value)
  {
  }

  /** Once a node has been gone through, all its successors are visited. */
  lemma AllOfNode(g: Graph, r: nat, nodes: seq<string>, parent: map<string, string>, c: nat)
    requires Scanned(g, r, nodes, parent, c + 1, 0)
    ensures Elements(g(nodes[c])) <= Elements(nodes)
  {
    hide AllHang, AllSuccessive;
    assert AllSeen(g(nodes[c]), nodes);
  }

  class Tree {
    var roots: seq<string>
    var nodes: seq<string>
    var parent: map<string, string>
    var depth: map<string, nat>
    var truncated: bool
    var reason: string

    constructor (roots: seq<string>)
      ensures this.roots == roots && nodes == [] && parent == map[] && depth == map[]
      ensures !truncated && reason == ""
    {
      this.roots, nodes, parent, depth, truncated, reason := roots, [], map[], map[], false, "";
    }

    /** The tree of some traversal of g: distances, parents and discovery order are exact. */
    ghost predicate Valid(g: Graph)
      reads this
    {
      WellFormed(g, RootSet(roots), nodes, parent, depth) && "" !in nodes
    }

    /** The chain of ids from the nearest root down to node; empty for an unknown node. */
    method PathFromRoot(ghost g: Graph, node: string) returns (path: seq<string>)
      requires Valid(g)
      ensures node !in nodes ==> path == []
      ensures node in nodes ==>
                && IsWalk(g, path) && path[0] in RootSet(roots) && path[|path| - 1] == node
                && |path| == depth[node] + 1
                && forall k :: 0 <= k < |path| ==> path[k] in depth && depth[path[k]] == k
    {
      hide Ball, RootSet;
      if node !in depth {
        return [];
      }
      var chain := [node];
      var cur := node;
      ghost var rs := RootSet(roots);
      while cur in parent
        invariant |chain| > 0 && chain[0] == node && chain[|chain| - 1] == cur
        invariant cur in nodes && depth[node] == depth[cur] + |chain| - 1
        invariant forall k :: 0 <= k < |chain| - 1 ==> chain[k] in g(chain[k + 1])
        invariant forall k :: 0 <= k < |chain| ==> chain[k] in depth && depth[chain[k]] == depth[node] - k
        decreases depth[cur]
      {
        assert NodeOk(g, rs, parent, depth, cur);
        cur := parent[cur];
        chain := chain + [cur];
      }
      assert NodeOk(g, rs, parent, depth, cur);
      RootAtZero(g, rs, cur, depth[cur]);
      path := ReverseChain(chain);
      ghost var top := |chain| - 1;
      forall k | 0 <= k < |path| - 1
        ensures path[k + 1] in g(path[k])
      {
        assert path[k] == chain[top - k - 1 + 1] && path[k + 1] == chain[top - k - 1];
      }
    }

    /** The direct successors of node in the tree, in discovery order; empty for an unknown node. */
    method Children(node: string) returns (out: seq<string>)
      ensures out == if node in depth then ChildrenOf(nodes, parent, node) else []
    {
      out := [];
      if node !in depth {
        return;
      }
      for k := 0 to |nodes|
        invariant out == ChildrenOf(nodes[..k], parent, node)
      {
        var n := nodes[k];
        assert nodes[..k + 1][..k] == nodes[..k];
        if (if n in parent then parent[n] else "") == node {
          out := out + [n];
        }
      }
      assert nodes[..|nodes|] == nodes;
    }

    /** The largest depth in the tree, 0 when it is empty. */
    method MaxDepthHint() returns (max: nat)
      ensures forall n :: n in depth ==> depth[n] <= max
      ensures if depth == map[] then max == 0 else exists n :: n in depth && depth[n] == max
    {
      max := 0;
      var todo := depth.Keys;
      while todo != {}
        invariant todo <= depth.Keys
        invariant forall n :: n in depth && n !in todo ==> depth[n] <= max
        invariant max == 0 || exists n :: n in depth && depth[n] == max
        decreases todo
      {
        var n :| n in todo;
        todo := todo - {n};
        if depth[n] > max {
          max := depth[n];
        }
      }
      if depth != map[] && max == 0 {
        var n :| n in depth;
        assert depth[n] == max;
      }
    }

    /** Puts the distinct non-empty roots in, at depth 0. */
    method AddRoots(ghost g: Graph) returns (visited: set<string>, frontier: seq<string>)
      requires nodes == [] && parent == map[] && depth == map[]
      modifies this`nodes, this`depth
      ensures forall n :: n in depth ==> depth[n] == 0
      ensures Distinct(nodes)
      ensures nodes == frontier == DistinctRoots(roots)
      ensures visited == Elements(nodes)
      ensures LevelDone(g, RootSet(roots), 0, nodes, parent, depth, frontier)
      ensures LevelFound(g, roots, nodes, parent, frontier)
      ensures parent == map[]
    {
      hide WellFormed, LevelDone, DistinctRoots, Scanned;
      NoRoots(roots);
      visited, frontier := {}, [];
      for k := 0 to |roots|
        invariant nodes == frontier == DistinctRoots(roots[..k])
        invariant visited == Elements(nodes)
        invariant depth.Keys == visited && forall n :: n in depth ==> depth[n] == 0
      {
        var r := roots[k];
        RootStep(roots, k);
        if r == "" || r in visited {
          continue;
        }
        visited := visited + {r};
        depth := depth[r := 0];
        nodes := nodes + [r];
        frontier := frontier + [r];
      }
      assert roots[..|roots|] == roots;
      RootsLevel(g, roots, depth);
      StartScan(g, nodes);
    }

    /** Adds the unseen successors of one node of level d. */
    method ExpandNode(ghost g: Graph, d: nat, cur: string, succs: seq<string>, maxNodes: nat, visited: set<string>,
                      next: seq<string>, ghost covered: set<string>, ghost r: nat, ghost c: nat)
      returns (visited': set<string>, next': seq<string>, full: bool)
      requires Expanding(g, RootSet(roots), d, nodes, parent, depth, next, covered)
      requires cur in nodes && cur in depth && depth[cur] == d
      requires g(cur) == NonEmpty(succs)
      requires c < |nodes| && nodes[c] == cur && Scanned(g, r, nodes, parent, c, 0) && IsTail(next, nodes)
      requires visited == Elements(nodes) && |nodes| < maxNodes
      requires !truncated && reason == ""
      modifies this`nodes, this`parent, this`depth, this`truncated, this`reason
      ensures old(nodes) <= nodes && visited' == Elements(nodes)
      ensures forall n :: n in old(depth) ==> n in depth && depth[n] == old(depth[n])
      ensures Expanding(g, RootSet(roots), d, nodes, parent, depth, next', covered)
      ensures truncated <==> full
      ensures reason == if full then "max_nodes" else ""
      ensures full ==> |nodes| == maxNodes
      ensures !full ==> |nodes| < maxNodes && Elements(g(cur)) <= Elements(nodes)
      ensures IsTail(next', nodes) && |nodes| - |next'| == |old(nodes)| - |next|
      ensures InOrder(g, r, nodes, parent) && (!full ==> Scanned(g, r, nodes, parent, c + 1, 0))
      ensures full ==> exists k: nat :: Scanned(g, r, nodes, parent, c, k)
    {
      hide Ball, Successors, WellFormed, Scanned, InOrder, Expanding, IsTail, RootSet;
      visited', next', full := visited, next, false;
      assert NonEmpty(succs[..0]) == [];
      for j := 0 to |succs|
        invariant !truncated && reason == "" && old(nodes) <= nodes && |nodes| < maxNodes
        invariant Expanding(g, RootSet(roots), d, nodes, parent, depth, next', covered)
        invariant forall n :: n in old(depth) ==> n in depth && depth[n] == old(depth[n])
        invariant cur in nodes
        invariant visited' == Elements(nodes)
        invariant nodes[c] == cur && Scanned(g, r, nodes, parent, c, |NonEmpty(succs[..j])|)
        invariant IsTail(next', nodes) && |nodes| - |next'| == |old(nodes)| - |next|
      {
        var s := succs[j];
        ghost var k := |NonEmpty(succs[..j])|;
        NonEmptyStep(succs, j);
        if s == "" || s == cur || s in visited' {
          if s != "" {
            SkipSeen(g, r, nodes, parent, c, k);
          }
          continue;
        }
        TakeNew(g, r, nodes, parent, c, k);
        TailGrows(next', nodes, s);
        AddWhileExpanding(g, RootSet(roots), d, nodes, parent, depth, next', covered, cur, s);
        visited' := visited' + {s};
        parent := parent[s := cur];
        depth := depth[s := d + 1];
        nodes := nodes + [s];
        next' := next' + [s];
        if |nodes| >= maxNodes {
          truncated, reason, full := true, "max_nodes", true;
          ScannedInOrder(g, r, nodes, parent, c, k + 1);
          return;
        }
      }
      assert succs[..|succs|] == succs;
      NextNode(g, r, nodes, parent, c);
      ScannedInOrder(g, r, nodes, parent, c + 1, 0);
      AllOfNode(g, r, nodes, parent, c);
    }

    /** Expands one level; next is the frontier of the level after it. */
    method ExpandLevel(expand: Expand, d: nat, frontier: seq<string>, maxNodes: nat, visited: set<string>)
      returns (visited': set<string>, next: seq<string>, err: BfsError)
      requires LevelDone(GraphOf(expand), RootSet(roots), d, nodes, parent, depth, frontier)
      requires visited == Elements(nodes) && |nodes| < maxNodes
      requires !truncated && reason == ""
      requires LevelFound(GraphOf(expand), roots, nodes, parent, frontier)
      requires Answered(expand, nodes, |nodes| - |frontier|)
      modifies this`nodes, this`parent, this`depth, this`truncated, this`reason
      ensures old(nodes) <= nodes && visited' == Elements(nodes)
      ensures FoundInOrder(GraphOf(expand), roots, nodes, parent)
      ensures err.NoError? ==> LevelFound(GraphOf(expand), roots, nodes, parent, next)
      ensures WellFormed(GraphOf(expand), RootSet(roots), nodes, parent, depth)
      ensures truncated <==> err == TooManyNodes
      ensures reason == if truncated then "max_nodes" else ""
      ensures err.NoError? ==> LevelDone(GraphOf(expand), RootSet(roots), d + 1, nodes, parent, depth, next)
      ensures err.NoError? ==> |nodes| < maxNodes
      ensures err.NoError? ==> Answered(expand, nodes, |nodes| - |next|)
      ensures NoneIgnored(expand, nodes, parent)
      ensures err.ExpandFailed? ==>
                && StoppedAt(expand, roots, nodes, parent, err.node)
                && err.node in depth && depth[err.node] == d
      ensures err.TooManyNodes? ==> |nodes| == maxNodes
      ensures Ball(GraphOf(expand), RootSet(roots), d) <= visited' <= Ball(GraphOf(expand), RootSet(roots), d + 1)
      ensures forall n :: n in depth ==> depth[n] <= d + 1
    {
      hide *;
      ghost var g, rs := GraphOf(expand), RootSet(roots);
      ghost var r, lo := |DistinctRoots(roots)|, |nodes| - |frontier|;
      StartLevel(g, roots, d, nodes, parent, depth, frontier);
      NoneIgnoredSoFar(expand, g, r, nodes, parent, lo, 0);
      visited', next, err := visited, [], NoError;
      ghost var covered: set<string> := {};
      for i := 0 to |frontier|
        invariant !truncated && reason == "" && old(nodes) <= nodes && |nodes| < maxNodes
        invariant covered == Successors(g, Elements(frontier[..i]))
        invariant Expanding(g, rs, d, nodes, parent, depth, next, covered)
        invariant forall n :: n in old(depth) ==> n in depth && depth[n] == old(depth[n])
        invariant visited' == Elements(nodes)
        invariant Scanned(g, r, nodes, parent, lo + i, 0) && FoundInOrder(g, roots, nodes, parent)
        invariant IsTail(next, nodes) && |nodes| - |next| == |old(nodes)|
        invariant Answered(expand, nodes, lo + i) && NoneIgnored(expand, nodes, parent)
      {
        ExpandingBounds(g, rs, d, nodes, parent, depth, next, covered);
        var cur := frontier[i];
        assert nodes[lo + i] == old(nodes)[lo + i] == cur;
        var succs := expand(cur);
        if succs.None? {
          StopsHere(expand, roots, nodes, parent, lo + i);
          err := ExpandFailed(cur);
          return;
        }
        EdgesOf(expand, cur);
        ghost var before := nodes;
        var full: bool;
        visited', next, full := ExpandNode(g, d, cur, succs.value, maxNodes, visited', next, covered, r,
                                           lo + i);
        AfterNode(expand, g, r, before, nodes, parent, lo + i, full);
        ExpandingBounds(g, rs, d, nodes, parent, depth, next, covered);
        FoundIs(g, roots, nodes, parent);
        if full {
          err := TooManyNodes;
          return;
        }
        CoverStep(g, frontier, i);
        CoverMore(g, rs, d, nodes, parent, depth, next, covered, Elements(g(cur)));
        covered := covered + Elements(g(cur));
      }
      assert frontier[..|frontier|] == frontier;
      ExpandingBounds(g, rs, d, nodes, parent, depth, next, covered);
      LevelCompletes(g, rs, d, frontier, nodes, parent, depth, next);
      FoundIs(g, roots, nodes, parent);
    }
  }

  /** Which error, truncation flag and reason belong to a returned tree. */
  ghost predicate Outcome(expand: Expand, roots: seq<string>, opts: Options, nodes: seq<string>,
                          depth: map<string, nat>, truncated: bool, reason: string, err: BfsError) {
    var g, rs := GraphOf(expand), RootSet(roots);
    match err
    case ExpandFailed(node) =>
      !truncated && reason == "" && expand(node).None? && node in depth && depth[node] < DepthCap(opts)
    case TooManyNodes =>
      truncated && reason == "max_nodes" && NodeCapped(g, rs, DepthCap(opts), NodeCap(opts), nodes, depth)
    case NoError =>
      && AnsweredAbove(expand, depth, DepthCap(opts))
      && if truncated then reason == "max_depth" && DepthCapped(g, rs, DepthCap(opts), NodeCap(opts), nodes)
         else reason == "" && Complete(g, rs, DepthCap(opts), NodeCap(opts), nodes)
  }

  method BFS(roots: seq<string>, expand: Expand, opts: Options) returns (t: Tree, err: BfsError)
    ensures fresh(t) && t.roots == roots
    ensures t.Valid(GraphOf(expand))
    ensures DistinctRoots(roots) <= t.nodes
    ensures FoundInOrder(GraphOf(expand), roots, t.nodes, t.parent)
    ensures Outcome(expand, roots, opts, t.nodes, t.depth, t.truncated, t.reason, err)
    ensures err.ExpandFailed? ==> StoppedAt(expand, roots, t.nodes, t.parent, err.node)
    ensures NoneIgnored(expand, t.nodes, t.parent)
  {
    hide Ball, Successors, WellFormed, DistinctRoots, RootSet, GraphOf, Scanned, InOrder, StoppedAt;
    ghost var g, rs := GraphOf(expand), RootSet(roots);
    var maxDepth, maxNodes := DepthCap(opts), NodeCap(opts);
    t := new Tree(roots);
    err := NoError;
    var visited, frontier := t.AddRoots(g);
    assert rs == Elements(frontier) by { RootsAre(roots); }
    ScannedInOrder(g, |DistinctRoots(roots)|, t.nodes, t.parent, 0, 0);
    if |frontier| == 0 {
      assert rs == {} && t.nodes == [];
      EmptyRoots(g, maxDepth, maxNodes);
      assert "" !in t.nodes;
      return;
    }
    if |t.nodes| >= maxNodes {
      t.truncated, t.reason := true, "max_nodes";
      TooManyRoots(g, maxDepth, maxNodes, t.nodes, t.depth);
      NoEmptyNode(expand, roots, t.nodes, t.parent, t.depth);
      err := TooManyNodes;
      return;
    }
    var depth := 0;
    while depth < maxDepth
      invariant 0 <= depth <= maxDepth
      invariant t.roots == roots && !t.truncated && t.reason == ""
      invariant LevelDone(g, rs, depth, t.nodes, t.parent, t.depth, frontier)
      invariant visited == Elements(t.nodes) && t.nodes != [] && err == NoError
      invariant DistinctRoots(roots) <= t.nodes
      invariant |t.nodes| < maxNodes
      invariant Answered(expand, t.nodes, |t.nodes| - |frontier|) && NoneIgnored(expand, t.nodes, t.parent)
      invariant FoundInOrder(g, roots, t.nodes, t.parent) && LevelFound(g, roots, t.nodes, t.parent, frontier)
    {
      if |frontier| == 0 {
        break;
      }
      visited, frontier, err := t.ExpandLevel(expand, depth, frontier, maxNodes, visited);
      NoEmptyNode(expand, roots, t.nodes, t.parent, t.depth);
      if err.TooManyNodes? {
        NodeCapFires(g, rs, depth, maxDepth, t.nodes, t.parent, t.depth);
        return;
      }
      if err.ExpandFailed? {
        StoppedFails(expand, roots, t.nodes, t.parent, err.node);
        return;
      }
      depth := depth + 1;
    }
    NoEmptyNode(expand, roots, t.nodes, t.parent, t.depth);
    LevelsAnswered(expand, g, rs, depth, t.nodes, t.parent, t.depth, frontier, maxDepth);
    if |frontier| > 0 {
      t.truncated, t.reason := true, "max_depth";
      DepthCapFires(g, rs, depth, t.nodes, t.parent, t.depth, frontier);
    } else {
      EmptyFrontierIsClosed(g, rs, depth, maxDepth, t.nodes, t.parent, t.depth);
    }
  }

  /** The depth of a visited node is its distance from the nearest root, whatever cut the traversal short. */
  lemma DepthIsDistance(g: Graph, rs: set<string>, nodes: seq<string>, parent: map<string, string>,
                        depth: map<string, nat>, n: string)
    requires WellFormed(g, rs, nodes, parent, depth) && n in nodes
    ensures IsDistance(g, rs, n, depth[n])
  {
    assert NodeOk(g, rs, parent, depth, n);
    ShellIsDistance(g, rs, n, depth[n]);
  }

  /** A traversal that is neither cut off nor failed has visited exactly what the roots reach. */
  lemma UntruncatedIsComplete(expand: Expand, roots: seq<string>, opts: Options, nodes: seq<string>,
                              depth: map<string, nat>, reason: string, v: string)
    requires Outcome(expand, roots, opts, nodes, depth, false, reason, NoError)
    ensures v in nodes <==> exists n: nat :: ReachedBy(GraphOf(expand), RootSet(roots), v, n)
  {
    hide Ball, Successors, GraphOf, RootSet;
    var g, rs, cap := GraphOf(expand), RootSet(roots), DepthCap(opts);
    assert v in nodes <==> v in Elements(nodes);
    if v in nodes {
      BallIsReach(g, rs, v, cap);
    }
    if n: nat :| ReachedBy(g, rs, v, n) {
      ClosedHoldsReach(g, rs, Elements(nodes), v, n);
    }
  }

  /** Exactly when a traversal without a failed query is flagged, and by which cap. */
  lemma TruncationIsExact(expand: Expand, roots: seq<string>, opts: Options, nodes: seq<string>,
                          parent: map<string, string>, depth: map<string, nat>, truncated: bool, reason: string,
                          err: BfsError)
    requires WellFormed(GraphOf(expand), RootSet(roots), nodes, parent, depth)
    requires Outcome(expand, roots, opts, nodes, depth, truncated, reason, err)
    requires !err.ExpandFailed?
    ensures var depthCap: nat := if opts.maxDepth > 0 then opts.maxDepth else 4;
            var nodeCap: nat := if opts.maxNodes > 0 then opts.maxNodes else 500;
            var ball := Ball(GraphOf(expand), RootSet(roots), depthCap);
            var inner := Ball(GraphOf(expand), RootSet(roots), depthCap - 1);
            && (reason == "max_nodes" <==> |ball| >= nodeCap)
            && (reason == "max_depth" <==> |ball| < nodeCap && ball != inner)
            && (truncated <==> |ball| >= nodeCap || ball != inner)
  {
    hide Ball, GraphOf, RootSet;
    DistinctCardinality(nodes);
    SubsetCardinality(Elements(nodes), Ball(GraphOf(expand), RootSet(roots), DepthCap(opts)));
  }

  /** Two finite sets, one in the other, of one size are the same. */
  lemma SameSize(a: set<string>, b: set<string>)
    requires a <= b && |a| == |b|
    ensures a == b
  {
    assert b == a + (b - a);
  }

  /**
     When the flag is set although nothing is missing: the ball of radius MaxDepth is closed under edges, and either
     it is below the node cap with nodes at the last level, or the cap was reached with the very last node of it.
   */
  lemma TruncatedThoughCompleteIff(expand: Expand, roots: seq<string>, opts: Options, nodes: seq<string>,
                                   parent: map<string, string>, depth: map<string, nat>, truncated: bool,
                                   reason: string, err: BfsError)
    requires WellFormed(GraphOf(expand), RootSet(roots), nodes, parent, depth)
    requires Outcome(expand, roots, opts, nodes, depth, truncated, reason, err)
    requires !err.ExpandFailed?
    ensures var g, rs := GraphOf(expand), RootSet(roots);
            var depthCap: nat := if opts.maxDepth > 0 then opts.maxDepth else 4;
            var nodeCap: nat := if opts.maxNodes > 0 then opts.maxNodes else 500;
            var ball, inner := Ball(g, rs, depthCap), Ball(g, rs, depthCap - 1);
            truncated && Successors(g, Elements(nodes)) <= Elements(nodes) <==>
            && Successors(g, ball) <= ball
            && ((|ball| < nodeCap && ball != inner) || |ball| == Max(nodeCap, |rs|))
  {
    hide Ball, GraphOf, RootSet, Successors;
    var g, rs := GraphOf(expand), RootSet(roots);
    var visited, ball := Elements(nodes), Ball(g, rs, DepthCap(opts));
    DistinctCardinality(nodes);
    if Successors(g, visited) <= visited {
      ClosedHoldsBall(g, rs, visited, DepthCap(opts));
    }
    FlagOfComplete(visited, ball, Ball(g, rs, DepthCap(opts) - 1), NodeCap(opts), |rs|,
                   Successors(g, visited) <= visited, Successors(g, ball) <= ball, truncated);
  }

  lemma FlagOfComplete(visited: set<string>, ball: set<string>, inner: set<string>, nodeCap: nat, roots: nat,
                       closed: bool, ballClosed: bool, truncated: bool)
    requires visited <= ball && (closed ==> ball <= visited) && (visited == ball ==> (closed <==> ballClosed))
    requires || (truncated && |visited| == Max(nodeCap, roots))
             || (truncated && visited == ball != inner && |visited| < nodeCap)
             || (!truncated && visited == ball == inner && |visited| < nodeCap)
    ensures truncated && closed <==>
            ballClosed && ((|ball| < nodeCap && ball != inner) || |ball| == Max(nodeCap, roots))
  {
    SubsetCardinality(visited, ball);
    assert closed ==> visited == ball;
    if |visited| == |ball| {
      SameSize(visited, ball);
    }
  }

  /** Two nodes, one edge. */
  function OneEdge(): Expand {
    x => if x == "a" then Some(["b"]) else Some([])
  }

  lemma OneEdgeBalls()
    ensures RootSet(["a"]) == {"a"}
    ensures Ball(GraphOf(OneEdge()), {"a"}, 0) == {"a"}
    ensures Ball(GraphOf(OneEdge()), {"a"}, 1) == {"a", "b"}
    ensures Successors(GraphOf(OneEdge()), {"a", "b"}) == {"b"}
  {
    var g := GraphOf(OneEdge());
    assert DistinctRoots(["a"]) == ["a"];
    assert g("a") == ["b"] by {
      assert NonEmpty(["b"]) == ["b"];
    }
    assert g("b") == [];
    assert Successors(g, {"a"}) == {"b"} by {
      assert "b" in g("a");
    }
  }

  /** The flag can be set although nothing is missing: everything reachable is visited, yet cap 1 is reported. */
  lemma TruncatedYetComplete(nodes: seq<string>, parent: map<string, string>, depth: map<string, nat>, truncated: bool,
                             reason: string, err: BfsError)
    requires WellFormed(GraphOf(OneEdge()), RootSet(["a"]), nodes, parent, depth)
    requires Outcome(OneEdge(), ["a"], Options(1, 500), nodes, depth, truncated, reason, err)
    ensures truncated && reason == "max_depth" && Elements(nodes) == {"a", "b"}
    ensures Successors(GraphOf(OneEdge()), Elements(nodes)) <= Elements(nodes)
  {
    hide Ball, GraphOf, RootSet, WellFormed;
    OneEdgeBalls();
    assert !err.ExpandFailed?;
    TruncationIsExact(OneEdge(), ["a"], Options(1, 500), nodes, parent, depth, truncated, reason, err);
    assert "b" !in {"a"};
    assert |{"a", "b"}| == 2;
  }

  lemma {:induction false} ChildrenOfMembers(nodes: seq<string>, parent: map<string, string>, node: string, n: string)
    requires node != ""
    ensures n in ChildrenOf(nodes, parent, node) <==> n in nodes && n in parent && parent[n] == node
  {
    if nodes != [] {
      ChildrenOfMembers(nodes[..|nodes| - 1], parent, node, n);
      assert nodes == nodes[..|nodes| - 1] + [nodes[|nodes| - 1]];
    }
  }

  lemma {:induction false} ChildrenOfDistinct(nodes: seq<string>, parent: map<string, string>, node: string)
    requires Distinct(nodes) && node != ""
    ensures Distinct(ChildrenOf(nodes, parent, node))
  {
    if nodes != [] {
      var front, last := nodes[..|nodes| - 1], nodes[|nodes| - 1];
      ChildrenOfDistinct(front, parent, node);
      ChildrenOfMembers(front, parent, node, last);
    }
  }

  /** The children of a node stand in discovery order. */
  lemma {:induction false} ChildrenInOrder(nodes: seq<string>, parent: map<string, string>, node: string)
    requires Distinct(nodes) && node != ""
    ensures AsIn(ChildrenOf(nodes, parent, node), nodes)
  {
    hide AsIn, Place;
    if nodes == [] {
      NoneAsIn();
    } else {
      var front, last := nodes[..|nodes| - 1], nodes[|nodes| - 1];
      ChildrenInOrder(front, parent, node);
      assert nodes == front + [last];
      forall n | n in ChildrenOf(front, parent, node)
        ensures n in front
      {
        ChildrenOfMembers(front, parent, node, n);
      }
      AsInGrows(ChildrenOf(front, parent, node), front, last);
    }
  }

  /** The children of a node stand in the order of its successor list. */
  lemma {:induction false} ChildrenAsSuccessors(g: Graph, r: nat, nodes: seq<string>, parent: map<string, string>,
                                                node: string)
    requires InOrder(g, r, nodes, parent) && Distinct(nodes) && node != ""
    ensures AsIn(ChildrenOf(nodes, parent, node), g(node))
  {
    hide InOrder, Place, Distinct;
    ChildrenInOrder(nodes, parent, node);
    var s := ChildrenOf(nodes, parent, node);
    ChildrenOfDistinct(nodes, parent, node);
    forall i, j | 0 <= i < j < |s|
      ensures Place(g(node), s[i]) < Place(g(node), s[j])
    {
      ChildrenOfMembers(nodes, parent, node, s[i]);
      ChildrenOfMembers(nodes, parent, node, s[j]);
      Siblings(g, r, nodes, parent, s[i], s[j]);
    }
  }

  lemma {:induction false} Siblings(g: Graph, r: nat, nodes: seq<string>, parent: map<string, string>, p: string,
                                    q: string)
    requires InOrder(g, r, nodes, parent) && Distinct(nodes)
    requires p in nodes && q in nodes && p in parent && q in parent && parent[p] == parent[q]
    requires Place(nodes, p) < Place(nodes, q)
    ensures Place(g(parent[p]), p) < Place(g(parent[p]), q)
  {
    hide InOrder, Place;
    HangsBelow(g, r, nodes, parent, q);
    StepBack(g, r, nodes, parent, p, q, parent[q]);
  }

  /** Of two traversals of one graph, whatever their caps, the smaller tree is the beginning of the larger one. */
  lemma {:induction false} CapsCutTheEnd(expand: Expand, roots: seq<string>, a: seq<string>, pa: map<string, string>,
                                         da: map<string, nat>, b: seq<string>, pb: map<string, string>,
                                         db: map<string, nat>)
    requires WellFormed(GraphOf(expand), RootSet(roots), a, pa, da) && DistinctRoots(roots) <= a
    requires WellFormed(GraphOf(expand), RootSet(roots), b, pb, db) && DistinctRoots(roots) <= b
    requires FoundInOrder(GraphOf(expand), roots, a, pa) && FoundInOrder(GraphOf(expand), roots, b, pb)
    requires |a| <= |b|
    ensures a <= b
    ensures forall n :: n in pa ==> n in pb && pa[n] == pb[n]
  {
    var r := |DistinctRoots(roots)|;
    assert Distinct(a) && Distinct(b);
    hide WellFormed, DistinctRoots, Distinct, InOrder, GraphOf, RootSet;
    assert a[..r] == b[..r];
    OneOrder(GraphOf(expand), r, a, pa, b, pb, |a|);
    assert a[..|a|] == a;
    forall n | n in pa
      ensures n in pb && pa[n] == pb[n]
    {
      HangsBelow(GraphOf(expand), r, a, pa, n);
    }
  }

  /** The children lists partition the non-root nodes: each is once in one list, and no root is in any. */
  lemma {:induction false} ChildrenPartition(g: Graph, rs: set<string>, nodes: seq<string>, parent: map<string, string>,
                                             depth: map<string, nat>, n: string)
    requires WellFormed(g, rs, nodes, parent, depth) && "" !in nodes && n in nodes
    ensures n !in rs ==> exists m :: m in nodes && n in ChildrenOf(nodes, parent, m)
    ensures forall m :: m in nodes ==>
              && Distinct(ChildrenOf(nodes, parent, m))
              && (n in ChildrenOf(nodes, parent, m) <==> n in parent && parent[n] == m)
  {
    assert NodeOk(g, rs, parent, depth, n);
    forall m | m in nodes
      ensures Distinct(ChildrenOf(nodes, parent, m))
      ensures n in ChildrenOf(nodes, parent, m) <==> n !in rs && parent[n] == m
    {
      assert NodeOk(g, rs, parent, depth, m);
      ChildrenOfDistinct(nodes, parent, m);
      ChildrenOfMembers(nodes, parent, m, n);
    }
    if n !in rs {
      assert parent[n] in nodes;
    }
  }
}
