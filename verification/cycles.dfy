/** Import-cycle detection: a depth-first search that reports one cycle for each back edge. */
module Cycles {
  import opened Prelude
  import opened Ordering
  import opened CycleKeys

  /** One row of the import query: a package and an indexed package it imports. */
  datatype ImportRow = ImportRow(from: string, to: string)

  /** The import graph: self-imports are not edges. */
  predicate Imports(rows: seq<ImportRow>, u: string, v: string) {
    ImportRow(u, v) in rows && u != v
  }

  /** The name after the i-th on a closed walk. */
  function Next(c: seq<string>, i: nat): string
    requires i < |c|
  {
    if i + 1 < |c| then c[i + 1] else c[0]
  }

  /** A closed walk: every name imports the next, the last imports the first. */
  ghost predicate IsCycle(rows: seq<ImportRow>, c: seq<string>) {
    c != [] && forall i :: 0 <= i < |c| ==> Imports(rows, c[i], Next(c, i))
  }

  ghost predicate SimpleCycle(rows: seq<ImportRow>, c: seq<string>) {
    Simple(c) && IsCycle(rows, c)
  }

  ghost predicate Acyclic(rows: seq<ImportRow>) {
    forall c :: !IsCycle(rows, c)
  }

  function Succ(adj: map<string, seq<string>>, u: string): seq<string> {
    if u in adj then adj[u] else []
  }

  /** What u imports, in row order; self-imports are left out. */
  function TargetsOf(rows: seq<ImportRow>, u: string): seq<string> {
    if rows == [] then []
    else
      var front, row := TargetsOf(rows[..|rows| - 1], u), rows[|rows| - 1];
      if row.from == u && row.to != u then front + [row.to] else front
  }

  lemma {:induction false} TargetsAreImports(rows: seq<ImportRow>, u: string, v: string)
    ensures v in TargetsOf(rows, u) <==> Imports(rows, u, v)
  {
    if rows != [] {
      TargetsAreImports(rows[..|rows| - 1], u, v);
      assert rows == rows[..|rows| - 1] + [rows[|rows| - 1]];
    }
  }

  lemma {:induction false} TargetsConcat(a: seq<ImportRow>, b: seq<ImportRow>, u: string)
    ensures TargetsOf(a + b, u) == TargetsOf(a, u) + TargetsOf(b, u)
  {
    if b == [] {
      assert a + b == a;
    } else {
      var front, row := b[..|b| - 1], b[|b| - 1];
      TargetsConcat(a, front, u);
      assert (a + b)[..|a + b| - 1] == a + front && (a + b)[|a + b| - 1] == row;
    }
  }

  ghost function Importers(rows: seq<ImportRow>): set<string> {
    set row | row in rows && row.from != row.to :: row.from
  }

  /** The adjacency map holds the targets of every node in row order, and a key for every node that has one. */
  ghost predicate Adjacency(rows: seq<ImportRow>, adj: map<string, seq<string>>) {
    && adj.Keys == Importers(rows)
    && forall u {:trigger TargetsOf(rows, u)} :: Succ(adj, u) == TargetsOf(rows, u)
  }

  method BuildAdjacency(rows: seq<ImportRow>) returns (adj: map<string, seq<string>>)
    ensures Adjacency(rows, adj)
  {
    adj := map[];
    for k := 0 to |rows|
      invariant Adjacency(rows[..k], adj)
    {
      var row := rows[k];
      ghost var before := adj;
      if row.from != row.to {
        adj := adj[row.from := Succ(adj, row.from) + [row.to]];
      }
      AdjacencyStep(rows, k, before, adj);
    }
    assert rows[..|rows|] == rows;
  }

  lemma AdjacencyStep(rows: seq<ImportRow>, k: nat, adj: map<string, seq<string>>, adj': map<string, seq<string>>)
    requires k < |rows| && Adjacency(rows[..k], adj)
    requires var row := rows[k];
             adj' == if row.from == row.to then adj else adj[row.from := Succ(adj, row.from) + [row.to]]
    ensures Adjacency(rows[..k + 1], adj')
  {
    var row := rows[k];
    assert rows[..k + 1] == rows[..k] + [row];
    forall u
      ensures Succ(adj', u) == TargetsOf(rows[..k + 1], u)
    {
      assert rows[..k + 1][..k] == rows[..k];
      assert Succ(adj, u) == TargetsOf(rows[..k], u);
    }
    assert Importers(rows[..k + 1]) == Importers(rows[..k]) + if row.from == row.to then {} else {row.from};
  }

  /** Where the search stands: finishing order, keys, reports, and from where each node was first entered. */
  datatype Run = Run(rank: map<string, nat>, clock: nat, seen: set<string>, cycles: seq<seq<string>>,
                     parent: map<string, string>)

  /** Each node of the list was first entered from the one before it. */
  ghost predicate TreePath(parent: map<string, string>, c: seq<string>) {
    forall i {:trigger c[i]} :: 0 < i < |c| ==> c[i] in parent && parent[c[i]] == c[i - 1]
  }

  /** The edge closes a way of first entries, and the key of that cycle has been seen. */
  ghost predicate Covered(rows: seq<ImportRow>, st: Run, u: string, v: string) {
    exists c :: CoveredBy(rows, st, c, u, v)
  }

  ghost predicate CoveredBy(rows: seq<ImportRow>, st: Run, c: seq<string>, u: string, v: string) {
    SimpleCycle(rows, c) && Closes(c, u, v) && TreePath(st.parent, c) && Key(c) in st.seen
  }

  /** The closing edge of c leads from u to v. */
  predicate Closes(c: seq<string>, u: string, v: string) {
    c != [] && c[0] == v && c[|c| - 1] == u
  }

  /** An edge of a finished node: it closes a seen cycle, or its head was finished earlier. */
  ghost predicate EdgeDone(rows: seq<ImportRow>, st: Run, u: string, v: string) {
    Covered(rows, st, u, v) || (u in st.rank && v in st.rank && st.rank[v] < st.rank[u])
  }

  ghost predicate AllEdgesDone(rows: seq<ImportRow>, st: Run) {
    forall u, v {:trigger EdgeDone(rows, st, u, v)} ::
      u in st.rank && Imports(rows, u, v) ==> EdgeDone(rows, st, u, v)
  }

  /** First entries follow imports, and who was entered from a finished node was finished before it. */
  ghost predicate Entries(rows: seq<ImportRow>, st: Run) {
    forall n {:trigger n in st.parent} :: n in st.parent ==>
      Imports(rows, st.parent[n], n)
      && (st.parent[n] in st.rank ==> n in st.rank && st.rank[n] < st.rank[st.parent[n]])
  }

  /** The reported list and the keys of what it holds. */
  ghost predicate Reported(rows: seq<ImportRow>, seen: set<string>, cycles: seq<seq<string>>) {
    && (forall k :: 0 <= k < |cycles| ==> SimpleCycle(rows, cycles[k]) && Key(cycles[k]) in seen)
    && (forall s :: s in seen ==> exists k :: 0 <= k < |cycles| && Key(cycles[k]) == s)
    && (forall j, k :: 0 <= j < k < |cycles| ==> Key(cycles[j]) != Key(cycles[k]))
  }

  /** The path of the search: a simple path of imports. */
  ghost predicate IsPath(rows: seq<ImportRow>, stack: seq<string>) {
    && Distinct(stack)
    && forall i :: 0 <= i < |stack| - 1 ==> Imports(rows, stack[i], stack[i + 1])
  }

  // ---- the search as a function ----

  const START: Run := Run(map[], 0, {}, [], map[])

  ghost function Universe(rows: seq<ImportRow>): set<string> {
    set row | row in rows :: row.to
  }

  /** Where x stands last. */
  ghost function LastAt(stack: seq<string>, x: string): (i: nat)
    requires x in stack
    ensures i < |stack| && stack[i] == x
    ensures forall j :: i < j < |stack| ==> stack[j] != x
  {
    if stack[|stack| - 1] == x then |stack| - 1 else LastAt(stack[..|stack| - 1], x)
  }

  /** The end of the stack from x on. */
  ghost function CutAt(stack: seq<string>, x: string): seq<string>
    requires x in stack
  {
    stack[LastAt(stack, x)..]
  }

  /** A cycle is kept as it was cut, unless its key is known. */
  ghost function Noted(st: Run, c: seq<string>): Run {
    if Key(c) in st.seen then st else st.(seen := st.seen + {Key(c)}, cycles := st.cycles + [c])
  }

  ghost function Finished(st: Run, node: string): Run {
    st.(rank := st.rank[node := st.clock], clock := st.clock + 1)
  }

  ghost function Entered(st: Run, node: string, next: string): Run {
    st.(parent := st.parent[next := node])
  }

  /** The rest of the visit of the node on top of the stack, from its i-th target on. */
  ghost function Steps(rows: seq<ImportRow>, stack: seq<string>, i: nat, st: Run): Run
    requires stack != [] && i <= |TargetsOf(rows, stack[|stack| - 1])|
    decreases Universe(rows) - Elements(stack), |TargetsOf(rows, stack[|stack| - 1])| - i
  {
    var node := stack[|stack| - 1];
    var targets := TargetsOf(rows, node);
    if i == |targets| then Finished(st, node)
    else
      var next := targets[i];
      TargetInUniverse(rows, node, next);
      if next in stack then Steps(rows, stack, i + 1, Noted(st, CutAt(stack, next)))
      else if next in st.rank then Steps(rows, stack, i + 1, st)
      else
        StackGrows(rows, stack, next);
        Steps(rows, stack, i + 1, Steps(rows, stack + [next], 0, Entered(st, node, next)))
  }

  /** The search from every node of a list that is not finished yet. */
  ghost function SearchAll(rows: seq<ImportRow>, order: seq<string>): Run {
    if order == [] then START
    else
      var st, node := SearchAll(rows, order[..|order| - 1]), order[|order| - 1];
      if node in st.rank then st else Steps(rows, [node], 0, st)
  }

  /** One target of the visit. */
  lemma {:induction false} OneStep(rows: seq<ImportRow>, stack: seq<string>, i: nat, st: Run)
    requires stack != [] && i < |TargetsOf(rows, stack[|stack| - 1])|
    ensures var node := stack[|stack| - 1]; var next := TargetsOf(rows, node)[i];
            && (next in stack ==>
              Steps(rows, stack, i, st) == Steps(rows, stack, i + 1, Noted(st, CutAt(stack, next))))
            && (next !in stack && next in st.rank ==>
              Steps(rows, stack, i, st) == Steps(rows, stack, i + 1, st))
            && (next !in stack && next !in st.rank ==>
              Steps(rows, stack, i, st)
              == Steps(rows, stack, i + 1, Steps(rows, stack + [next], 0, Entered(st, node, next))))
  {
    TargetInUniverse(rows, stack[|stack| - 1], TargetsOf(rows, stack[|stack| - 1])[i]);
    hide Noted, Entered, Finished, CutAt;
  }

  lemma {:induction false} LastStep(rows: seq<ImportRow>, stack: seq<string>, st: Run)
    requires stack != []
    ensures var node := stack[|stack| - 1];
            Steps(rows, stack, |TargetsOf(rows, node)|, st) == Finished(st, node)
  {
  }

  lemma {:induction false} TargetInUniverse(rows: seq<ImportRow>, u: string, v: string)
    requires v in TargetsOf(rows, u)
    ensures v in Universe(rows) && Imports(rows, u, v)
  {
    TargetsAreImports(rows, u, v);
    assert ImportRow(u, v).to == v;
  }

  lemma StackGrows(rows: seq<ImportRow>, stack: seq<string>, next: string)
    requires next in Universe(rows) && next !in stack
    ensures Elements(stack + [next]) == Elements(stack) + {next}
    ensures Universe(rows) - Elements(stack + [next]) < Universe(rows) - Elements(stack)
  {
    assert next in Universe(rows) - Elements(stack);
  }

  // ---- what every state of the search keeps ----

  ghost predicate AllTreePaths(parent: map<string, string>, cycles: seq<seq<string>>) {
    forall k {:trigger cycles[k]} :: 0 <= k < |cycles| ==> TreePath(parent, cycles[k])
  }

  ghost predicate Valid(rows: seq<ImportRow>, st: Run) {
    && (forall n :: n in st.rank ==> st.rank[n] < st.clock)
    && Reported(rows, st.seen, st.cycles)
    && AllEdgesDone(rows, st)
    && AllTreePaths(st.parent, st.cycles)
    && Entries(rows, st)
  }

  /** The stack is a path of first entries; its nodes are not finished; nothing else is open. */
  ghost predicate StackOk(rows: seq<ImportRow>, stack: seq<string>, st: Run) {
    && stack != [] && IsPath(rows, stack) && TreePath(st.parent, stack)
    && (forall x :: x in stack ==> x !in st.rank)
    && (forall n :: n in st.parent ==> n in st.rank || n in stack)
    && (forall n :: n in st.parent ==> st.parent[n] in st.rank || st.parent[n] in stack)
    && stack[0] !in st.parent
  }

  /** What a visit may do: it finishes the node on top of the stack and nodes off the stack, and reports more. */
  ghost predicate Extends(stack: seq<string>, st: Run, st': Run)
    requires stack != []
  {
    && st.seen <= st'.seen && st.cycles <= st'.cycles
    && (forall n :: n in st.rank ==> n in st'.rank)
    && (forall n :: n in st'.rank && n !in st.rank ==>
        n == stack[|stack| - 1] || (n !in stack && n in st'.parent))
    && KeepsParents(st.parent, st'.parent)
    && (forall n :: n in st'.parent && n !in st.parent ==>
        && n !in stack && n !in st.rank && n in st'.rank
        && (st'.parent[n] in st'.rank || st'.parent[n] == stack[|stack| - 1]))
  }

  ghost predicate KeepsParents(parent: map<string, string>, parent': map<string, string>) {
    forall n :: n in parent ==> n in parent' && parent'[n] == parent[n]
  }

  /** The targets looked at so far are covered or finished. */
  ghost predicate LookedAt(rows: seq<ImportRow>, node: string, i: nat, st: Run)
    requires i <= |TargetsOf(rows, node)|
  {
    forall v {:trigger v in st.rank} ::
      v in TargetsOf(rows, node)[..i] ==> Covered(rows, st, node, v) || v in st.rank
  }

  /** What a back edge cuts off the stack is a simple cycle that the edge closes. */
  lemma BackEdge(rows: seq<ImportRow>, stack: seq<string>, next: string)
    requires IsPath(rows, stack) && next in stack && Imports(rows, stack[|stack| - 1], next)
    ensures var c := CutAt(stack, next);
            SimpleCycle(rows, c) && Closes(c, stack[|stack| - 1], next)
  {
    hide Imports;
    var i := LastAt(stack, next);
    var c := stack[i..];
    ImportsAnother(rows, stack[|stack| - 1], next);
    assert c[|c| - 1] == stack[|stack| - 1];
    forall j | 0 <= j < |c|
      ensures Imports(rows, c[j], Next(c, j))
    {
      if j + 1 < |c| {
        assert Imports(rows, stack[i + j], stack[i + j + 1]);
      }
    }
  }

  lemma ImportsAnother(rows: seq<ImportRow>, u: string, v: string)
    requires Imports(rows, u, v)
    ensures u != v
  {
  }

  lemma ReportMore(rows: seq<ImportRow>, seen: set<string>, cycles: seq<seq<string>>, c: seq<string>)
    requires Reported(rows, seen, cycles) && SimpleCycle(rows, c) && Key(c) !in seen
    ensures Reported(rows, seen + {Key(c)}, cycles + [c])
  {
    hide Key, SimpleCycle;
    var seen', cycles' := seen + {Key(c)}, cycles + [c];
    forall s | s in seen'
      ensures exists k :: 0 <= k < |cycles'| && Key(cycles'[k]) == s
    {
      if s in seen {
        var k :| 0 <= k < |cycles| && Key(cycles[k]) == s;
        assert Key(cycles'[k]) == s;
      } else {
        assert Key(cycles'[|cycles|]) == s;
      }
    }
  }

  lemma CoveredGrows(rows: seq<ImportRow>, st: Run, st': Run, u: string, v: string)
    requires st.seen <= st'.seen && KeepsParents(st.parent, st'.parent)
    ensures Covered(rows, st, u, v) ==> Covered(rows, st', u, v)
  {
    hide SimpleCycle, Key, Closes;
    if c :| CoveredBy(rows, st, c, u, v) {
      TreePathStays(st.parent, st'.parent, c);
      assert CoveredBy(rows, st', c, u, v);
    }
  }

  lemma EdgesStayDone(rows: seq<ImportRow>, st: Run, st': Run)
    requires AllEdgesDone(rows, st) && st.rank == st'.rank
    requires st.seen <= st'.seen && KeepsParents(st.parent, st'.parent)
    ensures AllEdgesDone(rows, st')
  {
    hide Covered, Imports;
    forall u, v | u in st'.rank && Imports(rows, u, v)
      ensures EdgeDone(rows, st', u, v)
    {
      assert EdgeDone(rows, st, u, v);
      CoveredGrows(rows, st, st', u, v);
    }
  }

  /** Noting the cycle of a back edge covers the edge and keeps everything else. */
  lemma NotedKeeps(rows: seq<ImportRow>, stack: seq<string>, next: string, st: Run)
    requires Valid(rows, st) && StackOk(rows, stack, st)
    requires next in stack && Imports(rows, stack[|stack| - 1], next)
    ensures var st' := Noted(st, CutAt(stack, next));
            && Valid(rows, st') && StackOk(rows, stack, st') && Extends(stack, st, st')
            && Covered(rows, st', stack[|stack| - 1], next)
  {
    hide Imports, Reported, AllEdgesDone, EdgeDone, IsPath, SimpleCycle, Key, CutAt, Closes;
    var c := CutAt(stack, next);
    var st' := Noted(st, c);
    BackEdge(rows, stack, next);
    CutIsTreePath(stack, next, st.parent);
    if Key(c) !in st.seen {
      ReportMore(rows, st.seen, st.cycles, c);
      EdgesStayDone(rows, st, st');
    }
    assert CoveredBy(rows, st', c, stack[|stack| - 1], next);
  }

  lemma CutIsTreePath(stack: seq<string>, next: string, parent: map<string, string>)
    requires next in stack && TreePath(parent, stack)
    ensures TreePath(parent, CutAt(stack, next))
  {
    var i, c := LastAt(stack, next), CutAt(stack, next);
    forall j | 0 < j < |c|
      ensures c[j] in parent && parent[c[j]] == c[j - 1]
    {
      assert c[j] == stack[i + j] && c[j - 1] == stack[i + j - 1];
    }
  }

  lemma EnterKeeps(rows: seq<ImportRow>, stack: seq<string>, next: string, st: Run)
    requires Valid(rows, st) && StackOk(rows, stack, st)
    requires next !in stack && next !in st.rank && Imports(rows, stack[|stack| - 1], next)
    ensures var st' := Entered(st, stack[|stack| - 1], next);
            Valid(rows, st') && StackOk(rows, stack + [next], st') && LookedAt(rows, next, 0, st')
  {
    hide Imports, Reported, AllEdgesDone, Covered, TreePath, IsPath;
    var st', path := Entered(st, stack[|stack| - 1], next), stack + [next];
    assert next !in st.parent;
    forall k | 0 <= k < |st.cycles|
      ensures TreePath(st'.parent, st.cycles[k])
    {
      TreePathStays(st.parent, st'.parent, st.cycles[k]);
    }
    assert stack[|stack| - 1] in stack;
    EdgesStayDone(rows, st, st');
    PathGrows(rows, stack, next, st.parent);
    assert path[0] == stack[0] && stack[0] in stack;
  }

  lemma PathGrows(rows: seq<ImportRow>, stack: seq<string>, next: string, parent: map<string, string>)
    requires stack != [] && IsPath(rows, stack) && TreePath(parent, stack)
    requires next !in stack && next !in parent && Imports(rows, stack[|stack| - 1], next)
    ensures IsPath(rows, stack + [next])
    ensures TreePath(parent[next := stack[|stack| - 1]], stack + [next])
  {
    hide Imports;
  }

  lemma TreePathStays(parent: map<string, string>, parent': map<string, string>, c: seq<string>)
    requires TreePath(parent, c) && KeepsParents(parent, parent')
    ensures TreePath(parent', c)
  {
    forall i | 0 < i < |c|
      ensures c[i] in parent' && parent'[c[i]] == c[i - 1]
    {
      assert c[i] in parent;
    }
  }

  /** Back from the visit of a target: the stack is as it was, and the target is finished. */
  lemma ReturnKeeps(rows: seq<ImportRow>, stack: seq<string>, next: string, st: Run, st': Run)
    requires StackOk(rows, stack, st) && next !in stack && next !in st.rank
    requires Extends(stack + [next], Entered(st, stack[|stack| - 1], next), st') && next in st'.rank
    ensures StackOk(rows, stack, st') && Extends(stack, st, st')
  {
    hide IsPath, TreePath;
    var st1, path := Entered(st, stack[|stack| - 1], next), stack + [next];
    assert path[|path| - 1] == next;
    assert next !in st.parent;
    forall x | x in stack
      ensures x in path && x != next
    {
    }
    assert KeepsParents(st.parent, st'.parent);
    TreePathStays(st.parent, st'.parent, stack);
    assert stack[0] in stack;
  }

  lemma ExtendsFurther(rows: seq<ImportRow>, stack: seq<string>, st: Run, st1: Run, st2: Run)
    requires stack != [] && Extends(stack, st, st1) && Extends(stack, st1, st2)
    ensures Extends(stack, st, st2)
  {
  }

  lemma LookedFurther(rows: seq<ImportRow>, stack: seq<string>, i: nat, st: Run, st': Run)
    requires stack != [] && i < |TargetsOf(rows, stack[|stack| - 1])|
    requires LookedAt(rows, stack[|stack| - 1], i, st) && Extends(stack, st, st')
    requires var node := stack[|stack| - 1]; var next := TargetsOf(rows, node)[i];
             Covered(rows, st', node, next) || next in st'.rank
    ensures LookedAt(rows, stack[|stack| - 1], i + 1, st')
  {
    hide Covered, TargetsOf;
    var node := stack[|stack| - 1];
    var targets := TargetsOf(rows, node);
    forall v | v in targets[..i + 1]
      ensures Covered(rows, st', node, v) || v in st'.rank
    {
      if v in targets[..i] {
        assert Covered(rows, st, node, v) || v in st.rank;
        CoveredGrows(rows, st, st', node, v);
      }
    }
  }

  /** Finishing a node whose edges are all covered or lead to nodes finished before it. */
  lemma FinishNode(rows: seq<ImportRow>, st: Run, node: string)
    requires AllEdgesDone(rows, st) && node !in st.rank
    requires forall n :: n in st.rank ==> st.rank[n] < st.clock
    requires forall v :: Imports(rows, node, v) ==> Covered(rows, st, node, v) || v in st.rank
    ensures AllEdgesDone(rows, Finished(st, node))
  {
    hide Covered, Imports;
    var st' := Finished(st, node);
    forall u, v | u in st'.rank && Imports(rows, u, v)
      ensures EdgeDone(rows, st', u, v)
    {
      CoveredGrows(rows, st, st', u, v);
      if u != node {
        assert EdgeDone(rows, st, u, v);
      }
    }
  }

  /** On a way of first entries, nobody was entered from the last node. */
  lemma TopEntersNone(stack: seq<string>, parent: map<string, string>, n: string)
    requires stack != [] && Distinct(stack) && TreePath(parent, stack) && stack[0] !in parent
    requires n in parent && parent[n] == stack[|stack| - 1]
    ensures n !in stack
  {
    if i :| 0 <= i < |stack| && stack[i] == n {
      assert false;
    }
  }

  lemma EntriesAtFinish(rows: seq<ImportRow>, stack: seq<string>, st: Run)
    requires Valid(rows, st) && StackOk(rows, stack, st)
    ensures Entries(rows, Finished(st, stack[|stack| - 1]))
  {
    hide AllEdgesDone, Reported, AllTreePaths, Imports, TreePath;
    var node := stack[|stack| - 1];
    var st' := Finished(st, node);
    assert node in stack;
    forall n | n in st'.parent && st'.parent[n] in st'.rank
      ensures n in st'.rank && st'.rank[n] < st'.rank[st'.parent[n]]
    {
      if st.parent[n] == node {
        TopEntersNone(stack, st.parent, n);
      }
    }
  }

  lemma {:induction false} FinishKeeps(rows: seq<ImportRow>, stack: seq<string>, st: Run)
    requires Valid(rows, st) && StackOk(rows, stack, st)
    requires var node := stack[|stack| - 1]; LookedAt(rows, node, |TargetsOf(rows, node)|, st)
    ensures var node := stack[|stack| - 1];
            Valid(rows, Finished(st, node)) && Extends(stack, st, Finished(st, node))
  {
    hide Covered, Imports, Reported, AllEdgesDone, TargetsOf, IsPath, TreePath, Entries;
    var node := stack[|stack| - 1];
    var targets := TargetsOf(rows, node);
    assert node in stack;
    forall v | Imports(rows, node, v)
      ensures Covered(rows, st, node, v) || v in st.rank
    {
      TargetsAreImports(rows, node, v);
      assert targets[..|targets|] == targets;
      assert v in targets[..|targets|];
    }
    FinishNode(rows, st, node);
    EntriesAtFinish(rows, stack, st);
  }

  /** The rest of a visit keeps all of it, only adds, and finishes the node. */
  lemma {:induction false} StepsKeep(rows: seq<ImportRow>, stack: seq<string>, i: nat, st: Run)
    requires Valid(rows, st) && StackOk(rows, stack, st)
    requires i <= |TargetsOf(rows, stack[|stack| - 1])| && LookedAt(rows, stack[|stack| - 1], i, st)
    ensures var st' := Steps(rows, stack, i, st);
            Valid(rows, st') && Extends(stack, st, st') && stack[|stack| - 1] in st'.rank
    decreases Universe(rows) - Elements(stack), |TargetsOf(rows, stack[|stack| - 1])| - i
  {
    hide Valid, LookedAt, TargetsOf, Universe, Covered, CutAt, Imports, IsPath, TreePath, Extends;
    var node := stack[|stack| - 1];
    var targets := TargetsOf(rows, node);
    if i == |targets| {
      FinishKeeps(rows, stack, st);
    } else {
      var next := targets[i];
      TargetInUniverse(rows, node, next);
      var st1 := st;
      if next in stack {
        st1 := Noted(st, CutAt(stack, next));
        NotedKeeps(rows, stack, next, st);
      } else if next in st.rank {
        ExtendsItself(stack, st);
      } else {
        var path, entered := stack + [next], Entered(st, node, next);
        StackGrows(rows, stack, next);
        EnterKeeps(rows, stack, next, st);
        assert path[|path| - 1] == next;
        StepsKeep(rows, path, 0, entered);
        st1 := Steps(rows, path, 0, entered);
        ReturnKeeps(rows, stack, next, st, st1);
      }
      LookedFurther(rows, stack, i, st, st1);
      StepsKeep(rows, stack, i + 1, st1);
      ExtendsFurther(rows, stack, st, st1, Steps(rows, stack, i + 1, st1));
    }
  }

  lemma ExtendsItself(stack: seq<string>, st: Run)
    requires stack != []
    ensures Extends(stack, st, st)
  {
  }

  /** What holds between two starts: whatever was entered or started is finished. */
  ghost predicate Settled(rows: seq<ImportRow>, order: seq<string>, st: Run) {
    && Valid(rows, st)
    && (forall n :: n in st.parent ==> n in st.rank && st.parent[n] in st.rank)
    && (forall n :: n in st.rank ==> n in st.parent || n in order)
    && (forall n :: n in order ==> n in st.rank)
  }

  /** Later in the same search: entries stay, and a finished node is not entered again. */
  ghost predicate Later(st: Run, st': Run) {
    && KeepsParents(st.parent, st'.parent)
    && forall n :: n in st.rank ==> n in st'.rank && (n in st'.parent ==> n in st.parent)
  }

  lemma {:induction false} StartKeeps(rows: seq<ImportRow>, order: seq<string>, node: string, st: Run)
    requires Settled(rows, order, st) && node !in st.rank
    ensures var st' := Steps(rows, [node], 0, st); Settled(rows, order + [node], st') && Later(st, st')
  {
    hide Valid, Covered, Imports, Steps, TargetsOf;
    var stack := [node];
    assert stack[|stack| - 1] == node;
    assert StackOk(rows, stack, st);
    assert LookedAt(rows, node, 0, st);
    StepsKeep(rows, stack, 0, st);
    var st' := Steps(rows, stack, 0, st);
    assert Extends(stack, st, st');
    EntriesFinished(rows, stack, st, st');
  }

  lemma EntriesFinished(rows: seq<ImportRow>, stack: seq<string>, st: Run, st': Run)
    requires |stack| == 1 && Extends(stack, st, st') && stack[0] in st'.rank && Valid(rows, st')
    requires forall n :: n in st.parent ==> n in st.rank && st.parent[n] in st.rank
    ensures forall n :: n in st'.parent ==> n in st'.rank && st'.parent[n] in st'.rank
  {
  }

  lemma {:induction false} SearchKeeps(rows: seq<ImportRow>, order: seq<string>)
    ensures Settled(rows, order, SearchAll(rows, order))
  {
    hide Valid, Steps;
    if order == [] {
      assert Valid(rows, START) by { StartIsValid(rows); }
    } else {
      var front, node := order[..|order| - 1], order[|order| - 1];
      SearchKeeps(rows, front);
      assert order == front + [node];
      var st := SearchAll(rows, front);
      if node !in st.rank {
        StartKeeps(rows, front, node, st);
      }
    }
  }

  lemma StartIsValid(rows: seq<ImportRow>)
    ensures Valid(rows, START)
  {
  }

  lemma {:induction false} SearchGrows(rows: seq<ImportRow>, order: seq<string>, k: nat)
    requires k <= |order|
    ensures Later(SearchAll(rows, order[..k]), SearchAll(rows, order))
    decreases |order|
  {
    hide Settled, Steps;
    if k == |order| {
      assert order[..k] == order;
    } else {
      var front, node := order[..|order| - 1], order[|order| - 1];
      SearchGrows(rows, front, k);
      assert front[..k] == order[..k];
      SearchKeeps(rows, front);
      var st := SearchAll(rows, front);
      if node !in st.rank {
        StartKeeps(rows, front, node, st);
      }
    }
  }

  // ---- the search as the code does it ----

  method ExtractCycle(stack: seq<string>, start: string) returns (cycle: seq<string>)
    ensures cycle == if start in stack then CutAt(stack, start) else []
  {
    var i := |stack| - 1;
    while i >= 0
      invariant -1 <= i < |stack|
      invariant forall j :: i < j < |stack| ==> stack[j] != start
    {
      if stack[i] == start {
        return stack[i..];
      }
      i := i - 1;
    }
    return [];
  }

  lemma {:induction false} SuccIsTargets(rows: seq<ImportRow>, adj: map<string, seq<string>>, u: string)
    requires Adjacency(rows, adj)
    ensures Succ(adj, u) == TargetsOf(rows, u)
  {
  }

  lemma InElements(s: seq<string>, x: string)
    ensures x in Elements(s) <==> x in s
  {
  }

  lemma PushPop(onStack: set<string>, stack: seq<string>, node: string)
    requires onStack == Elements(stack) && node !in stack
    ensures onStack + {node} == Elements(stack + [node]) && onStack + {node} - {node} == onStack
  {
  }

  class Search {
    ghost const rows: seq<ImportRow>
    const adj: map<string, seq<string>>
    var onStack: set<string>
    var finished: set<string>
    var seen: set<string>
    var cycles: seq<seq<string>>
    ghost var rank: map<string, nat>  // the order in which nodes were finished
    ghost var clock: nat
    ghost var parent: map<string, string>  // from where each node was entered

    constructor (ghost rows: seq<ImportRow>, adj: map<string, seq<string>>)
      requires Adjacency(rows, adj)
      ensures this.rows == rows && this.adj == adj
      ensures Ready() && onStack == {} && Now() == START
    {
      this.rows, this.adj := rows, adj;
      onStack, finished, seen, cycles := {}, {}, {}, [];
      rank, clock, parent := map[], 0, map[];
    }

    ghost predicate Ready()
      reads this
    {
      Adjacency(rows, adj) && rank.Keys == finished
    }

    ghost function Now(): Run
      reads this
    {
      Run(rank, clock, seen, cycles, parent)
    }

    /** Reports the cycle a back edge closes, unless its key is known. */
    method Report(stack: seq<string>, next: string)
      requires next in stack
      modifies this`seen, this`cycles
      ensures Now() == Noted(old(Now()), CutAt(stack, next))
    {
      hide Key, CutAt;
      var cycle := ExtractCycle(stack, next);
      var key := CanonicalKey(cycle);
      if key !in seen {
        seen := seen + {key};
        cycles := cycles + [cycle];
      }
    }

    method Dfs(node: string, stack: seq<string>)
      requires Ready()
      requires onStack == Elements(stack) && node !in stack
      modifies this`onStack, this`finished, this`seen, this`cycles, this`rank, this`clock, this`parent
      ensures Ready() && onStack == old(onStack)
      ensures Now() == Steps(rows, stack + [node], 0, old(Now()))
      decreases Universe(rows) - Elements(stack + [node])
    {
      hide CutAt, Universe, TargetsOf, Steps, Adjacency, Elements;
      PushPop(onStack, stack, node);
      onStack := onStack + {node};
      var path := stack + [node];
      assert path[|path| - 1] == node;
      var succ := Succ(adj, node);
      SuccIsTargets(rows, adj, node);
      ghost var start := Now();
      for k := 0 to |succ|
        invariant Ready() && onStack == Elements(path)
        invariant Steps(rows, path, k, Now()) == Steps(rows, path, 0, start)
      {
        var next := succ[k];
        TargetInUniverse(rows, node, next);
        OneStep(rows, path, k, Now());
        assert next in onStack <==> next in path by { InElements(path, next); }
        if next in onStack {
          Report(path, next);
        } else if next !in finished {
          StackGrows(rows, path, next);
          parent := parent[next := node];
          Dfs(next, path);
        }
      }
      LastStep(rows, path, Now());
      rank, clock := rank[node := clock], clock + 1;
      onStack := onStack - {node};
      finished := finished + {node};
    }
  }

  predicate ShorterOrSmaller(a: seq<string>, b: seq<string>) {
    |a| < |b| || (|a| == |b| && Less(Key(a), Key(b)))
  }

  function ByLengthAndKey(): (seq<string>, seq<string>) -> bool {
    (a, b) => ShorterOrSmaller(a, b)
  }

  /** Every node that imports another, once each; the code takes them in byte order. */
  ghost predicate StartOrder(rows: seq<ImportRow>, order: seq<string>) {
    Distinct(order) && Elements(order) == Importers(rows)
  }

  method SortedNodes(adj: map<string, seq<string>>) returns (nodes: seq<string>)
    ensures Elements(nodes) == adj.Keys && Distinct(nodes)
    ensures SortedBy(nodes, Strings())
  {
    nodes := [];
    var todo := adj.Keys;
    while todo != {}
      invariant Elements(nodes) + todo == adj.Keys && Elements(nodes) !! todo && Distinct(nodes)
      decreases todo
    {
      var n :| n in todo;
      assert n !in nodes by { assert n !in Elements(nodes); }
      nodes := nodes + [n];
      todo := todo - {n};
    }
    StringsAreOrdered();
    SortBySorts(nodes, Strings());
    SameElements(nodes, SortBy(nodes, Strings()));
    nodes := SortBy(nodes, Strings());
  }

  /** What the code returns on these rows: the reports of the search from the nodes in byte order, sorted. */
  ghost predicate Returned(rows: seq<ImportRow>, out: seq<seq<string>>) {
    exists order :: StartOrder(rows, order) && SortedBy(order, Strings()) && out == Sorted(rows, order)
  }

  ghost function Sorted(rows: seq<ImportRow>, order: seq<string>): seq<seq<string>> {
    SortBy(SearchAll(rows, order).cycles, ByLengthAndKey())
  }

  method ImportCycles(rows: seq<ImportRow>) returns (out: seq<seq<string>>)
    ensures Returned(rows, out)
  {
    hide Steps, TargetsOf;
    var adj := BuildAdjacency(rows);
    var search := new Search(rows, adj);
    var nodes := SortedNodes(adj);
    for k := 0 to |nodes|
      invariant search.Ready() && search.onStack == {}
      invariant search.Now() == SearchAll(rows, nodes[..k])
    {
      assert nodes[..k + 1][..k] == nodes[..k];
      if nodes[k] in search.finished {
        continue;
      }
      assert [] + [nodes[k]] == [nodes[k]];
      search.Dfs(nodes[k], []);
    }
    assert nodes[..|nodes|] == nodes;
    out := SortBy(search.cycles, ByLengthAndKey());
    assert out == Sorted(rows, nodes);
  }
}
