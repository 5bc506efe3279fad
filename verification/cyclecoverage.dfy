/** Which import cycles are reported, and for which graphs these are all of them. */
module CycleCoverage {
  import opened Prelude
  import opened Ordering
  import opened CycleKeys
  import opened Cycles
  import opened CycleReports

  // ---- the forest of first entries after a search ----

  /** Along a way of first entries the nodes were finished in the opposite order. */
  lemma {:induction false} RanksFall(rows: seq<ImportRow>, order: seq<string>, st: Run, p: seq<string>, i: nat, j: nat)
    requires Settled(rows, order, st) && TreePath(st.parent, p) && i <= j < |p| && p[0] in st.rank
    ensures p[i] in st.rank && p[j] in st.rank
    ensures i < j ==> st.rank[p[j]] < st.rank[p[i]]
    decreases j
  {
    hide Reported, AllEdgesDone, AllTreePaths, Imports;
    if j > 0 {
      assert p[j] in st.parent && st.parent[p[j]] == p[j - 1];
      RanksFall(rows, order, st, p, if i < j then i else j - 1, j - 1);
    }
  }

  /** A way of first entries is a simple path of imports. */
  lemma TreeWay(rows: seq<ImportRow>, order: seq<string>, st: Run, p: seq<string>)
    requires Settled(rows, order, st) && TreePath(st.parent, p) && p != [] && p[0] in st.rank
    ensures IsPath(rows, p)
  {
    hide Reported, AllEdgesDone, AllTreePaths, Imports;
    forall i, j | 0 <= i < j < |p|
      ensures p[i] != p[j]
    {
      RanksFall(rows, order, st, p, i, j);
    }
    forall i | 0 <= i < |p| - 1
      ensures Imports(rows, p[i], p[i + 1])
    {
      assert p[i + 1] in st.parent && st.parent[p[i + 1]] == p[i];
    }
  }

  /** The way of first entries to a finished node, from a start that was never entered. */
  lemma {:induction false} RootPath(rows: seq<ImportRow>, order: seq<string>, st: Run, n: string)
    returns (p: seq<string>)
    requires Settled(rows, order, st) && n in st.rank
    ensures p != [] && p[|p| - 1] == n && TreePath(st.parent, p)
    ensures p[0] !in st.parent && p[0] in st.rank && p[0] in order
    decreases st.clock - st.rank[n]
  {
    hide Reported, AllEdgesDone, AllTreePaths, Imports;
    if n !in st.parent {
      p := [n];
    } else {
      var front := RootPath(rows, order, st, st.parent[n]);
      p := front + [n];
      assert p[0] == front[0];
      forall i | 0 < i < |p|
        ensures p[i] in st.parent && st.parent[p[i]] == p[i - 1]
      {
        assert i < |front| ==> p[i] == front[i];
      }
    }
  }

  /** What a finished node imports is finished. */
  lemma FinishedIsClosed(rows: seq<ImportRow>, order: seq<string>, st: Run, u: string, v: string)
    requires Settled(rows, order, st) && u in st.rank && Imports(rows, u, v)
    ensures v in st.rank
  {
    hide Reported, AllTreePaths, Imports, IsCycle, Key, Entries;
    assert EdgeDone(rows, st, u, v);
    if c :| CoveredBy(rows, st, c, u, v) {
      assert c[1] in st.parent && st.parent[c[1]] == v;
    }
  }

  // ---- what is reported ----

  /** A cycle and its rotation or reversal are ways of first entries only if they are one list. */
  lemma SameTreeCycle(rows: seq<ImportRow>, order: seq<string>, st: Run, c: seq<string>, r: seq<string>)
    requires Settled(rows, order, st) && Simple(c) && Simple(r) && SameCycle(c, r)
    requires TreePath(st.parent, c) && TreePath(st.parent, r)
    ensures c == r
  {
    hide Valid, Turn, Flip, SameCycle;
    assert c[1] in st.parent && st.parent[c[1]] == c[0];
    assert r[1] in st.parent && st.parent[r[1]] == r[0];
    SameHead(rows, order, st, c, r);
    SameCycleFromHead(c, r);
    if r != c {
      assert r[1] == c[|c| - 1];
      assert st.parent[c[|c| - 1]] == c[|c| - 2];
      FlipOfTwo(c, 0);
      TurnZero(c);
    }
  }

  lemma SameHead(rows: seq<ImportRow>, order: seq<string>, st: Run, c: seq<string>, r: seq<string>)
    requires Settled(rows, order, st) && Simple(c) && Simple(r) && SameCycle(c, r)
    requires TreePath(st.parent, c) && TreePath(st.parent, r)
    requires c[0] in st.rank && r[0] in st.rank
    ensures c[0] == r[0]
  {
    hide Settled, SameCycle, TreePath;
    SameCycleElements(c, r);
    assert c[0] in Elements(r) && r[0] in Elements(c);
    var k :| 0 <= k < |c| && c[k] == r[0];
    var j :| 0 <= j < |r| && r[j] == c[0];
    RanksFall(rows, order, st, c, 0, k);
    RanksFall(rows, order, st, r, 0, j);
  }

  lemma SameCycleFromHead(c: seq<string>, r: seq<string>)
    requires Simple(c) && SameCycle(c, r) && r[0] == c[0]
    ensures r == c || (r == Flip(c, 0) && r[1] == c[|c| - 1])
  {
    hide Turn, Flip;
    var k: nat :| k < |c| && (r == Turn(c, k) || r == Flip(c, k));
    MovedAt(c, k, 0);
    assert k == 0;
    TurnZero(c);
    MovedAt(c, 0, 1);
  }

  /** If keys tell cycles apart, a simple cycle along first entries whose key is known is reported as it stands. */
  lemma KnownIsReported(rows: seq<ImportRow>, order: seq<string>, st: Run, c: seq<string>)
    requires KeysTell(rows) && Settled(rows, order, st)
    requires SimpleCycle(rows, c) && TreePath(st.parent, c) && Key(c) in st.seen
    ensures c in st.cycles
  {
    hide Key, AllEdgesDone, Entries, SameCycle, IsCycle, Simple, TreePath;
    var k :| 0 <= k < |st.cycles| && Key(st.cycles[k]) == Key(c);
    var r := st.cycles[k];
    assert SimpleCycle(rows, r);
    SameTreeCycle(rows, order, st, c, r);
  }

  lemma {:induction false} InSorted(rows: seq<ImportRow>, order: seq<string>, c: seq<string>)
    ensures c in Sorted(rows, order) <==> c in SearchAll(rows, order).cycles
  {
    hide SearchAll, SortBy;
    var cycles, out := SearchAll(rows, order).cycles, Sorted(rows, order);
    SameElements(cycles, out);
    assert c in out <==> c in Elements(out);
    assert c in cycles <==> c in Elements(cycles);
  }

  /** Whatever is reported is a simple cycle along first entries. */
  lemma {:induction false} ReportedAlong(rows: seq<ImportRow>, order: seq<string>, c: seq<string>)
    requires c in Sorted(rows, order)
    ensures SimpleCycle(rows, c) && TreePath(SearchAll(rows, order).parent, c)
  {
    hide SearchAll, Sorted, AllEdgesDone, Entries, SimpleCycle, TreePath, Key;
    var st := SearchAll(rows, order);
    SearchKeeps(rows, order);
    InSorted(rows, order, c);
    var k :| 0 <= k < |st.cycles| && st.cycles[k] == c;
  }

  /** If keys tell cycles apart: one report for each back edge, the way of first entries that it closes, as found. */
  lemma {:induction false} ReportedIff(rows: seq<ImportRow>, order: seq<string>, c: seq<string>)
    requires KeysTell(rows) && StartOrder(rows, order)
    ensures c in Sorted(rows, order)
            <==> SimpleCycle(rows, c) && TreePath(SearchAll(rows, order).parent, c)
  {
    hide SearchAll, Sorted, KeysTell, StartOrder, AllEdgesDone, Entries, SimpleCycle, TreePath, Key;
    var st := SearchAll(rows, order);
    SearchKeeps(rows, order);
    InSorted(rows, order, c);
    if c in st.cycles {
      ReportedAlong(rows, order, c);
    }
    if SimpleCycle(rows, c) && TreePath(st.parent, c) {
      var d := ClosingIsCovered(rows, order, c);
      CycleIsPath(rows, c);
      CycleIsPath(rows, d);
      UniqueTreePath(st.parent, c, d);
      KnownIsReported(rows, order, st, c);
    }
  }

  /** A cycle along first entries is closed by a covered edge: its tail was finished before its head. */
  lemma ClosingIsCovered(rows: seq<ImportRow>, order: seq<string>, c: seq<string>) returns (d: seq<string>)
    requires StartOrder(rows, order)
    requires SimpleCycle(rows, c) && TreePath(SearchAll(rows, order).parent, c)
    ensures SameEnds(c, d) && CoveredBy(rows, SearchAll(rows, order), d, c[|c| - 1], c[0])
  {
    hide SearchAll, StartOrder, CoveredBy, Imports, Reported, AllTreePaths, Entries;
    var st := SearchAll(rows, order);
    SearchKeeps(rows, order);
    ImportersFinished(rows, order);
    assert c[1] in st.parent && st.parent[c[1]] == c[0];
    RanksFall(rows, order, st, c, 0, |c| - 1);
    assert Imports(rows, c[|c| - 1], Next(c, |c| - 1));
    assert EdgeDone(rows, st, c[|c| - 1], c[0]);
    d :| CoveredBy(rows, st, d, c[|c| - 1], c[0]);
    CoverCloses(rows, st, d, c[|c| - 1], c[0]);
  }

  lemma CoverCloses(rows: seq<ImportRow>, st: Run, c: seq<string>, u: string, v: string)
    requires CoveredBy(rows, st, c, u, v)
    ensures Closes(c, u, v)
  {
  }

  lemma CycleIsPath(rows: seq<ImportRow>, c: seq<string>)
    requires SimpleCycle(rows, c)
    ensures IsPath(rows, c)
  {
    hide Imports;
    forall i | 0 <= i < |c| - 1
      ensures Imports(rows, c[i], c[i + 1])
    {
      assert Imports(rows, c[i], Next(c, i));
    }
  }

  /** If keys tell cycles apart, every directed cycle has an edge that closes a reported cycle. */
  lemma EveryCycleIsHit(rows: seq<ImportRow>, order: seq<string>, w: seq<string>) returns (i: nat, c: seq<string>)
    requires KeysTell(rows) && StartOrder(rows, order) && IsCycle(rows, w)
    ensures i < |w| && c in Sorted(rows, order) && Closes(c, w[i], Next(w, i))
    ensures SimpleCycle(rows, c) && TreePath(SearchAll(rows, order).parent, c)
  {
    hide SearchAll, Sorted, KeysTell, StartOrder, AllEdgesDone, Entries, IsCycle, TreePath, Reported, Key, Next,
         AllTreePaths, Closes, Simple, Imports;
    var st := SearchAll(rows, order);
    SearchKeeps(rows, order);
    ImportersFinished(rows, order);
    i := UncoveredImpossible(rows, st, w);
    c :| CoveredBy(rows, st, c, w[i], Next(w, i));
    KnownIsReported(rows, order, st, c);
    InSorted(rows, order, c);
  }

  // ---- graphs in which every cycle is reported ----

  /** d is a rotation of c. */
  ghost predicate IsTurn(c: seq<string>, d: seq<string>) {
    |c| == |d| && exists k: nat :: k < |c| && d == Turn(c, k)
  }

  ghost predicate ReportsCycle(out: seq<seq<string>>, c: seq<string>) {
    exists d :: d in out && IsTurn(c, d)
  }

  /** Every simple cycle of the graph is reported, up to rotation. */
  ghost predicate ReportsAll(rows: seq<ImportRow>, out: seq<seq<string>>) {
    forall c {:trigger SimpleCycle(rows, c)} :: SimpleCycle(rows, c) ==> ReportsCycle(out, c)
  }

  /** Two different simple cycles through one edge, both read from the head of that edge. */
  ghost predicate Forked(rows: seq<ImportRow>, c: seq<string>, d: seq<string>) {
    SimpleCycle(rows, c) && SimpleCycle(rows, d) && SameEnds(c, d) && c != d
  }

  ghost predicate IsWalk(rows: seq<ImportRow>, q: seq<string>, a: string, b: string) {
    && q != [] && q[0] == a && q[|q| - 1] == b
    && forall i :: 0 <= i < |q| - 1 ==> Imports(rows, q[i], q[i + 1])
  }

  ghost predicate Reaches(rows: seq<ImportRow>, a: string, b: string) {
    exists q :: IsWalk(rows, q, a, b)
  }

  /** The k-th start is the first from which x is reached. */
  ghost predicate FirstTo(rows: seq<ImportRow>, order: seq<string>, k: nat, x: string)
    requires k < |order|
  {
    forall j :: 0 <= j < k ==> !Reaches(rows, order[j], x)
  }

  /** A search can come to the head of c along p and find all of c ahead: from the first start that reaches c. */
  ghost predicate ComesTo(rows: seq<ImportRow>, order: seq<string>, c: seq<string>, k: nat, p: seq<string>) {
    && c != [] && k < |order| && FirstTo(rows, order, k, c[0])
    && p != [] && p[0] == order[k] && p[|p| - 1] == c[0]
    && IsPath(rows, p + c[1..])
  }

  /** A search can come to a fork and go round c first. */
  ghost predicate Exposes(rows: seq<ImportRow>, order: seq<string>, c: seq<string>, d: seq<string>, k: nat,
                          p: seq<string>) {
    Forked(rows, c, d) && ComesTo(rows, order, c, k, p)
  }

  ghost predicate Exposed(rows: seq<ImportRow>, order: seq<string>) {
    exists c, d, k: nat, p :: Exposes(rows, order, c, d, k, p)
  }

  lemma NextOfTurn(c: seq<string>, k: nat, i: nat)
    requires k < |c| && i < |c|
    ensures Turn(c, k)[i] == c[Wrap(k + i, |c|)]
    ensures Next(Turn(c, k), i) == Next(c, Wrap(k + i, |c|))
  {
    var j := if i + 1 < |c| then i + 1 else 0;
    MovedAt(c, k, i);
    MovedAt(c, k, j);
    hide Turn;
    assert Next(Turn(c, k), i) == Turn(c, k)[j] == c[Wrap(k + j, |c|)];
  }

  lemma TurnIsCycle(rows: seq<ImportRow>, c: seq<string>, k: nat)
    requires SimpleCycle(rows, c) && k < |c|
    ensures SimpleCycle(rows, Turn(c, k))
  {
    hide Imports;
    var t := Turn(c, k);
    MovesDistinct(c, k);
    forall i | 0 <= i < |c|
      ensures Imports(rows, t[i], Next(t, i))
    {
      var j := Wrap(k + i, |c|);
      NextOfTurn(c, k, i);
      assert Imports(rows, c[j], Next(c, j));
    }
  }

  /** The rotation of c that closes with the i-th edge of c. */
  lemma ClosingTurn(c: seq<string>, i: nat) returns (k: nat)
    requires i < |c|
    ensures k < |c| && Closes(Turn(c, k), c[i], Next(c, i))
  {
    k := Wrap(i + 1, |c|);
    MovedAt(c, k, 0);
    MovedAt(c, k, |c| - 1);
  }

  lemma FlipOfTwo(c: seq<string>, j: nat)
    requires |c| == 2 && j < 2
    ensures Flip(c, j) == Turn(c, j)
  {
    forall i | 0 <= i < 2
      ensures Flip(c, j)[i] == Turn(c, j)[i]
    {
      MovedAt(c, j, i);
    }
  }

  lemma WalkExtends(rows: seq<ImportRow>, q: seq<string>, p: seq<string>, a: string, m: string, b: string)
    requires IsWalk(rows, q, a, m) && IsWalk(rows, p, m, b)
    ensures Reaches(rows, a, b)
  {
    hide Imports;
    var w := q + p[1..];
    forall i | 0 <= i < |w| - 1
      ensures Imports(rows, w[i], w[i + 1])
    {
      if i < |q| - 1 {
        assert Imports(rows, q[i], q[i + 1]);
      } else {
        assert w[i] == p[i - (|q| - 1)] && w[i + 1] == p[i - (|q| - 1) + 1];
      }
    }
    assert IsWalk(rows, w, a, b);
  }

  /** What a finished node reaches is finished. */
  lemma FinishedReach(rows: seq<ImportRow>, order: seq<string>, st: Run, a: string, b: string)
    requires Settled(rows, order, st) && a in st.rank && Reaches(rows, a, b)
    ensures b in st.rank
  {
    hide Settled, Imports;
    var q :| IsWalk(rows, q, a, b);
    var i := 0;
    while i < |q| - 1
      invariant 0 <= i < |q| && q[i] in st.rank
    {
      assert Imports(rows, q[i], q[i + 1]);
      FinishedIsClosed(rows, order, st, q[i], q[i + 1]);
      i := i + 1;
    }
  }

  /** A way of first entries that is finished at its end at some time is finished from its beginning on. */
  lemma EarlierWay(rows: seq<ImportRow>, order: seq<string>, st: Run, st': Run, p: seq<string>)
    requires Settled(rows, order, st) && Later(st, st') && p != []
    requires TreePath(st'.parent, p) && p[|p| - 1] in st.rank
    ensures p[0] in st.rank
  {
    hide Valid;
    var i := |p| - 1;
    while i > 0
      invariant 0 <= i < |p| && p[i] in st.rank
    {
      assert p[i] in st'.parent && st'.parent[p[i]] == p[i - 1];
      assert p[i] in st.parent && st.parent[p[i]] == p[i - 1];
      i := i - 1;
    }
  }

  /** The start under which a node was entered is the first that reaches it. */
  lemma {:induction false} RootIsFirst(rows: seq<ImportRow>, order: seq<string>, p: seq<string>, k: nat)
    requires k < |order| && Distinct(order) && p != [] && p[0] == order[k]
    requires var parent := SearchAll(rows, order).parent; TreePath(parent, p) && p[0] !in parent
    ensures FirstTo(rows, order, k, p[|p| - 1])
  {
    hide SearchAll, Valid, Reaches, TreePath;
    var before := order[..k];
    var st := SearchAll(rows, before);
    SearchKeeps(rows, before);
    SearchGrows(rows, order, k);
    forall j | 0 <= j < k && Reaches(rows, order[j], p[|p| - 1])
      ensures false
    {
      assert order[j] in before;
      FinishedReach(rows, before, st, order[j], p[|p| - 1]);
      EarlierWay(rows, before, st, SearchAll(rows, order), p);
    }
  }

  lemma JoinTree(parent: map<string, string>, p: seq<string>, c: seq<string>)
    requires TreePath(parent, p) && TreePath(parent, c) && p != [] && c != [] && p[|p| - 1] == c[0]
    ensures TreePath(parent, p + c[1..]) && (p + c[1..])[0] == p[0]
  {
    var q := p + c[1..];
    forall i | 0 < i < |q|
      ensures q[i] in parent && parent[q[i]] == q[i - 1]
    {
      if i < |p| {
        assert q[i] == p[i];
      } else {
        assert q[i] == c[i - |p| + 1] && q[i - 1] == c[i - |p|];
      }
    }
  }

  /** How the search came to a cycle along first entries. */
  lemma CameTo(rows: seq<ImportRow>, order: seq<string>, c: seq<string>) returns (k: nat, p: seq<string>)
    requires Distinct(order) && Simple(c) && TreePath(SearchAll(rows, order).parent, c)
    ensures ComesTo(rows, order, c, k, p)
  {
    hide SearchAll, Valid, IsPath, TreePath, FirstTo, Simple;
    var st := SearchAll(rows, order);
    SearchKeeps(rows, order);
    HeadFinished(rows, order, st, c);
    p := RootPath(rows, order, st, c[0]);
    k :| 0 <= k < |order| && order[k] == p[0];
    RootIsFirst(rows, order, p, k);
    JoinTree(st.parent, p, c);
    TreeWay(rows, order, st, p + c[1..]);
  }

  /** A cycle that goes unreported lies on a fork, and the search came to it as described. */
  lemma MissedIsExposed(rows: seq<ImportRow>, order: seq<string>, w: seq<string>)
    requires KeysTell(rows) && StartOrder(rows, order) && SimpleCycle(rows, w)
    requires !ReportsCycle(Sorted(rows, order), w)
    ensures Exposed(rows, order)
  {
    hide SearchAll, Sorted, KeysTell, Turn, TreePath, ComesTo, Next, IsCycle, Importers;
    var i, c := EveryCycleIsHit(rows, order, w);
    var a := ClosingTurn(w, i);
    var d := Turn(w, a);
    TurnIsCycle(rows, w, a);
    assert IsTurn(w, d) && !IsTurn(w, c);
    assert Forked(rows, c, d);
    var k, p := CameTo(rows, order, c);
    assert Exposes(rows, order, c, d, k, p);
  }

  lemma HeadFinished(rows: seq<ImportRow>, order: seq<string>, st: Run, c: seq<string>)
    requires Settled(rows, order, st) && Simple(c) && TreePath(st.parent, c)
    ensures c != [] && c[0] in st.rank
  {
    hide Valid;
    assert c[1] in st.parent && st.parent[c[1]] == c[0];
  }

  // ---- graphs in which some row order hides a cycle ----

  /** The search goes along c first, wherever it enters it. */
  ghost predicate Leads(rows: seq<ImportRow>, c: seq<string>) {
    forall i {:trigger c[i]} :: 0 <= i < |c| - 1 ==> LeadsTo(rows, c[i], c[i + 1])
  }

  ghost predicate LeadsTo(rows: seq<ImportRow>, u: string, v: string) {
    var targets := TargetsOf(rows, u);
    targets != [] && targets[0] == v
  }

  ghost predicate Untouched(st: Run, c: seq<string>) {
    forall x :: x in c ==> x !in st.rank
  }

  lemma NothingLookedAt(rows: seq<ImportRow>, node: string, st: Run)
    ensures LookedAt(rows, node, 0, st)
  {
  }

  lemma {:induction false} LedTo(rows: seq<ImportRow>, c: seq<string>, k: nat, st: Run)
    requires k + 1 < |c| && IsPath(rows, c) && Leads(rows, c) && Untouched(st, c)
    ensures var targets := TargetsOf(rows, c[k]); targets != [] && targets[0] == c[k + 1]
    ensures c[k + 1] !in c[..k + 1] && Imports(rows, c[k], c[k + 1]) && c[k + 1] !in st.rank
    ensures Untouched(Entered(st, c[k], c[k + 1]), c)
  {
    assert LeadsTo(rows, c[k], c[k + 1]);
  }

  lemma OpenPath(rows: seq<ImportRow>, stack: seq<string>, st: Run)
    requires StackOk(rows, stack, st)
    ensures TreePath(st.parent, stack)
  {
  }

  lemma StaysTreePath(stack: seq<string>, st: Run, st': Run, c: seq<string>)
    requires stack != [] && Extends(stack, st, st') && TreePath(st.parent, c)
    ensures TreePath(st'.parent, c)
  {
    TreePathStays(st.parent, st'.parent, c);
  }

  /** Once on c, with nothing of it finished, the search goes along c to its end. */
  lemma {:induction false} Follows(rows: seq<ImportRow>, c: seq<string>, k: nat, st: Run)
    requires k < |c| && IsPath(rows, c) && Leads(rows, c) && Untouched(st, c)
    requires Valid(rows, st) && StackOk(rows, c[..k + 1], st)
    ensures TreePath(Steps(rows, c[..k + 1], 0, st).parent, c)
    decreases |c| - k
  {
    hide *;
    var stack := c[..k + 1];
    var node := stack[|stack| - 1];
    var done := Steps(rows, stack, 0, st);
    NothingLookedAt(rows, node, st);
    if k == |c| - 1 {
      assert stack == c;
      OpenPath(rows, stack, st);
      StepsKeep(rows, stack, 0, st);
      StaysTreePath(stack, st, done, c);
    } else {
      var next := c[k + 1];
      LedTo(rows, c, k, st);
      OneStep(rows, stack, 0, st);
      var entered, path := Entered(st, node, next), c[..k + 2];
      assert path == stack + [next] && path[|path| - 1] == next;
      EnterKeeps(rows, stack, next, st);
      StepsKeep(rows, path, 0, entered);
      Follows(rows, c, k + 1, entered);
      var st1 := Steps(rows, path, 0, entered);
      ReturnKeeps(rows, stack, next, st, st1);
      LookedFurther(rows, stack, 0, st, st1);
      StepsKeep(rows, stack, 1, st1);
      StaysTreePath(stack, st1, done, c);
    }
  }

  /** From a start at the head of an untouched path that leads, the path becomes a way of first entries. */
  lemma {:induction false} FollowsFromStart(rows: seq<ImportRow>, order: seq<string>, k: nat, q: seq<string>)
    requires k < |order| && q != [] && q[0] == order[k] && IsPath(rows, q) && Leads(rows, q)
    requires Untouched(SearchAll(rows, order[..k]), q)
    ensures var st := SearchAll(rows, order); TreePath(st.parent, q) && q[0] !in st.parent
  {
    hide Valid, Steps, TargetsOf, Leads, Covered, Imports, TreePath, IsPath, SearchAll, Later;
    var before, stack := order[..k], [q[0]];
    var st0 := SearchAll(rows, before);
    SearchKeeps(rows, before);
    assert q[0] in q;
    var st1 := Steps(rows, stack, 0, st0);
    NextStart(rows, order, k);
    assert stack[|stack| - 1] == q[0] && q[..1] == stack;
    OneIsPath(rows, st0.parent, q[0]);
    Follows(rows, q, 0, st0);
    NothingLookedAt(rows, q[0], st0);
    StepsKeep(rows, stack, 0, st0);
    RootStays(stack, st0, st1);
    SearchGrows(rows, order, k + 1);
    LaterTree(st1, SearchAll(rows, order), q);
  }

  lemma {:induction false} NextStart(rows: seq<ImportRow>, order: seq<string>, k: nat)
    requires k < |order| && order[k] !in SearchAll(rows, order[..k]).rank
    ensures SearchAll(rows, order[..k + 1]) == Steps(rows, [order[k]], 0, SearchAll(rows, order[..k]))
  {
    hide Steps;
    assert order[..k + 1][..k] == order[..k];
  }

  lemma OneIsPath(rows: seq<ImportRow>, parent: map<string, string>, x: string)
    ensures TreePath(parent, [x]) && IsPath(rows, [x])
  {
  }

  lemma RootStays(stack: seq<string>, st: Run, st': Run)
    requires |stack| == 1 && Extends(stack, st, st') && stack[0] !in st.parent
    ensures stack[0] !in st'.parent
  {
    assert stack[0] in stack;
  }

  lemma LaterTree(st: Run, st': Run, q: seq<string>)
    requires Later(st, st') && TreePath(st.parent, q) && q != [] && q[0] !in st.parent && q[0] in st.rank
    ensures TreePath(st'.parent, q) && q[0] !in st'.parent
  {
    TreePathStays(st.parent, st'.parent, q);
  }

  /** Nothing on an exposing path is finished before its start: it would reach the fork. */
  lemma {:induction false} PathUntouched(rows: seq<ImportRow>, order: seq<string>, k: nat, q: seq<string>, x: string)
    requires k < |order| && FirstTo(rows, order, k, x)
    requires q != [] && IsPath(rows, q) && Imports(rows, q[|q| - 1], x)
    ensures Untouched(SearchAll(rows, order[..k]), q)
  {
    hide SearchAll, Valid, Imports, Reaches;
    var before := order[..k];
    var st := SearchAll(rows, before);
    SearchKeeps(rows, before);
    forall n | n in q && n in st.rank
      ensures false
    {
      var i :| 0 <= i < |q| && q[i] == n;
      var p := RootPath(rows, before, st, n);
      TreeWay(rows, before, st, p);
      WalkOn(rows, q, i, x);
      WalkExtends(rows, p, q[i..] + [x], p[0], n, x);
    }
  }

  lemma WalkOn(rows: seq<ImportRow>, q: seq<string>, i: nat, x: string)
    requires i < |q| && IsPath(rows, q) && Imports(rows, q[|q| - 1], x)
    ensures IsWalk(rows, q[i..] + [x], q[i], x)
  {
    hide Imports;
    var w := q[i..] + [x];
    forall j | 0 <= j < |w| - 1
      ensures Imports(rows, w[j], w[j + 1])
    {
      if j < |w| - 2 {
        assert w[j] == q[i + j] && w[j + 1] == q[i + j + 1];
      }
    }
  }

  ghost predicate SameRows(a: seq<ImportRow>, b: seq<ImportRow>) {
    multiset(a) == multiset(b)
  }

  /** None of this depends on the order of the rows. */
  lemma SameImports(a: seq<ImportRow>, b: seq<ImportRow>)
    requires SameRows(a, b)
    ensures forall u, v :: Imports(a, u, v) <==> Imports(b, u, v)
    ensures Importers(a) == Importers(b)
  {
    forall row
      ensures row in a <==> row in b
    {
      assert row in a <==> row in multiset(a);
      assert row in b <==> row in multiset(b);
    }
  }

  ghost predicate SameGraph(a: seq<ImportRow>, b: seq<ImportRow>) {
    forall u, v :: Imports(a, u, v) <==> Imports(b, u, v)
  }

  lemma SameCycles(a: seq<ImportRow>, b: seq<ImportRow>, c: seq<string>)
    requires SameGraph(a, b)
    ensures SimpleCycle(a, c) <==> SimpleCycle(b, c)
    ensures IsPath(a, c) <==> IsPath(b, c)
  {
    hide Imports;
  }

  lemma SameReach(a: seq<ImportRow>, b: seq<ImportRow>, x: string, y: string)
    requires SameGraph(a, b)
    ensures Reaches(a, x, y) ==> Reaches(b, x, y)
  {
    hide Imports;
    if q :| IsWalk(a, q, x, y) {
      assert IsWalk(b, q, x, y);
    }
  }

  lemma SameComing(a: seq<ImportRow>, b: seq<ImportRow>, order: seq<string>, c: seq<string>, k: nat, p: seq<string>)
    requires SameGraph(a, b) && ComesTo(a, order, c, k, p)
    ensures ComesTo(b, order, c, k, p)
  {
    hide IsPath, Imports, Reaches;
    SameCycles(a, b, p + c[1..]);
    forall j | 0 <= j < k
      ensures !Reaches(b, order[j], c[0])
    {
      SameReach(b, a, order[j], c[0]);
    }
  }

  lemma SameExposure(a: seq<ImportRow>, b: seq<ImportRow>, order: seq<string>, c: seq<string>, d: seq<string>, k: nat,
                     p: seq<string>)
    requires SameGraph(a, b) && Exposes(a, order, c, d, k, p)
    ensures Exposes(b, order, c, d, k, p)
  {
    hide SimpleCycle, ComesTo, Imports;
    SameCycles(a, b, c);
    SameCycles(a, b, d);
    SameComing(a, b, order, c, k, p);
  }

  lemma SameKeysTell(a: seq<ImportRow>, b: seq<ImportRow>)
    requires SameGraph(a, b) && KeysTell(a)
    ensures KeysTell(b)
  {
    hide SimpleCycle, Imports, Key, SameCycle;
    forall c, d | SimpleCycle(b, c) && SimpleCycle(b, d) && Key(c) == Key(d)
      ensures SameCycle(c, d)
    {
      SameCycles(a, b, c);
      SameCycles(a, b, d);
    }
  }

  lemma {:induction false} ToFront(rows: seq<ImportRow>, u: string, v: string) returns (rows': seq<ImportRow>)
    requires Imports(rows, u, v)
    ensures SameRows(rows, rows') && LeadsTo(rows', u, v)
    ensures forall x {:trigger TargetsOf(rows', x)} :: x != u ==> TargetsOf(rows', x) == TargetsOf(rows, x)
  {
    var row := ImportRow(u, v);
    var k :| 0 <= k < |rows| && rows[k] == row;
    var front, back := rows[..k], rows[k + 1..];
    rows' := [row] + (front + back);
    assert rows == front + ([row] + back);
    forall x
      ensures TargetsOf([row], x) == if x == u then [v] else []
    {
      assert [row][..0] == [];
    }
    forall x
      ensures x != u ==> TargetsOf(rows', x) == TargetsOf(rows, x)
    {
      TargetsConcat([row], front + back, x);
      TargetsConcat(front, back, x);
      TargetsConcat(front, [row] + back, x);
      TargetsConcat([row], back, x);
    }
    TargetsConcat([row], front + back, u);
  }

  /** The rows in an order in which the first n edges of a path come first. */
  lemma {:induction false} PathFirst(rows: seq<ImportRow>, c: seq<string>, n: nat) returns (rows': seq<ImportRow>)
    requires IsPath(rows, c) && n < |c|
    ensures SameRows(rows, rows') && Leads(rows', c[..n + 1])
  {
    if n == 0 {
      rows' := rows;
    } else {
      hide TargetsOf, Imports;
      var before := PathFirst(rows, c, n - 1);
      assert Imports(rows, c[n - 1], c[n]);
      SameImports(rows, before);
      rows' := ToFront(before, c[n - 1], c[n]);
      forall i | 0 <= i < n
        ensures LeadsTo(rows', c[i], c[i + 1])
      {
        if i < n - 1 {
          assert c[..n][i] == c[i] && c[..n][i + 1] == c[i + 1];
          assert LeadsTo(before, c[i], c[i + 1]);
          assert c[i] != c[n - 1];
          assert TargetsOf(rows', c[i]) == TargetsOf(before, c[i]);
        }
      }
    }
  }

  /** The same rows in an order that leads along a path. */
  lemma LeadingRows(rows: seq<ImportRow>, q: seq<string>) returns (rows': seq<ImportRow>)
    requires q != [] && IsPath(rows, q)
    ensures SameRows(rows, rows') && Leads(rows', q)
  {
    hide IsPath, Leads, SameRows;
    rows' := PathFirst(rows, q, |q| - 1);
    assert q[..|q|] == q;
  }

  /** A search whose first targets lead along p and round c goes that way. */
  lemma {:induction false} GoesRound(rows: seq<ImportRow>, order: seq<string>, c: seq<string>, k: nat, p: seq<string>)
    requires SimpleCycle(rows, c) && ComesTo(rows, order, c, k, p) && Leads(rows, p + c[1..])
    ensures var parent := SearchAll(rows, order).parent;
            TreePath(parent, c) && TreePath(parent, p + c[1..]) && p[0] !in parent
  {
    hide Leads, SearchAll, TreePath, Imports, IsPath, FirstTo;
    var q := p + c[1..];
    assert q[|q| - 1] == c[|c| - 1] && q[0] == p[0];
    assert Imports(rows, c[|c| - 1], Next(c, |c| - 1));
    PathUntouched(rows, order, k, q, c[0]);
    FollowsFromStart(rows, order, k, q);
    SubPath(SearchAll(rows, order).parent, p, c);
  }

  /** A search that came along p and went round c first reports no other cycle of the fork. */
  lemma ForkIsMissed(rows: seq<ImportRow>, order: seq<string>, c: seq<string>, d: seq<string>, k: nat, p: seq<string>)
    requires Exposes(rows, order, c, d, k, p) && Leads(rows, p + c[1..])
    ensures !ReportsCycle(Sorted(rows, order), d)
  {
    hide Leads, SearchAll, Reported, AllEdgesDone, TreePath, IsPath, IsCycle, Sorted, FirstTo, Entries, IsTurn;
    var st := SearchAll(rows, order);
    SearchKeeps(rows, order);
    GoesRound(rows, order, c, k, p);
    forall r | r in Sorted(rows, order)
      ensures !IsTurn(d, r)
    {
      InSorted(rows, order, r);
      var j :| 0 <= j < |st.cycles| && st.cycles[j] == r;
      if IsTurn(d, r) {
        HeadNotBelow(rows, st.parent, p, c, d);
        RootedTurn(st.parent, d, r);
        UniqueTreePath(st.parent, c, d);
      }
    }
  }

  lemma SubPath(parent: map<string, string>, p: seq<string>, c: seq<string>)
    requires p != [] && c != [] && p[|p| - 1] == c[0] && TreePath(parent, p + c[1..])
    ensures TreePath(parent, c)
  {
    var q := p + c[1..];
    forall i | 0 < i < |c|
      ensures c[i] in parent && parent[c[i]] == c[i - 1]
    {
      assert q[|p| - 1 + i] == c[i] && q[|p| - 1 + i - 1] == c[i - 1];
    }
  }

  /** The head of the fork was not entered from its tail. */
  lemma HeadNotBelow(rows: seq<ImportRow>, parent: map<string, string>, p: seq<string>, c: seq<string>, d: seq<string>)
    requires p != [] && Simple(c) && SameEnds(c, d) && p[|p| - 1] == c[0]
    requires IsPath(rows, p + c[1..]) && TreePath(parent, p + c[1..]) && p[0] !in parent
    ensures !(d[0] in parent && parent[d[0]] == d[|d| - 1])
  {
    hide Imports;
    var q := p + c[1..];
    var n := |p| - 1;
    assert q[n] == c[0] && q[|q| - 1] == c[|c| - 1] && q[0] == p[0];
    if n > 0 {
      assert parent[q[n]] == q[n - 1];
      assert q[n - 1] != q[|q| - 1];
    }
  }

  /** A rotation of d along first entries starts where d does, unless d's head was entered from d's tail. */
  lemma RootedTurn(parent: map<string, string>, d: seq<string>, r: seq<string>)
    requires Simple(d) && IsTurn(d, r) && TreePath(parent, r)
    requires !(d[0] in parent && parent[d[0]] == d[|d| - 1])
    ensures r == d
  {
    hide Turn;
    var k: nat :| k < |d| && r == Turn(d, k);
    if k == 0 {
      TurnZero(d);
    } else {
      MovedAt(d, k, |d| - k);
      MovedAt(d, k, |d| - k - 1);
      assert false;
    }
  }

  // ---- both together ----

  /** Every simple cycle is reported, whatever the order in which the database gives the rows. */
  ghost predicate AlwaysComplete(rows: seq<ImportRow>, order: seq<string>) {
    forall rows' {:trigger SameRows(rows, rows')} ::
      SameRows(rows, rows') ==> ReportsAll(rows, Sorted(rows', order))
  }

  /** If keys tell cycles apart, that is so exactly when the starts expose no fork. */
  lemma CompleteIff(rows: seq<ImportRow>, order: seq<string>)
    requires KeysTell(rows) && StartOrder(rows, order)
    ensures AlwaysComplete(rows, order) <==> !Exposed(rows, order)
  {
    hide Exposes, SimpleCycle, Sorted, KeysTell, SameRows, ReportsCycle, Imports, Importers;
    if c, d, k: nat, p :| Exposes(rows, order, c, d, k, p) {
      var rows' := ExposedMisses(rows, order, c, d, k, p);
    } else {
      forall rows' | SameRows(rows, rows')
        ensures ReportsAll(rows, Sorted(rows', order))
      {
        SameImports(rows, rows');
        SameKeysTell(rows, rows');
        forall w | SimpleCycle(rows, w)
          ensures ReportsCycle(Sorted(rows', order), w)
        {
          SameCycles(rows, rows', w);
          if !ReportsCycle(Sorted(rows', order), w) {
            MissedIsExposed(rows', order, w);
            var c, d, k: nat, p :| Exposes(rows', order, c, d, k, p);
            SameExposure(rows', rows, order, c, d, k, p);
            assert false;
          }
        }
      }
    }
  }

  lemma ExposedMisses(rows: seq<ImportRow>, order: seq<string>, c: seq<string>, d: seq<string>, k: nat, p: seq<string>)
    returns (rows': seq<ImportRow>)
    requires Exposes(rows, order, c, d, k, p)
    ensures SameRows(rows, rows') && !ReportsAll(rows, Sorted(rows', order))
  {
    hide SimpleCycle, Sorted, IsPath, Leads, SameRows, Imports, FirstTo, ReportsCycle;
    var q := p + c[1..];
    rows' := LeadingRows(rows, q);
    SameImports(rows, rows');
    SameExposure(rows, rows', order, c, d, k, p);
    ForkIsMissed(rows', order, c, d, k, p);
  }

  /** What the code returns for some order of the rows: with the starts in byte order. */
  lemma ReturnedIff(rows: seq<ImportRow>, rows': seq<ImportRow>, order: seq<string>, out: seq<seq<string>>)
    requires StartOrder(rows, order) && SortedBy(order, Strings()) && SameRows(rows, rows')
    ensures Returned(rows', out) <==> out == Sorted(rows', order)
  {
    hide SameRows, Sorted, Importers, Imports;
    SameImports(rows, rows');
    if Returned(rows', out) {
      var other :| StartOrder(rows', other) && SortedBy(other, Strings()) && out == Sorted(rows', other);
      SortedUnique(order, other);
    }
  }

  /** For the starts in byte order, as the code takes them: whether what it returns can ever miss a cycle. */
  lemma ImportCyclesCompleteIff(rows: seq<ImportRow>, order: seq<string>)
    requires KeysTell(rows) && StartOrder(rows, order) && SortedBy(order, Strings())
    ensures (forall rows', out :: SameRows(rows, rows') && Returned(rows', out) ==> ReportsAll(rows, out))
            <==> !Exposed(rows, order)
  {
    hide KeysTell, SameRows, Exposed, Sorted, ReportsAll, Importers, Imports, Returned;
    CompleteIff(rows, order);
    forall rows', out | SameRows(rows, rows')
      ensures Returned(rows', out) <==> out == Sorted(rows', order)
    {
      ReturnedIff(rows, rows', order, out);
    }
  }

  /** Some edge lies on two different simple cycles. */
  ghost predicate Tangled(rows: seq<ImportRow>) {
    exists c, d :: Forked(rows, c, d)
  }

  lemma {:induction false} Listed(s: set<string>) returns (list: seq<string>)
    ensures Distinct(list) && Elements(list) == s
    decreases s
  {
    if s == {} {
      list := [];
    } else {
      var x :| x in s;
      var rest := Listed(s - {x});
      assert x !in rest by { assert x !in Elements(rest); }
      list := rest + [x];
      assert Elements(list) == Elements(rest) + {x};
    }
  }

  lemma StartingAt(rows: seq<ImportRow>, u: string) returns (order: seq<string>)
    requires u in Importers(rows)
    ensures StartOrder(rows, order) && order != [] && order[0] == u
  {
    var rest := Listed(Importers(rows) - {u});
    assert u !in rest by { assert u !in Elements(rest); }
    order := [u] + rest;
    assert Elements(order) == {u} + Elements(rest);
  }

  /** Whatever the order of the rows and of the starts, every cycle is reported: exactly for untangled graphs. */
  lemma AlwaysCompleteIffUntangled(rows: seq<ImportRow>)
    requires KeysTell(rows)
    ensures (forall order :: StartOrder(rows, order) ==> AlwaysComplete(rows, order)) <==> !Tangled(rows)
  {
    hide KeysTell, AlwaysComplete, SimpleCycle, StartOrder, IsPath, Importers;
    if c, d :| Forked(rows, c, d) {
      HeadImports(rows, c);
      var order := StartingAt(rows, c[0]);
      CycleIsPath(rows, c);
      assert [c[0]] + c[1..] == c;
      assert Exposes(rows, order, c, d, 0, [c[0]]);
      CompleteIff(rows, order);
    } else {
      forall order | StartOrder(rows, order)
        ensures AlwaysComplete(rows, order)
      {
        CompleteIff(rows, order);
      }
    }
  }

  lemma HeadImports(rows: seq<ImportRow>, c: seq<string>)
    requires SimpleCycle(rows, c)
    ensures c[0] in Importers(rows)
  {
    assert Imports(rows, c[0], Next(c, 0));
    ImporterOf(rows, c[0], Next(c, 0));
  }
}
