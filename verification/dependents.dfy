/** The dependents view: a BFS tree with one root turned into a hierarchy of display nodes. */
module Dependents {
  import opened Prelude
  import opened Ordering
  import opened Graphs
  import opened Bfs

  datatype Detail = NoDetail | InFile(filePath: string) | AtLine(filePath: string, line: int, kind: string)

  datatype DependentNode = DependentNode(name: string, detail: Detail, depth: nat,
                                         children: seq<DependentNode>, truncated: bool)

  datatype DependentMeta = DependentMeta(display: string, filePath: string, line: int, kind: string)

  datatype SymbolRow = SymbolRow(qname: string, filePath: string, startLine: int, kind: string)

  datatype Level = SymbolLevel | PackageLevel | ModuleLevel

  /** The first row of a qualified name, if there is one. */
  function FirstRow(rows: seq<SymbolRow>, q: string): (r: Option<SymbolRow>)
    ensures r.Some? ==>
              exists k :: 0 <= k < |rows| && rows[k] == r.value && r.value.qname == q && NoneNamed(rows[..k], q)
    ensures r.None? ==> forall row :: row in rows ==> row.qname != q
  {
    if rows == [] then None
    else
      var front, last := FirstRow(rows[..|rows| - 1], q), rows[|rows| - 1];
      assert rows == rows[..|rows| - 1] + [last];
      assert forall k :: 0 <= k < |rows| - 1 ==> rows[..|rows| - 1][..k] == rows[..k];
      if front.None? && last.qname == q then Some(last) else front
  }

  predicate NoneNamed(rows: seq<SymbolRow>, q: string) {
    forall row :: row in rows ==> row.qname != q
  }

  method SymbolRowsByQName(rows: seq<SymbolRow>) returns (out: map<string, SymbolRow>)
    ensures forall q :: (q in out <==> FirstRow(rows, q).Some?) && (q in out ==> FirstRow(rows, q) == Some(out[q]))
  {
    out := map[];
    for k := 0 to |rows|
      invariant forall q :: q in out <==> FirstRow(rows[..k], q).Some?
      invariant forall q :: q in out ==> FirstRow(rows[..k], q) == Some(out[q])
    {
      assert rows[..k + 1][..k] == rows[..k];
      if rows[k].qname !in out {
        out := out[rows[k].qname := rows[k]];
      }
    }
    assert rows[..|rows|] == rows;
  }

  /** An id is shown under its own name, and located by the first row of that name at symbol level only. */
  ghost predicate Resolved(rows: Option<seq<SymbolRow>>, level: Level, id: string, m: DependentMeta) {
    m == if level.SymbolLevel? && rows.Some? && FirstRow(rows.value, id).Some? then
           var row := FirstRow(rows.value, id).value;
           DependentMeta(id, row.filePath, row.startLine, row.kind)
         else DependentMeta(id, "", 0, "")
  }

  /** Display metadata for every visited id; rows is None when the batched query failed. */
  method ResolveMeta(rows: Option<seq<SymbolRow>>, ids: seq<string>, level: Level)
    returns (info: map<string, DependentMeta>)
    ensures forall id :: id in ids ==> id in info
    ensures forall id :: id in info ==> Resolved(rows, level, id, info[id])
    ensures forall id :: id in info ==> info[id].display == id
  {
    info := map[];
    var byName: map<string, SymbolRow> := map[];
    if level.SymbolLevel? && rows.Some? {
      byName := SymbolRowsByQName(rows.value);
      info := map q | q in byName :: MetaOf(byName[q]);
    }
    for k := 0 to |ids|
      invariant forall id :: id in byName ==> id in info
      invariant forall id :: id in info ==>
                  info[id] == if id in byName then MetaOf(byName[id]) else DependentMeta(id, "", 0, "")
      invariant forall j :: 0 <= j < k ==> ids[j] in info
    {
      if ids[k] !in info {
        info := info[ids[k] := DependentMeta(ids[k], "", 0, "")];
      }
    }
  }

  function MetaOf(row: SymbolRow): DependentMeta {
    DependentMeta(row.qname, row.filePath, row.startLine, row.kind)
  }

  function DetailOf(m: DependentMeta): Detail {
    if m.filePath == "" then NoDetail
    else if m.line > 0 then AtLine(m.filePath, m.line, m.kind)
    else InFile(m.filePath)
  }

  /** The location is shown, with line and kind where there is a line. */
  predicate Details(d: Detail, m: DependentMeta) {
    && (d.NoDetail? <==> m.filePath == "")
    && (d.AtLine? <==> m.filePath != "" && m.line > 0)
    && (d.AtLine? ==> d.filePath == m.filePath && d.line == m.line && d.kind == m.kind)
    && (d.InFile? ==> d.filePath == m.filePath)
  }

  /** Children are listed by display name, ties by id. */
  function ByDisplay(info: map<string, DependentMeta>): (string, string) -> bool {
    (a, b) => Less(Display(info, a), Display(info, b)) || (Display(info, a) == Display(info, b) && Less(a, b))
  }

  function Display(info: map<string, DependentMeta>, id: string): string {
    if id in info then info[id].display else ""
  }

  /** The node ids of a hierarchy, parents before children. */
  function Preorder(n: DependentNode): seq<string> {
    [n.name] + PreorderAll(n.children)
  }

  function PreorderAll(ns: seq<DependentNode>): seq<string> {
    if ns == [] then [] else PreorderAll(ns[..|ns| - 1]) + Preorder(ns[|ns| - 1])
  }

  /** The child list of node as it is shown. */
  function Kids(nodes: seq<string>, parent: map<string, string>, info: map<string, DependentMeta>, node: string)
    : seq<string>
  {
    SortBy(ChildrenOf(nodes, parent, node), ByDisplay(info))
  }

  /** n shows the subtree of its node: same depths, the sorted children, cut-off leaves flagged. */
  ghost predicate Mirrors(nodes: seq<string>, parent: map<string, string>, depth: map<string, nat>,
                          info: map<string, DependentMeta>, cut: bool, hint: nat, n: DependentNode)
    decreases n
  {
    && n.name in nodes && n.name in depth && n.name in info
    && n.depth == depth[n.name]
    && Details(n.detail, info[n.name])
    && (n.truncated <==> n.children == [] && cut && n.depth == hint)
    && |n.children| == |Kids(nodes, parent, info, n.name)|
    && (forall k :: 0 <= k < |n.children| ==>
          && n.children[k].name == Kids(nodes, parent, info, n.name)[k]
          && Mirrors(nodes, parent, depth, info, cut, hint, n.children[k]))
  }

  /** By display name, which is empty for an unknown id; equal ones by id. */
  ghost predicate DisplayedInOrder(info: map<string, DependentMeta>, ids: seq<string>) {
    forall i, j :: 0 <= i < j < |ids| ==>
      var a := if ids[i] in info then info[ids[i]].display else "";
      var b := if ids[j] in info then info[ids[j]].display else "";
      Less(a, b) || (a == b && (ids[i] == ids[j] || Less(ids[i], ids[j])))
  }

  lemma {:induction false} SortedByDisplay(info: map<string, DependentMeta>, ids: seq<string>)
    ensures DisplayedInOrder(info, SortBy(ids, ByDisplay(info)))
  {
    hide SortBy, Less;
    var sorted := SortBy(ids, ByDisplay(info));
    DisplayIsOrder(info);
    SortBySorts(ids, ByDisplay(info));
    forall i, j | 0 <= i < j < |sorted|
      ensures var a, b := Display(info, sorted[i]), Display(info, sorted[j]);
              Less(a, b) || (a == b && (sorted[i] == sorted[j] || Less(sorted[i], sorted[j])))
    {
      assert !ByDisplay(info)(sorted[j], sorted[i]);
      LessTotal(Display(info, sorted[i]), Display(info, sorted[j]));
      LessTotal(sorted[i], sorted[j]);
    }
  }

  lemma DisplayIsOrder(info: map<string, DependentMeta>)
    ensures StrictWeak(ByDisplay(info))
  {
    hide Less, Display;
    var less := ByDisplay(info);
    forall a: string, b: string | less(a, b)
      ensures !less(b, a)
    {
      NotBoth(Display(info, a), Display(info, b));
      NotBoth(a, b);
    }
    forall a: string, b: string, c: string | less(c, a)
      ensures less(b, a) || less(c, b)
    {
      Between(Display(info, a), Display(info, b), Display(info, c));
      Between(a, b, c);
    }
  }

  lemma {:induction false} NotBoth(a: string, b: string)
    ensures !(Less(a, b) && Less(b, a)) && !Less(a, a)
  {
    hide Less;
    LessIrreflexive(a);
    if Less(a, b) {
      LessAsymmetric(a, b);
    }
  }

  lemma {:induction false} Between(a: string, b: string, c: string)
    ensures a == b || Less(a, b) || Less(b, a)
    ensures b == c || Less(b, c) || Less(c, b)
    ensures Less(c, a) ==> c != a && (Less(b, a) || Less(c, b))
  {
    hide Less;
    LessTotal(a, b);
    LessTotal(b, c);
    LessIrreflexive(a);
    if Less(c, a) && Less(a, b) {
      LessTransitive(c, a, b);
    }
  }

  lemma KidsAreChildren(g: Graph, rs: set<string>, nodes: seq<string>, parent: map<string, string>,
                        depth: map<string, nat>, info: map<string, DependentMeta>, node: string)
    requires WellFormed(g, rs, nodes, parent, depth) && "" !in nodes && node in nodes
    ensures Distinct(Kids(nodes, parent, info, node))
    ensures forall c :: c in Kids(nodes, parent, info, node) <==> c in parent && parent[c] == node
    ensures forall c :: c in Kids(nodes, parent, info, node) ==> c in nodes && c in depth && depth[c] == depth[node] + 1
    ensures DisplayedInOrder(info, Kids(nodes, parent, info, node))
  {
    hide InShell, DisplayedInOrder;
    var kids := Kids(nodes, parent, info, node);
    SortedByDisplay(info, ChildrenOf(nodes, parent, node));
    SameElements(ChildrenOf(nodes, parent, node), kids);
    assert NodeOk(g, rs, parent, depth, node);
    ChildrenOfDistinct(nodes, parent, node);
    forall c
      ensures c in kids <==> c in parent && parent[c] == node
      ensures c in kids ==> c in nodes && c in depth && depth[c] == depth[node] + 1
    {
      assert c in kids <==> c in Elements(kids);
      assert c in ChildrenOf(nodes, parent, node) <==> c in Elements(ChildrenOf(nodes, parent, node));
      ChildrenOfMembers(nodes, parent, node, c);
      if c in nodes {
        assert NodeOk(g, rs, parent, depth, c);
      }
    }
  }

  method BuildNode(t: Tree, ghost g: Graph, node: string, depth: nat, info: map<string, DependentMeta>, hint: nat)
    returns (dn: DependentNode)
    requires t.Valid(g) && node in t.nodes && node in t.depth && depth == t.depth[node]
    requires forall n :: n in t.nodes ==> n in info && info[n].display in ["", n]
    requires forall n :: n in t.depth ==> t.depth[n] <= hint
    ensures dn.name == node
    ensures Mirrors(t.nodes, t.parent, t.depth, info, t.truncated, hint, dn)
    decreases hint - depth
  {
    hide WellFormed, Kids, SortBy, ChildrenOf, RootSet;
    ghost var kids := Kids(t.nodes, t.parent, info, node);
    KidsAreChildren(g, RootSet(t.roots), t.nodes, t.parent, t.depth, info, node);
    var m := info[node];
    var name := if m.display == "" then node else m.display;
    var listed := t.Children(node);
    var children := SortBy(listed, ByDisplay(info));
    assert children == kids by { KidsIs(t.nodes, t.parent, info, node); }
    var shown: seq<DependentNode> := [];
    for k := 0 to |children|
      invariant |shown| == k
      invariant forall j :: 0 <= j < k ==> shown[j].name == kids[j]
      invariant forall j :: 0 <= j < k ==> Mirrors(t.nodes, t.parent, t.depth, info, t.truncated, hint, shown[j])
    {
      assert children[k] in kids;
      var child := BuildNode(t, g, children[k], depth + 1, info, hint);
      shown := shown + [child];
    }
    dn := DependentNode(name, DetailOf(m), depth, shown, |children| == 0 && t.truncated && t.depth[node] == hint);
  }

  lemma {:induction false} KidsIs(nodes: seq<string>, parent: map<string, string>, info: map<string, DependentMeta>,
                                  node: string)
    ensures Kids(nodes, parent, info, node) == SortBy(ChildrenOf(nodes, parent, node), ByDisplay(info))
  {
  }

  // ---- every visited node is shown exactly once ----

  /** Parents lie one level up; what WellFormed says, without the graph. */
  ghost predicate Levelled(parent: map<string, string>, depth: map<string, nat>) {
    forall n :: n in parent ==> n in depth && parent[n] in depth && depth[n] == depth[parent[n]] + 1
  }

  /** The ancestor of m at depth d (m itself when it is no deeper). */
  ghost function Ancestor(parent: map<string, string>, depth: map<string, nat>, m: string, d: nat): string
    requires Levelled(parent, depth) && m in depth
    decreases depth[m]
  {
    if depth[m] <= d || m !in parent then m else Ancestor(parent, depth, parent[m], d)
  }

  /** The visited nodes at or below node. */
  ghost predicate Below(parent: map<string, string>, depth: map<string, nat>, node: string, m: string)
    requires Levelled(parent, depth)
  {
    m in depth && node in depth && depth[node] <= depth[m] && Ancestor(parent, depth, m, depth[node]) == node
  }

  /** Going up from a node strictly below another passes through exactly one of that other's children. */
  lemma {:induction false} AncestorStep(parent: map<string, string>, depth: map<string, nat>, m: string, d: nat)
    requires Levelled(parent, depth) && m in depth && d < depth[m]
    requires forall n :: n in depth && depth[n] > 0 ==> n in parent
    ensures var c := Ancestor(parent, depth, m, d + 1);
            && c in parent && depth[c] == d + 1
            && parent[c] == Ancestor(parent, depth, m, d)
    decreases depth[m]
  {
    if d + 1 < depth[m] {
      AncestorStep(parent, depth, parent[m], d);
    }
  }

  lemma LevelledTree(g: Graph, rs: set<string>, nodes: seq<string>, parent: map<string, string>,
                     depth: map<string, nat>)
    requires WellFormed(g, rs, nodes, parent, depth)
    ensures Levelled(parent, depth)
    ensures forall n :: n in depth && depth[n] > 0 ==> n in parent
    ensures forall n :: n in depth && depth[n] == 0 ==> n in rs
  {
    hide Ball;
    forall n | n in depth
      ensures depth[n] == 0 ==> n in rs
      ensures depth[n] > 0 ==> n in parent
      ensures n in parent ==> parent[n] in depth && depth[n] == depth[parent[n]] + 1
    {
      assert n in nodes && NodeOk(g, rs, parent, depth, n);
      RootAtZero(g, rs, n, depth[n]);
    }
  }

  lemma {:induction false} PreorderAllSplit(ns: seq<DependentNode>, x: string)
    ensures x in PreorderAll(ns) <==> exists k :: 0 <= k < |ns| && x in Preorder(ns[k])
  {
    if ns != [] {
      var front, last := ns[..|ns| - 1], ns[|ns| - 1];
      PreorderAllSplit(front, x);
      assert forall k :: 0 <= k < |front| ==> front[k] == ns[k];
      if x in Preorder(last) {
        assert ns[|ns| - 1] == last;
      }
    }
  }

  lemma {:induction false} PreorderAllDistinct(ns: seq<DependentNode>)
    requires forall k :: 0 <= k < |ns| ==> Distinct(Preorder(ns[k]))
    requires forall j, k, x :: 0 <= j < k < |ns| && x in Preorder(ns[j]) ==> x !in Preorder(ns[k])
    ensures Distinct(PreorderAll(ns))
  {
    if ns != [] {
      var front, last := ns[..|ns| - 1], ns[|ns| - 1];
      PreorderAllDistinct(front);
      forall x | x in PreorderAll(front)
        ensures x !in Preorder(last)
      {
        PreorderAllSplit(front, x);
        var k :| 0 <= k < |front| && x in Preorder(front[k]);
        assert x in Preorder(ns[k]);
      }
      DistinctConcat(PreorderAll(front), Preorder(last));
    }
  }

  /** What lies strictly below a node lies below exactly one of its children. */
  lemma BelowSplit(parent: map<string, string>, depth: map<string, nat>, node: string, kids: seq<string>, m: string)
    requires Levelled(parent, depth) && node in depth
    requires forall n :: n in depth && depth[n] > 0 ==> n in parent
    requires forall c :: c in kids <==> c in parent && parent[c] == node
    ensures (exists k :: 0 <= k < |kids| && Below(parent, depth, kids[k], m))
            <==> m != node && Below(parent, depth, node, m)
  {
    if m in depth && depth[node] < depth[m] {
      AncestorStep(parent, depth, m, depth[node]);
      var c := Ancestor(parent, depth, m, depth[node] + 1);
      if c in kids {
        var k :| 0 <= k < |kids| && kids[k] == c;
        assert Below(parent, depth, kids[k], m);
      }
      if k :| 0 <= k < |kids| && Below(parent, depth, kids[k], m) {
        assert kids[k] in kids && kids[k] == c;
      }
    } else if k :| 0 <= k < |kids| && Below(parent, depth, kids[k], m) {
      assert kids[k] in kids;
    }
  }

  lemma BelowOne(parent: map<string, string>, depth: map<string, nat>, node: string, a: string, b: string, m: string)
    requires Levelled(parent, depth) && node in depth
    requires a in parent && b in parent && parent[a] == parent[b] == node
    requires Below(parent, depth, a, m) && Below(parent, depth, b, m)
    ensures a == b
  {
  }

  /** The hierarchy below a node lists exactly the visited nodes at or below it, each once. */
  lemma {:induction false} ShownOnce(g: Graph, rs: set<string>, nodes: seq<string>, parent: map<string, string>,
                                     depth: map<string, nat>, info: map<string, DependentMeta>, cut: bool, hint: nat,
                                     n: DependentNode)
    requires WellFormed(g, rs, nodes, parent, depth) && "" !in nodes && Levelled(parent, depth)
    requires Mirrors(nodes, parent, depth, info, cut, hint, n)
    ensures Distinct(Preorder(n))
    ensures forall m :: m in Preorder(n) <==> Below(parent, depth, n.name, m)
    decreases n
  {
    var kids := Kids(nodes, parent, info, n.name);
    KidsAreChildren(g, rs, nodes, parent, depth, info, n.name);
    LevelledTree(g, rs, nodes, parent, depth);
    forall k | 0 <= k < |n.children|
      ensures n.children[k].name == kids[k]
      ensures Distinct(Preorder(n.children[k]))
      ensures forall m :: m in Preorder(n.children[k]) <==> Below(parent, depth, kids[k], m)
    {
      ShownOnce(g, rs, nodes, parent, depth, info, cut, hint, n.children[k]);
    }
    ShownFromKids(parent, depth, kids, n);
  }

  lemma {:induction false} ShownFromKids(parent: map<string, string>, depth: map<string, nat>, kids: seq<string>,
                                         n: DependentNode)
    requires Levelled(parent, depth) && n.name in depth
    requires forall m :: m in depth && depth[m] > 0 ==> m in parent
    requires |kids| == |n.children| && Distinct(kids)
    requires forall c :: c in kids <==> c in parent && parent[c] == n.name
    requires forall k :: 0 <= k < |kids| ==> Distinct(Preorder(n.children[k]))
    requires forall k, m :: 0 <= k < |kids| ==> (m in Preorder(n.children[k]) <==> Below(parent, depth, kids[k], m))
    ensures Distinct(Preorder(n))
    ensures forall m :: m in Preorder(n) <==> Below(parent, depth, n.name, m)
  {
    hide Below;
    forall j, k, x | 0 <= j < k < |kids| && x in Preorder(n.children[j])
      ensures x !in Preorder(n.children[k])
    {
      assert kids[j] in kids && kids[k] in kids;
      assert Below(parent, depth, kids[j], x);
      if Below(parent, depth, kids[k], x) {
        BelowOne(parent, depth, n.name, kids[j], kids[k], x);
      }
    }
    PreorderAllDistinct(n.children);
    forall m
      ensures m in PreorderAll(n.children) <==> m != n.name && Below(parent, depth, n.name, m)
    {
      PreorderAllSplit(n.children, m);
      BelowSplit(parent, depth, n.name, kids, m);
    }
    BelowSelf(parent, depth, n.name);
  }

  lemma BelowSelf(parent: map<string, string>, depth: map<string, nat>, node: string)
    requires Levelled(parent, depth) && node in depth
    ensures Below(parent, depth, node, node)
  {
  }

  /** With one root, the hierarchy shows every visited node exactly once. */
  lemma {:induction false} WholeTreeOnce(g: Graph, root: string, nodes: seq<string>, parent: map<string, string>,
                                         depth: map<string, nat>, info: map<string, DependentMeta>, cut: bool,
                                         hint: nat, n: DependentNode)
    requires WellFormed(g, {root}, nodes, parent, depth) && "" !in nodes
    requires Mirrors(nodes, parent, depth, info, cut, hint, n) && n.name == root
    ensures multiset(Preorder(n)) == multiset(nodes)
  {
    hide Mirrors, Ball;
    LevelledTree(g, {root}, nodes, parent, depth);
    ShownOnce(g, {root}, nodes, parent, depth, info, cut, hint, n);
    assert NodeOk(g, {root}, parent, depth, root);
    RootAtZero(g, {root}, root, depth[root]);
    forall m
      ensures m in Preorder(n) <==> m in nodes
    {
      if m in nodes {
        AncestorAtZero(parent, depth, m);
      }
    }
    SameDistinct(Preorder(n), nodes);
  }

  lemma {:induction false} AncestorAtZero(parent: map<string, string>, depth: map<string, nat>, m: string)
    requires Levelled(parent, depth) && m in depth
    requires forall n :: n in depth && depth[n] > 0 ==> n in parent
    ensures var top := Ancestor(parent, depth, m, 0); top in depth && depth[top] == 0
    decreases depth[m]
  {
    if depth[m] > 0 {
      AncestorAtZero(parent, depth, parent[m]);
    }
  }

  lemma SameDistinct(a: seq<string>, b: seq<string>)
    requires Distinct(a) && Distinct(b)
    requires forall x :: x in a <==> x in b
    ensures multiset(a) == multiset(b)
  {
    DistinctIsMultiplicityOne(a);
    DistinctIsMultiplicityOne(b);
    forall x
      ensures multiset(a)[x] == multiset(b)[x]
    {
      if x in a {
        assert x in b;
      } else {
        assert x !in multiset(a) && x !in multiset(b);
      }
    }
  }

  /** The whole view: metadata for every visited node, then the hierarchy below the given root. */
  method BuildDependentTree(t: Tree, ghost g: Graph, rows: Option<seq<SymbolRow>>, rootId: string, level: Level)
    returns (dn: DependentNode, info: map<string, DependentMeta>)
    requires t.Valid(g) && rootId in t.nodes && rootId in t.depth && t.depth[rootId] == 0
    ensures dn.name == rootId
    ensures exists hint: nat ::
              IsLargest(t.depth, hint) && Mirrors(t.nodes, t.parent, t.depth, info, t.truncated, hint, dn)
    ensures RootSet(t.roots) == {rootId} ==> multiset(Preorder(dn)) == multiset(t.nodes)
    ensures forall id :: id in t.nodes ==> id in info && Resolved(rows, level, id, info[id])
  {
    hide WellFormed, Mirrors, RootSet, FirstRow;
    info := ResolveMeta(rows, t.nodes, level);
    var hint := t.MaxDepthHint();
    assert IsLargest(t.depth, hint);
    dn := BuildNode(t, g, rootId, 0, info, hint);
    if RootSet(t.roots) == {rootId} {
      WholeTreeOnce(g, rootId, t.nodes, t.parent, t.depth, info, t.truncated, hint, dn);
    }
  }

  ghost predicate IsLargest(depth: map<string, nat>, hint: nat) {
    (forall n :: n in depth ==> depth[n] <= hint) && exists n :: n in depth && depth[n] == hint
  }
}
