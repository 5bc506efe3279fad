/** The order in which a breadth-first search finds nodes, and that it leaves no choice. */
module Discovery {
  import opened Prelude
  import opened Graphs

  /** Where x stands first; the length of the list if it is not there. */
  ghost function Place(s: seq<string>, x: string): (k: nat)
    ensures k <= |s| && (x in s <==> k < |s|)
    ensures x in s ==> s[k] == x && x !in s[..k]
  {
    if s == [] || s[0] == x then 0
    else
      assert s == [s[0]] + s[1..];
      var k := Place(s[1..], x);
      assert k + 1 <= |s| ==> s[..k + 1] == [s[0]] + s[1..][..k];
      k + 1
  }

  /** The elements of s stand in the order of their first places in another list. */
  ghost predicate AsIn(s: seq<string>, list: seq<string>) {
    forall i, j :: 0 <= i < j < |s| ==> Place(list, s[i]) < Place(list, s[j])
  }

  /** The list and s grow by a name that is new in the list. */
  lemma AsInGrows(s: seq<string>, list: seq<string>, x: string)
    requires AsIn(s, list) && Elements(s) <= Elements(list)
    ensures AsIn(s, list + [x]) && (x !in list ==> AsIn(s + [x], list + [x]))
  {
    hide Place;
    var longer := list + [x];
    forall i | 0 <= i < |s|
      ensures Place(longer, s[i]) == Place(list, s[i]) < |list|
    {
      assert s[i] in Elements(s);
      PlaceGrows(list, longer, s[i]);
    }
    if x !in list {
      assert longer[..|list|] == list;
      PlaceIs(longer, x, |list|);
    }
  }

  /** The i-th node is the first to have s among its successors. */
  ghost predicate FoundAt(g: Graph, nodes: seq<string>, s: string, i: nat) {
    i < |nodes| && s in g(nodes[i]) && forall j :: 0 <= j < i ==> s !in g(nodes[j])
  }

  /** Going through the nodes and their successor lists, s at the i-th node comes before t at the j-th. */
  ghost predicate Sooner(g: Graph, nodes: seq<string>, i: nat, s: string, j: nat, t: string)
    requires i < |nodes| && j < |nodes|
  {
    i < j || (i == j && Place(g(nodes[i]), s) < Place(g(nodes[j]), t))
  }

  /** The position of the parent of the j-th node. */
  ghost function Above(nodes: seq<string>, parent: map<string, string>, j: nat): nat {
    if j < |nodes| && nodes[j] in parent then Place(nodes, parent[nodes[j]]) else 0
  }

  /** The j-th node hangs below the first node that has it among its successors. */
  ghost predicate FirstParent(g: Graph, nodes: seq<string>, parent: map<string, string>, j: nat) {
    j < |nodes| && nodes[j] in parent && Above(nodes, parent, j) < j
    && nodes[Above(nodes, parent, j)] == parent[nodes[j]]
    && FoundAt(g, nodes, nodes[j], Above(nodes, parent, j))
  }

  /** Going through the nodes and their successor lists, the j-th node comes before s at the i-th. */
  ghost predicate FoundSooner(g: Graph, nodes: seq<string>, parent: map<string, string>, j: nat, i: nat, s: string) {
    && j < |nodes| && Above(nodes, parent, j) < |nodes| && i < |nodes|
    && Sooner(g, nodes, Above(nodes, parent, j), nodes[j], i, s)
  }

  ghost predicate Successive(g: Graph, nodes: seq<string>, parent: map<string, string>, j: nat, l: nat) {
    l < |nodes| && FoundSooner(g, nodes, parent, j, Above(nodes, parent, l), nodes[l])
  }

  /** Every node but the roots hangs below its first parent. */
  ghost predicate AllHang(g: Graph, r: nat, nodes: seq<string>, parent: map<string, string>) {
    && r <= |nodes| && parent.Keys == Elements(nodes[r..])
    && forall j :: r <= j < |nodes| ==> FirstParent(g, nodes, parent, j)
  }

  /** The nodes stand in the order in which they come up going through the nodes and their successor lists. */
  ghost predicate AllSuccessive(g: Graph, r: nat, nodes: seq<string>, parent: map<string, string>) {
    forall j, l :: r <= j < l < |nodes| ==> Successive(g, nodes, parent, j, l)
  }

  /** What is not visited comes up later. */
  ghost predicate NoneSkipped(g: Graph, r: nat, nodes: seq<string>, parent: map<string, string>) {
    forall j: nat, i: nat, s {:trigger FoundSooner(g, nodes, parent, j, i, s)} ::
      r <= j < |nodes| && FoundAt(g, nodes, s, i) && s !in nodes ==> FoundSooner(g, nodes, parent, j, i, s)
  }

  /** The first r nodes are the roots; the others are found in order. */
  ghost predicate InOrder(g: Graph, r: nat, nodes: seq<string>, parent: map<string, string>) {
    AllHang(g, r, nodes, parent) && AllSuccessive(g, r, nodes, parent) && NoneSkipped(g, r, nodes, parent)
  }

  /** How far a search has come: through the first c nodes, and the first k successors of the one after them. */
  ghost predicate Scanned(g: Graph, r: nat, nodes: seq<string>, parent: map<string, string>, c: nat, k: nat) {
    && Distinct(nodes) && AllHang(g, r, nodes, parent) && AllSuccessive(g, r, nodes, parent)
    && SeenUpTo(g, nodes, c, k)
    && forall j :: r <= j < |nodes| ==> Passed(g, nodes, parent, c, k, j)
  }

  ghost predicate SeenUpTo(g: Graph, nodes: seq<string>, c: nat, k: nat) {
    && c <= |nodes| && (if c < |nodes| then k <= |g(nodes[c])| else k == 0)
    && (forall i :: 0 <= i < c ==> AllSeen(g(nodes[i]), nodes))
    && (c < |nodes| ==> AllSeen(g(nodes[c])[..k], nodes))
  }

  ghost predicate AllSeen(succs: seq<string>, nodes: seq<string>) {
    forall s :: s in succs ==> s in nodes
  }

  ghost predicate Passed(g: Graph, nodes: seq<string>, parent: map<string, string>, c: nat, k: nat, j: nat) {
    j < |nodes| && c <= |nodes|
    && var i := Above(nodes, parent, j); i < c || (i == c < |nodes| && Place(g(nodes[c]), nodes[j]) < k)
  }

  lemma StartScan(g: Graph, nodes: seq<string>)
    requires Distinct(nodes)
    ensures Scanned(g, |nodes|, nodes, map[], 0, 0)
  {
    assert nodes[|nodes|..] == [];
    if nodes != [] {
      assert g(nodes[0])[..0] == [];
    }
  }

  /** The next successor is known already. */
  lemma SkipSeen(g: Graph, r: nat, nodes: seq<string>, parent: map<string, string>, c: nat, k: nat)
    requires Scanned(g, r, nodes, parent, c, k) && c < |nodes| && k < |g(nodes[c])| && g(nodes[c])[k] in nodes
    ensures Scanned(g, r, nodes, parent, c, k + 1)
  {
    hide AllHang, AllSuccessive, Above, Place;
    var succs, k' := g(nodes[c]), k + 1;
    assert succs[..k'] == succs[..k] + [succs[k]];
    forall j | r <= j < |nodes|
      ensures Passed(g, nodes, parent, c, k', j)
    {
      assert Passed(g, nodes, parent, c, k, j);
    }
  }

  /** All successors of a node have been looked at. */
  lemma NextNode(g: Graph, r: nat, nodes: seq<string>, parent: map<string, string>, c: nat)
    requires c < |nodes| && Scanned(g, r, nodes, parent, c, |g(nodes[c])|)
    ensures Scanned(g, r, nodes, parent, c + 1, 0)
  {
    hide AllHang, AllSuccessive, Above, Place;
    var succs, c' := g(nodes[c]), c + 1;
    assert succs[..|succs|] == succs;
    if c' < |nodes| {
      assert g(nodes[c'])[..0] == [];
    }
    forall j | r <= j < |nodes|
      ensures Passed(g, nodes, parent, c', 0, j)
    {
      assert Passed(g, nodes, parent, c, |succs|, j);
    }
  }

  lemma NotBefore(s: seq<string>, x: string, k: nat)
    requires k <= |s| && x !in s[..k]
    ensures forall i :: 0 <= i < k ==> s[i] != x
  {
    forall i | 0 <= i < k
      ensures s[i] != x
    {
      assert s[..k][i] == s[i];
    }
  }

  /** The first place of x is the one place before which it is not. */
  lemma {:induction false} PlaceIs(s: seq<string>, x: string, k: nat)
    requires k < |s| && s[k] == x && x !in s[..k]
    ensures Place(s, x) == k
  {
    NotBefore(s, x, k);
    NotBefore(s, x, Place(s, x));
  }

  lemma {:induction false} PlaceGrows(nodes: seq<string>, more: seq<string>, x: string)
    requires nodes <= more && x in nodes
    ensures Place(more, x) == Place(nodes, x)
  {
    var k := Place(nodes, x);
    assert nodes[..k] == more[..k];
    PlaceIs(more, x, k);
  }

  lemma FoundStays(g: Graph, nodes: seq<string>, more: seq<string>, parent: map<string, string>,
                   parent': map<string, string>, j: nat)
    requires nodes <= more && FirstParent(g, nodes, parent, j)
    requires nodes[j] in parent' && parent'[nodes[j]] == parent[nodes[j]]
    ensures Above(more, parent', j) == Above(nodes, parent, j) && FirstParent(g, more, parent', j)
  {
    PlaceGrows(nodes, more, parent[nodes[j]]);
  }

  lemma NewNode(g: Graph, r: nat, nodes: seq<string>, parent: map<string, string>, c: nat, k: nat)
    requires Distinct(nodes) && SeenUpTo(g, nodes, c, k) && c < |nodes| && k < |g(nodes[c])|
    requires g(nodes[c])[k] !in nodes
    ensures var s := g(nodes[c])[k];
            var more, parent' := nodes + [s], parent[s := nodes[c]];
            && FirstParent(g, more, parent', |nodes|) && Above(more, parent', |nodes|) == c
            && Place(g(more[c]), s) == k
  {
    var s := g(nodes[c])[k];
    var more := nodes + [s];
    assert s !in g(nodes[c])[..k];
    PlaceIs(g(nodes[c]), s, k);
    assert nodes[c] !in more[..c];
    PlaceIs(more, nodes[c], c);
    forall j | 0 <= j < c
      ensures s !in g(more[j])
    {
      assert AllSeen(g(nodes[j]), nodes);
    }
  }

  lemma MoreSeen(g: Graph, nodes: seq<string>, c: nat, k: nat)
    requires SeenUpTo(g, nodes, c, k) && c < |nodes| && k < |g(nodes[c])|
    ensures SeenUpTo(g, nodes + [g(nodes[c])[k]], c, k + 1)
  {
    var succs := g(nodes[c]);
    var more := nodes + [succs[k]];
    assert succs[..k + 1] == succs[..k] + [succs[k]];
    forall i | 0 <= i < c
      ensures AllSeen(g(more[i]), more)
    {
      assert AllSeen(g(nodes[i]), nodes);
    }
  }

  /** The next successor is new: it goes to the end of the nodes, below the current one. */
  lemma TakeNew(g: Graph, r: nat, nodes: seq<string>, parent: map<string, string>, c: nat, k: nat)
    requires Scanned(g, r, nodes, parent, c, k) && c < |nodes| && k < |g(nodes[c])| && g(nodes[c])[k] !in nodes
    ensures var s := g(nodes[c])[k]; Scanned(g, r, nodes + [s], parent[s := nodes[c]], c, k + 1)
  {
    hide SeenUpTo, FirstParent, Above, Place, Passed, Successive;
    var s := g(nodes[c])[k];
    var more, parent', k' := nodes + [s], parent[s := nodes[c]], k + 1;
    var last := |nodes|;
    assert Distinct(more) by {
      DistinctConcat(nodes, [s]);
    }
    MoreSeen(g, nodes, c, k);
    NewNode(g, r, nodes, parent, c, k);
    assert more[r..] == nodes[r..] + [s];
    assert Elements(more[r..]) == Elements(nodes[r..]) + {s};
    forall j | r <= j < |more|
      ensures FirstParent(g, more, parent', j) && Passed(g, more, parent', c, k', j)
    {
      if j < last {
        OldNode(g, r, nodes, parent, c, k, j);
      } else {
        JustPassed(g, nodes, parent, c, k);
      }
    }
    forall j, l | r <= j < l < |more|
      ensures Successive(g, more, parent', j, l)
    {
      if l < last {
        OldPair(g, r, nodes, parent, c, k, j, l);
      } else {
        NewPair(g, r, nodes, parent, c, k, j);
      }
    }
    assert AllHang(g, r, more, parent') && AllSuccessive(g, r, more, parent') && SeenUpTo(g, more, c, k');
  }

  lemma JustPassed(g: Graph, nodes: seq<string>, parent: map<string, string>, c: nat, k: nat)
    requires c < |nodes| && k < |g(nodes[c])|
    requires var s := g(nodes[c])[k]; var more, parent' := nodes + [s], parent[s := nodes[c]];
             Above(more, parent', |nodes|) == c && Place(g(more[c]), s) == k
    ensures var s := g(nodes[c])[k]; Passed(g, nodes + [s], parent[s := nodes[c]], c, k + 1, |nodes|)
  {
  }

  lemma OldNode(g: Graph, r: nat, nodes: seq<string>, parent: map<string, string>, c: nat, k: nat, j: nat)
    requires Scanned(g, r, nodes, parent, c, k) && c < |nodes| && k < |g(nodes[c])| && g(nodes[c])[k] !in nodes
    requires r <= j < |nodes|
    ensures var s := g(nodes[c])[k];
            var more, parent' := nodes + [s], parent[s := nodes[c]];
            && FirstParent(g, more, parent', j) && Passed(g, more, parent', c, k + 1, j)
            && Above(more, parent', j) == Above(nodes, parent, j)
  {
    hide SeenUpTo, AllSuccessive, Place;
    var s := g(nodes[c])[k];
    assert FirstParent(g, nodes, parent, j) && Passed(g, nodes, parent, c, k, j);
    FoundStays(g, nodes, nodes + [s], parent, parent[s := nodes[c]], j);
  }

  lemma OldPair(g: Graph, r: nat, nodes: seq<string>, parent: map<string, string>, c: nat, k: nat, j: nat, l: nat)
    requires Scanned(g, r, nodes, parent, c, k) && c < |nodes| && k < |g(nodes[c])| && g(nodes[c])[k] !in nodes
    requires r <= j < l < |nodes|
    ensures var s := g(nodes[c])[k]; Successive(g, nodes + [s], parent[s := nodes[c]], j, l)
  {
    hide SeenUpTo, AllHang, Place, Above, Scanned;
    OldNode(g, r, nodes, parent, c, k, j);
    OldNode(g, r, nodes, parent, c, k, l);
    assert Successive(g, nodes, parent, j, l) by { PairOf(g, r, nodes, parent, c, k, j, l); }
  }

  lemma PairOf(g: Graph, r: nat, nodes: seq<string>, parent: map<string, string>, c: nat, k: nat, j: nat, l: nat)
    requires Scanned(g, r, nodes, parent, c, k) && r <= j < l < |nodes|
    ensures Successive(g, nodes, parent, j, l)
  {
  }

  lemma NewPair(g: Graph, r: nat, nodes: seq<string>, parent: map<string, string>, c: nat, k: nat, j: nat)
    requires Scanned(g, r, nodes, parent, c, k) && c < |nodes| && k < |g(nodes[c])| && g(nodes[c])[k] !in nodes
    requires r <= j < |nodes|
    ensures var s := g(nodes[c])[k]; Successive(g, nodes + [s], parent[s := nodes[c]], j, |nodes|)
  {
    hide SeenUpTo, AllHang, Place, Above, AllSuccessive;
    OldNode(g, r, nodes, parent, c, k, j);
    NewNode(g, r, nodes, parent, c, k);
    assert Passed(g, nodes, parent, c, k, j);
  }

  /** Wherever it ends, the search has found its nodes in order. */
  lemma ScannedInOrder(g: Graph, r: nat, nodes: seq<string>, parent: map<string, string>, c: nat, k: nat)
    requires Scanned(g, r, nodes, parent, c, k)
    ensures InOrder(g, r, nodes, parent)
  {
    hide AllHang, AllSuccessive, Above, Place, SeenUpTo, FoundSooner;
    forall j: nat, i: nat, s | r <= j < |nodes| && FoundAt(g, nodes, s, i) && s !in nodes
      ensures FoundSooner(g, nodes, parent, j, i, s)
    {
      assert Passed(g, nodes, parent, c, k, j);
      Later(g, nodes, parent, c, k, j, i, s);
    }
  }

  lemma Later(g: Graph, nodes: seq<string>, parent: map<string, string>, c: nat, k: nat, j: nat, i: nat, s: string)
    requires SeenUpTo(g, nodes, c, k) && Passed(g, nodes, parent, c, k, j)
    requires FoundAt(g, nodes, s, i) && s !in nodes
    ensures FoundSooner(g, nodes, parent, j, i, s)
  {
    hide Above, FoundAt;
    assert i < |nodes| && s in g(nodes[i]) by { AtNode(g, nodes, s, i); }
    if i < c {
      BeforeIsSeen(g, nodes, c, k, i, s);
    } else if i == c {
      NotBefore(g(nodes[c]), s, k);
    }
  }

  lemma BeforeIsSeen(g: Graph, nodes: seq<string>, c: nat, k: nat, i: nat, s: string)
    requires SeenUpTo(g, nodes, c, k) && i < c && s in g(nodes[i])
    ensures s in nodes
  {
    assert AllSeen(g(nodes[i]), nodes);
  }

  lemma AtNode(g: Graph, nodes: seq<string>, s: string, i: nat)
    requires FoundAt(g, nodes, s, i)
    ensures i < |nodes| && s in g(nodes[i])
  {
  }

  // ---- no choice ----

  /** Two such searches from the same roots find the same nodes as far as the shorter one goes. */
  lemma {:induction false} OneOrder(g: Graph, r: nat, a: seq<string>, pa: map<string, string>, b: seq<string>,
                                    pb: map<string, string>, n: nat)
    requires InOrder(g, r, a, pa) && InOrder(g, r, b, pb) && Distinct(a) && Distinct(b)
    requires a[..r] == b[..r] && r <= n <= |a| && n <= |b|
    ensures a[..n] == b[..n]
    ensures forall j :: r <= j < n ==> a[j] in pa && a[j] in pb && pa[a[j]] == pb[a[j]]
  {
    hide AllSuccessive, NoneSkipped, FirstParent, Above, Place, Distinct;
    if n > r {
      var k := n - 1;
      OneOrder(g, r, a, pa, b, pb, k);
      NextSame(g, r, a, pa, b, pb, k);
      SameFound(g, a, pa, b, pb, k);
      assert a[..n] == a[..k] + [a[k]] && b[..n] == b[..k] + [b[k]];
    }
  }

  lemma NextSame(g: Graph, r: nat, a: seq<string>, pa: map<string, string>, b: seq<string>, pb: map<string, string>,
                 k: nat)
    requires InOrder(g, r, a, pa) && InOrder(g, r, b, pb) && Distinct(a) && Distinct(b)
    requires r <= k < |a| && k < |b| && a[..k] == b[..k]
    ensures a[k] == b[k]
  {
    hide InOrder, Above, Distinct, Place;
    SamePrefix(a, b, k);
    if a[k] != b[k] {
      NotBehind(g, r, a, pa, b, pb, k);
      NotBehind(g, r, b, pb, a, pa, k);
    }
  }

  lemma SamePrefix(a: seq<string>, b: seq<string>, k: nat)
    requires k <= |a| && k <= |b| && a[..k] == b[..k]
    ensures forall i :: 0 <= i < k ==> a[i] == b[i]
  {
    forall i | 0 <= i < k
      ensures a[i] == b[i]
    {
      assert a[..k][i] == b[..k][i];
    }
  }

  lemma SameFound(g: Graph, a: seq<string>, pa: map<string, string>, b: seq<string>, pb: map<string, string>, k: nat)
    requires k < |a| && k < |b| && a[..k] == b[..k] && a[k] == b[k]
    requires FirstParent(g, a, pa, k) && FirstParent(g, b, pb, k)
    ensures a[k] in pa && b[k] in pb && pa[a[k]] == pb[b[k]]
  {
    SamePrefix(a, b, k);
  }

  lemma FoundInBoth(g: Graph, a: seq<string>, b: seq<string>, pb: map<string, string>, k: nat)
    requires k <= |a| && k < |b| && a[..k] == b[..k] && FirstParent(g, b, pb, k)
    ensures var i := Above(b, pb, k); i < k && a[i] == b[i] && FoundAt(g, a, b[k], i)
  {
    hide Above;
    SamePrefix(a, b, k);
  }

  lemma OnePlace(g: Graph, a: seq<string>, pa: map<string, string>, l: nat, t: string, i: nat)
    requires FirstParent(g, a, pa, l) && a[l] == t && FoundAt(g, a, t, i)
    ensures Above(a, pa, l) == i
  {
    hide Above;
  }

  lemma InPair(g: Graph, r: nat, a: seq<string>, pa: map<string, string>, k: nat, l: nat)
    requires AllSuccessive(g, r, a, pa) && r <= k < l < |a|
    ensures FoundSooner(g, a, pa, k, Above(a, pa, l), a[l])
  {
    hide Above, FoundSooner;
    assert Successive(g, a, pa, k, l);
  }

  lemma SkippedLater(g: Graph, r: nat, a: seq<string>, pa: map<string, string>, k: nat, i: nat, t: string)
    requires NoneSkipped(g, r, a, pa) && r <= k < |a| && FoundAt(g, a, t, i) && t !in a
    ensures FoundSooner(g, a, pa, k, i, t)
  {
    hide Above, FoundSooner;
  }

  /** The next node of one search does not come later than that of the other. */
  lemma NotBehind(g: Graph, r: nat, a: seq<string>, pa: map<string, string>, b: seq<string>, pb: map<string, string>,
                  k: nat)
    requires InOrder(g, r, a, pa) && InOrder(g, r, b, pb) && Distinct(a) && Distinct(b)
    requires r <= k < |a| && k < |b| && a[..k] == b[..k] && a[k] != b[k]
    ensures Above(a, pa, k) < k && Above(b, pb, k) < k
    ensures Sooner(g, a, Above(a, pa, k), a[k], Above(b, pb, k), b[k])
  {
    hide Above, Place, AllSuccessive, NoneSkipped;
    assert FirstParent(g, a, pa, k) && FirstParent(g, b, pb, k);
    var t, i := b[k], Above(b, pb, k);
    SamePrefix(a, b, k);
    FoundInBoth(g, a, b, pb, k);
    hide FirstParent, FoundAt;
    if t in a {
      var l: nat :| l < |a| && a[l] == t;
      assert l > k;
      assert FirstParent(g, a, pa, l);
      OnePlace(g, a, pa, l, t, i);
      InPair(g, r, a, pa, k, l);
    } else {
      SkippedLater(g, r, a, pa, k, i, t);
    }
  }

  // ---- the path to a node ----

  /** Whatever has a parent is one of its successors, and stands behind the roots. */
  lemma HangsBelow(g: Graph, r: nat, nodes: seq<string>, parent: map<string, string>, n: string)
    requires InOrder(g, r, nodes, parent) && n in parent
    ensures exists k :: r <= k < |nodes| && nodes[k] == n
    ensures parent[n] in nodes && n in g(parent[n])
  {
    hide AllSuccessive, NoneSkipped, Above;
    assert n in nodes[r..];
    var k :| r <= k < |nodes| && nodes[k] == n;
    assert FirstParent(g, nodes, parent, k);
  }

  /** Two walks from one node: where they part, p goes to the earlier successor. */
  ghost predicate GoesFirst(g: Graph, p: seq<string>, w: seq<string>) {
    forall i :: 0 < i < |p| && i < |w| && p[..i] == w[..i] && p[i] != w[i]
                ==> Place(g(p[i - 1]), p[i]) < Place(g(p[i - 1]), w[i])
  }

  /** The next stops p and q of two walks, p not found after q: the stops before them stand in the same order. */
  lemma {:induction false} StepBack(g: Graph, r: nat, nodes: seq<string>, parent: map<string, string>, p: string,
                                    q: string, y: string)
    requires InOrder(g, r, nodes, parent) && Distinct(nodes)
    requires p in parent && q in nodes && y in nodes && q in g(y) && Place(nodes, p) <= Place(nodes, q)
    ensures p in nodes && Place(nodes, parent[p]) <= Place(nodes, y)
    ensures p != q && parent[p] == y ==> Place(g(y), p) < Place(g(y), q)
  {
    hide AllSuccessive, NoneSkipped, FirstParent, FoundAt, Above, Place, Distinct;
    assert p in nodes[r..];
    var k :| r <= k < |nodes| && nodes[k] == p;
    OnlyPlace(nodes, k);
    var j, l := Place(nodes, p), Place(nodes, q);
    assert FirstParent(g, nodes, parent, j) && FirstParent(g, nodes, parent, l);
    AboveIs(g, nodes, parent, j);
    NotAbove(g, nodes, parent, l, y);
    if j < l {
      InPair(g, r, nodes, parent, j, l);
      AboveIs(g, nodes, parent, l);
    }
  }

  lemma {:induction false} OnlyPlace(s: seq<string>, k: nat)
    requires Distinct(s) && k < |s|
    ensures Place(s, s[k]) == k
  {
  }

  lemma {:induction false} AboveIs(g: Graph, nodes: seq<string>, parent: map<string, string>, j: nat)
    requires FirstParent(g, nodes, parent, j)
    ensures Above(nodes, parent, j) == Place(nodes, parent[nodes[j]])
    ensures Above(nodes, parent, j) < |nodes| && nodes[Above(nodes, parent, j)] == parent[nodes[j]]
  {
  }

  lemma {:induction false} NotAbove(g: Graph, nodes: seq<string>, parent: map<string, string>, l: nat, y: string)
    requires FirstParent(g, nodes, parent, l) && y in nodes && nodes[l] in g(y)
    ensures Above(nodes, parent, l) <= Place(nodes, y)
  {
    hide Above;
  }

  /** Of all walks of its length to its end, the path in the tree goes first. */
  lemma TreePathGoesFirst(g: Graph, r: nat, nodes: seq<string>, parent: map<string, string>, p: seq<string>,
                          w: seq<string>)
    requires InOrder(g, r, nodes, parent) && Distinct(nodes)
    requires IsWalk(g, w) && |p| == |w| && p[|p| - 1] == w[|w| - 1]
    requires forall k :: 0 < k < |p| ==> p[k] in parent && parent[p[k]] == p[k - 1]
    requires forall k :: 0 <= k < |w| ==> w[k] in nodes
    ensures GoesFirst(g, p, w)
  {
    hide InOrder, Place, Distinct;
    var m := |p| - 1;
    while m > 0
      invariant 0 <= m < |p| && Place(nodes, p[m]) <= Place(nodes, w[m])
      invariant forall i :: m < i < |p| && p[i - 1] == w[i - 1] && p[i] != w[i]
                            ==> Place(g(p[i - 1]), p[i]) < Place(g(p[i - 1]), w[i])
    {
      assert w[m - 1 + 1] in g(w[m - 1]);
      StepBack(g, r, nodes, parent, p[m], w[m], w[m - 1]);
      m := m - 1;
    }
    forall i | 0 < i < |p| && p[..i] == w[..i]
      ensures p[i - 1] == w[i - 1]
    {
      assert p[..i][i - 1] == w[..i][i - 1];
    }
  }
}
