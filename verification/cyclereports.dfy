/** What the reported import cycles mean, and when they are all of them. */
module CycleReports {
  import opened Prelude
  import opened Ordering
  import opened CycleKeys
  import opened Cycles

  ghost function KeysOf(cycles: seq<seq<string>>): set<string> {
    set c | c in cycles :: Key(c)
  }

  /** Every directed cycle has an edge that closes a simple cycle with a reported key. */
  ghost predicate HitsEveryCycle(rows: seq<ImportRow>, keys: set<string>) {
    forall w {:trigger IsCycle(rows, w)} :: IsCycle(rows, w) ==> Hit(rows, keys, w)
  }

  ghost predicate Hit(rows: seq<ImportRow>, keys: set<string>, w: seq<string>) {
    exists i :: 0 <= i < |w| && ClosesKnown(rows, keys, w[i], Next(w, i))
  }

  ghost predicate ClosesKnown(rows: seq<ImportRow>, keys: set<string>, u: string, v: string) {
    exists c :: SimpleCycle(rows, c) && Closes(c, u, v) && Key(c) in keys
  }

  /** No two lists close with the same edge. */
  ghost predicate OnePerEdge(out: seq<seq<string>>) {
    forall j, k :: 0 <= j < k < |out| ==> !SameEnds(out[j], out[k])
  }

  predicate SameEnds(c: seq<string>, d: seq<string>) {
    c != [] && d != [] && c[0] == d[0] && c[|c| - 1] == d[|d| - 1]
  }

  /**
     What the search returns: simple cycles, one for an edge,
     no key twice, every directed cycle hit, shortest first.
  */
  ghost predicate CycleReport(rows: seq<ImportRow>, out: seq<seq<string>>) {
    && (forall k :: 0 <= k < |out| ==> SimpleCycle(rows, out[k]))
    && (forall j, k :: 0 <= j < k < |out| ==> Key(out[j]) != Key(out[k]))
    && OnePerEdge(out)
    && HitsEveryCycle(rows, KeysOf(out))
    && ShortestFirst(out)
  }

  /** Shortest cycle first, cycles of one length by their keys. */
  ghost predicate ShortestFirst(out: seq<seq<string>>) {
    forall j, k :: 0 <= j < k < |out| ==>
      |out[j]| <= |out[k]| && (|out[j]| == |out[k]| ==> Less(Key(out[j]), Key(out[k])))
  }

  /** A list without two equal keys, sorted. */
  lemma SortedIsShortestFirst(out: seq<seq<string>>)
    requires SortedBy(out, ByLengthAndKey())
    requires forall j, k :: 0 <= j < k < |out| ==> Key(out[j]) != Key(out[k])
    ensures ShortestFirst(out)
  {
    hide Less, Key;
    forall j, k | 0 <= j < k < |out|
      ensures |out[j]| <= |out[k]| && (|out[j]| == |out[k]| ==> Less(Key(out[j]), Key(out[k])))
    {
      assert !ByLengthAndKey()(out[k], out[j]);
      LessTotal(Key(out[j]), Key(out[k]));
    }
  }

  lemma LengthAndKeyOrder()
    ensures StrictWeak(ByLengthAndKey())
  {
    StringsAreOrdered();
    forall a: seq<string>, b: seq<string> | ShorterOrSmaller(a, b)
      ensures !ShorterOrSmaller(b, a)
    {
      assert Strings()(Key(a), Key(b)) ==> !Strings()(Key(b), Key(a));
    }
    forall a: seq<string>, b: seq<string>, c: seq<string> | ShorterOrSmaller(c, a)
      ensures ShorterOrSmaller(b, a) || ShorterOrSmaller(c, b)
    {
      assert Strings()(Key(c), Key(a)) ==> Strings()(Key(b), Key(a)) || Strings()(Key(c), Key(b));
    }
  }

  /** Along an uncovered closed walk the finishing ranks would fall forever. */
  lemma UncoveredImpossible(rows: seq<ImportRow>, st: Run, w: seq<string>) returns (i: nat)
    requires AllEdgesDone(rows, st)
    requires forall u, v :: Imports(rows, u, v) ==> u in st.rank
    requires IsCycle(rows, w)
    ensures i < |w| && Covered(rows, st, w[i], Next(w, i))
  {
    hide Covered, Imports;
    i := 0;
    assert Imports(rows, w[0], Next(w, 0));
    while i < |w| - 1
      invariant 0 <= i < |w|
      invariant w[0] in st.rank && w[i] in st.rank && st.rank[w[i]] <= st.rank[w[0]] - i
    {
      assert Imports(rows, w[i], Next(w, i)) && Imports(rows, w[i + 1], Next(w, i + 1));
      assert EdgeDone(rows, st, w[i], Next(w, i));
      if Covered(rows, st, w[i], Next(w, i)) {
        return;
      }
      i := i + 1;
    }
    assert Imports(rows, w[i], Next(w, i));
    assert EdgeDone(rows, st, w[i], Next(w, i));
  }

  /** Read backwards, two ways of first entries to one node agree as far as the shorter one goes. */
  lemma {:induction false} SharedEnd(parent: map<string, string>, c: seq<string>, d: seq<string>)
    requires TreePath(parent, c) && TreePath(parent, d)
    requires 0 < |c| <= |d| && c[|c| - 1] == d[|d| - 1]
    ensures c == d[|d| - |c|..]
  {
    if |c| > 1 {
      var c', d' := c[..|c| - 1], d[..|d| - 1];
      assert parent[c[|c| - 1]] == c[|c| - 2] && parent[d[|d| - 1]] == d[|d| - 2];
      assert forall i :: 0 <= i < |c'| ==> c'[i] == c[i];
      assert forall i :: 0 <= i < |d'| ==> d'[i] == d[i];
      SharedEnd(parent, c', d');
      assert c == c' + [c[|c| - 1]];
    }
  }

  /** Two ways of first entries with the same ends are one way. */
  lemma UniqueTreePath(parent: map<string, string>, c: seq<string>, d: seq<string>)
    requires TreePath(parent, c) && TreePath(parent, d) && Distinct(c) && Distinct(d) && SameEnds(c, d)
    ensures c == d
  {
    hide TreePath;
    if |c| <= |d| {
      SharedEnd(parent, c, d);
      assert d[|d| - |c|] == d[0];
    } else {
      SharedEnd(parent, d, c);
      assert false;
    }
  }

  lemma TreePathsOnePerEdge(rows: seq<ImportRow>, st: Run)
    requires Valid(rows, st)
    ensures OnePerEdge(st.cycles)
  {
    hide TreePath, Key, IsCycle, AllEdgesDone, SameEnds;
    forall j, k | 0 <= j < k < |st.cycles| && SameEnds(st.cycles[j], st.cycles[k])
      ensures false
    {
      assert Key(st.cycles[j]) != Key(st.cycles[k]);
      UniqueTreePath(st.parent, st.cycles[j], st.cycles[k]);
    }
  }

  /** Reordering the reported cycles changes none of this. */
  lemma SortedKeepsReport(rows: seq<ImportRow>, seen: set<string>, cycles: seq<seq<string>>, out: seq<seq<string>>)
    requires Reported(rows, seen, cycles) && OnePerEdge(cycles) && multiset(out) == multiset(cycles)
    ensures KeysOf(out) == seen
    ensures forall k :: 0 <= k < |out| ==> SimpleCycle(rows, out[k])
    ensures forall j, k :: 0 <= j < k < |out| ==> Key(out[j]) != Key(out[k])
    ensures OnePerEdge(out)
  {
    hide Key, SimpleCycle, SameEnds;
    SameLists(cycles, out);
    forall k | 0 <= k < |out|
      ensures SimpleCycle(rows, out[k]) && Key(out[k]) in seen
    {
      assert out[k] in cycles;
    }
    forall s | s in seen
      ensures s in KeysOf(out)
    {
      var k :| 0 <= k < |cycles| && Key(cycles[k]) == s;
      assert cycles[k] in out;
    }
    forall j, k | 0 <= j < k < |out|
      ensures Key(out[j]) != Key(out[k]) && !SameEnds(out[j], out[k])
    {
      assert out[j] in out && out[k] in out;
      var a :| 0 <= a < |cycles| && cycles[a] == out[j];
      var b :| 0 <= b < |cycles| && cycles[b] == out[k];
      assert a != b;
      EndsAreSymmetric(out[j], out[k]);
    }
  }

  lemma SameLists(cycles: seq<seq<string>>, out: seq<seq<string>>)
    requires multiset(out) == multiset(cycles)
    requires forall j, k :: 0 <= j < k < |cycles| ==> Key(cycles[j]) != Key(cycles[k])
    ensures |out| == |cycles| && Distinct(out)
    ensures forall c :: c in out <==> c in cycles
  {
    hide Key;
    SameElements(cycles, out);
    assert Distinct(cycles);
    forall c
      ensures c in out <==> c in cycles
    {
      assert c in out <==> c in Elements(out);
      assert c in cycles <==> c in Elements(cycles);
    }
  }

  lemma EndsAreSymmetric(c: seq<string>, d: seq<string>)
    ensures SameEnds(c, d) <==> SameEnds(d, c)
  {
  }

  lemma ImporterOf(rows: seq<ImportRow>, u: string, v: string)
    requires Imports(rows, u, v)
    ensures u in Importers(rows)
  {
    assert ImportRow(u, v).from == u;
  }

  lemma {:induction false} ImportersFinished(rows: seq<ImportRow>, order: seq<string>)
    requires StartOrder(rows, order)
    ensures forall u, v :: Imports(rows, u, v) ==> u in SearchAll(rows, order).rank
  {
    hide SearchAll, Imports;
    SearchKeeps(rows, order);
    forall u, v | Imports(rows, u, v)
      ensures u in SearchAll(rows, order).rank
    {
      ImporterOf(rows, u, v);
      assert u in Elements(order);
    }
  }

  /** For every row order and every order of the starts, the search gives such a report. */
  lemma {:induction false} SearchReports(rows: seq<ImportRow>, order: seq<string>)
    requires StartOrder(rows, order)
    ensures CycleReport(rows, Sorted(rows, order))
  {
    hide SortBy, SearchAll, Covered, SimpleCycle, Key, AllEdgesDone, Imports, OnePerEdge, Hit, StartOrder;
    var st, out := SearchAll(rows, order), Sorted(rows, order);
    SearchKeeps(rows, order);
    TreePathsOnePerEdge(rows, st);
    LengthAndKeyOrder();
    SortBySorts(st.cycles, ByLengthAndKey());
    SortedKeepsReport(rows, st.seen, st.cycles, out);
    SortedIsShortestFirst(out);
    ImportersFinished(rows, order);
    forall w | IsCycle(rows, w)
      ensures Hit(rows, st.seen, w)
    {
      var i := UncoveredImpossible(rows, st, w);
      CoveredHits(rows, st, w, i);
    }
  }

  lemma CoveredHits(rows: seq<ImportRow>, st: Run, w: seq<string>, i: nat)
    requires i < |w| && Covered(rows, st, w[i], Next(w, i))
    ensures Hit(rows, st.seen, w)
  {
    hide SimpleCycle, Key, Closes, Next, TreePath;
    var c :| CoveredBy(rows, st, c, w[i], Next(w, i));
    assert ClosesKnown(rows, st.seen, w[i], Next(w, i));
  }

  lemma ReturnedReports(rows: seq<ImportRow>, out: seq<seq<string>>)
    requires Returned(rows, out)
    ensures CycleReport(rows, out)
  {
    hide CycleReport, Sorted;
    var order :| StartOrder(rows, order) && out == Sorted(rows, order);
    SearchReports(rows, order);
  }

  lemma HitMeansReport(rows: seq<ImportRow>, out: seq<seq<string>>, w: seq<string>)
    requires Hit(rows, KeysOf(out), w)
    ensures out != []
  {
    hide SimpleCycle, Key, Closes;
    var i :| 0 <= i < |w| && ClosesKnown(rows, KeysOf(out), w[i], Next(w, i));
  }

  /** Nothing is reported exactly when the import graph has no directed cycle. */
  lemma EmptyIffAcyclic(rows: seq<ImportRow>, out: seq<seq<string>>)
    requires CycleReport(rows, out)
    ensures out == [] <==> Acyclic(rows)
  {
    hide Key, ShortestFirst, Imports, Simple, IsCycle, OnePerEdge, Hit;
    if w :| IsCycle(rows, w) {
      HitMeansReport(rows, out, w);
    }
    if out != [] {
      assert SimpleCycle(rows, out[0]);
    }
  }

  ghost predicate PlainRows(rows: seq<ImportRow>) {
    forall row :: row in rows ==> !HasArrow(row.from) && !HasArrow(row.to)
  }

  lemma PlainCycle(rows: seq<ImportRow>, c: seq<string>)
    requires PlainRows(rows) && IsCycle(rows, c)
    ensures PlainNames(c)
  {
    hide HasArrow;
    forall i | 0 <= i < |c|
      ensures !HasArrow(c[i])
    {
      assert Imports(rows, c[i], Next(c, i));
    }
  }

  /** A key tells a cycle of the graph from every other one. */
  ghost predicate KeysTell(rows: seq<ImportRow>) {
    forall c, d {:trigger SimpleCycle(rows, c), SimpleCycle(rows, d)} ::
      SimpleCycle(rows, c) && SimpleCycle(rows, d) && Key(c) == Key(d) ==> SameCycle(c, d)
  }

  /** The keys of plain names do. */
  lemma PlainRowsTell(rows: seq<ImportRow>)
    requires PlainRows(rows)
    ensures KeysTell(rows)
  {
    hide Key, SameCycle, IsCycle, PlainRows, Simple;
    forall c, d | SimpleCycle(rows, c) && SimpleCycle(rows, d) && Key(c) == Key(d)
      ensures SameCycle(c, d)
    {
      PlainCycle(rows, c);
      PlainCycle(rows, d);
      KeyIffSameCycle(c, d);
    }
  }

  /** No two reported cycles are rotations or reversals of each other. */
  lemma NoTwoAlike(rows: seq<ImportRow>, out: seq<seq<string>>, j: nat, k: nat)
    requires CycleReport(rows, out) && j < k < |out|
    ensures !SameCycle(out[j], out[k])
  {
    hide Key, SameCycle, OnePerEdge, IsCycle;
    assert SimpleCycle(rows, out[j]) && Key(out[j]) != Key(out[k]);
    if SameCycle(out[j], out[k]) {
      SameCycleSameKey(out[j], out[k]);
    }
  }
}
