/** Concrete import graphs on which the report is not what the comments promise. */
module CycleExamples {
  import opened Prelude
  import opened Ordering
  import opened CycleKeys
  import opened Cycles
  import opened CycleReports
  import opened CycleCoverage

  // ---- two cycles through one edge ----

  const SHARED: seq<ImportRow> :=
    [ImportRow("a", "b"), ImportRow("a", "c"), ImportRow("b", "c"), ImportRow("c", "a")]

  lemma {:induction false} TargetsOfMore(rows: seq<ImportRow>, row: ImportRow, u: string)
    ensures TargetsOf(rows + [row], u) == TargetsOf(rows, u) + if row.from == u && row.to != u then [row.to] else []
  {
    TargetsConcat(rows, [row], u);
    assert [row][..0] == [];
  }

  lemma {:induction false} SharedTargets(u: string)
    ensures TargetsOf(SHARED, u)
            == if u == "a" then ["b", "c"] else if u == "b" then ["c"] else if u == "c" then ["a"] else []
  {
    hide TargetsOf;
    var r0, r1, r2, r3 := ImportRow("a", "b"), ImportRow("a", "c"), ImportRow("b", "c"), ImportRow("c", "a");
    assert TargetsOf([], u) == [] by { TargetsOfNone(u); }
    TargetsOfMore([], r0, u);
    TargetsOfMore([r0], r1, u);
    TargetsOfMore([r0, r1], r2, u);
    TargetsOfMore([r0, r1, r2], r3, u);
    assert [] + [r0] == [r0] && [r0] + [r1] == [r0, r1] && [r0, r1] + [r2] == [r0, r1, r2];
    assert [r0, r1, r2] + [r3] == SHARED;
  }

  lemma {:induction false} TargetsOfNone(u: string)
    ensures TargetsOf([], u) == []
  {
  }

  lemma SharedImporters()
    ensures Importers(SHARED) == {"a", "b", "c"}
  {
    assert SHARED[0].from == "a" && SHARED[2].from == "b" && SHARED[3].from == "c";
  }

  lemma SharedSearch()
    ensures var st := Steps(SHARED, ["a"], 0, START);
            st.cycles == [["a", "b", "c"]] && st.rank.Keys == {"a", "b", "c"}
  {
    hide Steps, Key, TargetsOf;
    SharedTargets("a");
    SharedTargets("b");
    SharedTargets("c");
    var a, ab, abc := ["a"], ["a", "b"], ["a", "b", "c"];
    assert a + ["b"] == ab && ab + ["c"] == abc;
    var inB := Entered(START, "a", "b");
    var inC := Entered(inB, "b", "c");
    OneStep(SHARED, a, 0, START);
    OneStep(SHARED, ab, 0, inB);
    OneStep(SHARED, abc, 0, inC);
    var noted := Noted(inC, CutAt(abc, "a"));
    assert LastAt(abc, "a") == 0 && CutAt(abc, "a") == abc;
    LastStep(SHARED, abc, noted);
    var c := Finished(noted, "c");
    LastStep(SHARED, ab, c);
    var b := Finished(c, "b");
    OneStep(SHARED, a, 1, b);
    LastStep(SHARED, a, b);
  }

  /** Starts that are all finished after the first one add nothing. */
  lemma {:induction false} OneStartIsAll(rows: seq<ImportRow>, order: seq<string>)
    requires order != []
    requires forall n :: n in order ==> n in Steps(rows, [order[0]], 0, START).rank
    ensures SearchAll(rows, order) == Steps(rows, [order[0]], 0, START)
  {
    hide Steps;
    var front, node := order[..|order| - 1], order[|order| - 1];
    if |order| == 1 {
      assert SearchAll(rows, front) == START;
    } else {
      OneStartIsAll(rows, front);
    }
  }

  lemma {:induction false} ReturnedIs(rows: seq<ImportRow>, order: seq<string>, out: seq<seq<string>>, c: seq<string>)
    requires StartOrder(rows, order) && SortedBy(order, Strings()) && Returned(rows, out)
    requires SearchAll(rows, order).cycles == [c]
    ensures out == [c]
  {
    hide SearchAll, Importers;
    var other :| StartOrder(rows, other) && SortedBy(other, Strings()) && out == Sorted(rows, other);
    SortedUnique(order, other);
    assert [c][..0] == [];
  }

  lemma LettersSorted()
    ensures SortedBy(["a", "b", "c"], Strings()) && Distinct(["a", "b", "c"])
    ensures Elements(["a", "b", "c"]) == {"a", "b", "c"}
  {
    assert Less("a", "b") && Less("b", "c") && Less("a", "c");
    assert !Less("b", "a") && !Less("c", "b") && !Less("c", "a");
  }

  lemma SharedTwoCycle()
    ensures SimpleCycle(SHARED, ["a", "c"])
  {
    var two := ["a", "c"];
    assert Next(two, 0) == "c" && Next(two, 1) == "a";
    assert SHARED[1] == ImportRow("a", "c") && SHARED[3] == ImportRow("c", "a");
  }

  /** The two-cycle of a and c shares its edge to a with the reported cycle and is never reported. */
  lemma SharedEdgeHidesACycle(out: seq<seq<string>>)
    requires Returned(SHARED, out)
    ensures out == [["a", "b", "c"]]
    ensures SimpleCycle(SHARED, ["a", "c"]) && !ReportsCycle(out, ["a", "c"])
  {
    hide *;
    var order := ["a", "b", "c"];
    SharedSearch();
    SharedTwoCycle();
    ByteOrder(SHARED) by { SharedImporters(); }
    OneStartIsAll(SHARED, order);
    ReturnedIs(SHARED, order, out, order);
    ShorterIsNotReported(order, ["a", "c"]);
  }

  lemma ByteOrder(rows: seq<ImportRow>)
    requires Importers(rows) == {"a", "b", "c"}
    ensures var order := ["a", "b", "c"]; StartOrder(rows, order) && SortedBy(order, Strings())
  {
    hide Importers;
    LettersSorted();
  }

  lemma ShorterIsNotReported(c: seq<string>, d: seq<string>)
    requires |d| < |c|
    ensures !ReportsCycle([c], d)
  {
  }

  // ---- a cycle entered at a later name ----

  const ENTERED: seq<ImportRow> := [ImportRow("a", "c"), ImportRow("c", "b"), ImportRow("b", "c")]

  lemma {:induction false} EnteredTargets(u: string)
    ensures TargetsOf(ENTERED, u)
            == if u == "a" then ["c"] else if u == "b" then ["c"] else if u == "c" then ["b"] else []
  {
    hide TargetsOf;
    var r0, r1, r2 := ImportRow("a", "c"), ImportRow("c", "b"), ImportRow("b", "c");
    assert TargetsOf([], u) == [] by { TargetsOfNone(u); }
    TargetsOfMore([], r0, u);
    TargetsOfMore([r0], r1, u);
    TargetsOfMore([r0, r1], r2, u);
    assert [] + [r0] == [r0] && [r0] + [r1] == [r0, r1] && [r0, r1] + [r2] == ENTERED;
  }

  lemma EnteredImporters()
    ensures Importers(ENTERED) == {"a", "b", "c"}
  {
    assert ENTERED[0].from == "a" && ENTERED[1].from == "c" && ENTERED[2].from == "b";
  }

  lemma EnteredSearch()
    ensures var st := Steps(ENTERED, ["a"], 0, START);
            st.cycles == [["c", "b"]] && st.rank.Keys == {"a", "b", "c"}
  {
    hide Steps, Key, TargetsOf;
    EnteredTargets("a");
    EnteredTargets("b");
    EnteredTargets("c");
    var a, ac, acb := ["a"], ["a", "c"], ["a", "c", "b"];
    assert a + ["c"] == ac && ac + ["b"] == acb;
    var inC := Entered(START, "a", "c");
    var inB := Entered(inC, "c", "b");
    OneStep(ENTERED, a, 0, START);
    OneStep(ENTERED, ac, 0, inC);
    OneStep(ENTERED, acb, 0, inB);
    assert LastAt(acb, "c") == 1 && CutAt(acb, "c") == ["c", "b"];
    var noted := Noted(inB, ["c", "b"]);
    LastStep(ENTERED, acb, noted);
    var b := Finished(noted, "b");
    LastStep(ENTERED, ac, b);
    var c := Finished(b, "c");
    LastStep(ENTERED, a, c);
  }

  lemma LaterNameFirst()
    ensures MinIndex(["c", "b"]) == 1
  {
    assert ["c", "b"][..1] == ["c"];
  }

  /** The reported list starts where the search came in, not at its least name. */
  lemma ReportIsNotRotated(out: seq<seq<string>>)
    requires Returned(ENTERED, out)
    ensures out == [["c", "b"]] && MinIndex(out[0]) == 1
  {
    hide *;
    var order := ["a", "b", "c"];
    EnteredSearch();
    LaterNameFirst();
    ByteOrder(ENTERED) by { EnteredImporters(); }
    OneStartIsAll(ENTERED, order);
    ReturnedIs(ENTERED, order, out, ["c", "b"]);
  }

  // ---- names that contain the arrow ----

  function ArrowRows(): seq<ImportRow> {
    [ImportRow("a->b", "c"), ImportRow("c", "a->b"), ImportRow("a", "b->c"), ImportRow("b->c", "a")]
  }

  /** The two disjoint two-cycles of these rows are all their simple cycles, and share one key. */
  lemma ArrowCycles(c: seq<string>)
    requires SimpleCycle(ArrowRows(), c)
    ensures c in [["a->b", "c"], ["c", "a->b"], ["a", "b->c"], ["b->c", "a"]]
  {
    hide Less;
    assert Imports(ArrowRows(), c[0], Next(c, 0)) && Imports(ArrowRows(), c[1], Next(c, 1));
    assert Next(c, 1) == c[0];
    assert |c| == 2 && c == [c[0], c[1]];
  }

  lemma ArrowKey(c: seq<string>)
    requires c in [["a->b", "c"], ["c", "a->b"], ["a", "b->c"], ["b->c", "a"]]
    ensures Key(c) == Key(["a->b", "c"])
  {
    hide Less, Key, Turn;
    ArrowNamesCollide();
    var p, q := ["a->b", "c"], ["a", "b->c"];
    TurnKeepsKey(p, 1);
    TurnKeepsKey(q, 1);
    SwapTwo(p);
    SwapTwo(q);
  }

  lemma SwapTwo(c: seq<string>)
    requires |c| == 2
    ensures Turn(c, 1) == [c[1], c[0]]
  {
    MovedAt(c, 1, 0);
    MovedAt(c, 1, 1);
  }

  lemma ArrowReportIsShort(out: seq<seq<string>>)
    requires CycleReport(ArrowRows(), out)
    ensures |out| <= 1
    ensures out != [] ==> out[0] in [["a->b", "c"], ["c", "a->b"], ["a", "b->c"], ["b->c", "a"]]
  {
    hide Less, Key, SimpleCycle, ShortestFirst, HitsEveryCycle, OnePerEdge;
    assert |out| > 1 ==> Key(out[0]) != Key(out[1]);
    forall k | 0 <= k < |out|
      ensures out[k] in [["a->b", "c"], ["c", "a->b"], ["a", "b->c"], ["b->c", "a"]]
      ensures Key(out[k]) == Key(["a->b", "c"])
    {
      assert SimpleCycle(ArrowRows(), out[k]);
      ArrowCycles(out[k]);
      ArrowKey(out[k]);
    }
  }

  lemma ArrowWalks()
    ensures IsCycle(ArrowRows(), ["a->b", "c"]) && IsCycle(ArrowRows(), ["a", "b->c"])
  {
    var p, q := ["a->b", "c"], ["a", "b->c"];
    assert Next(p, 0) == "c" && Next(p, 1) == "a->b" && Next(q, 0) == "b->c" && Next(q, 1) == "a";
  }

  ghost predicate Missed(out: seq<seq<string>>, w: seq<string>) {
    forall i, k :: 0 <= i < |w| && 0 <= k < |out| ==> !(w[i] in out[k] && Next(w, i) in out[k])
  }

  /** Without the restriction to plain names the report can miss a cycle altogether. */
  lemma ArrowNamesHideACycle(out: seq<seq<string>>)
    requires CycleReport(ArrowRows(), out)
    ensures exists w :: IsCycle(ArrowRows(), w) && Missed(out, w)
  {
    hide CycleReport, IsCycle, ArrowRows;
    ArrowReportIsShort(out);
    ArrowWalks();
    var p, q := ["a->b", "c"], ["a", "b->c"];
    if out != [] && "c" in out[0] {
      assert Missed(out, q);
    } else {
      assert Missed(out, p);
    }
  }
}
