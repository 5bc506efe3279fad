/** Where the reported cycles start, and for which graphs that is always their least name. */
module CycleHeads {
  import opened Ordering
  import opened CycleKeys
  import opened Cycles
  import opened CycleReports
  import opened CycleCoverage

  /** The first name of each list is its least. */
  ghost predicate AllRotated(out: seq<seq<string>>) {
    forall c :: c in out ==> c != [] && MinIndex(c) == 0
  }

  /** A search can come to the simple cycle c at a name that is not its least, with all of c ahead. */
  ghost predicate EntersLate(rows: seq<ImportRow>, order: seq<string>, c: seq<string>, k: nat, p: seq<string>) {
    SimpleCycle(rows, c) && MinIndex(c) != 0 && ComesTo(rows, order, c, k, p)
  }

  ghost predicate CanEnterLate(rows: seq<ImportRow>, order: seq<string>) {
    exists c, k: nat, p :: EntersLate(rows, order, c, k, p)
  }

  /** A list that does not start at its least name was entered late. */
  lemma UnrotatedIsLate(rows: seq<ImportRow>, order: seq<string>)
    requires StartOrder(rows, order) && !AllRotated(Sorted(rows, order))
    ensures CanEnterLate(rows, order)
  {
    hide SearchAll, Sorted, IsCycle, MinIndex, ComesTo, TreePath, Importers;
    var c :| c in Sorted(rows, order) && !(c != [] && MinIndex(c) == 0);
    ReportedAlong(rows, order, c);
    var k, p := CameTo(rows, order, c);
    assert EntersLate(rows, order, c, k, p);
  }

  /** When keys tell cycles apart, a cycle that can be entered late is returned unrotated for some order of the rows. */
  lemma LateIsUnrotated(rows: seq<ImportRow>, order: seq<string>, c: seq<string>, k: nat, p: seq<string>)
    returns (rows': seq<ImportRow>)
    requires KeysTell(rows) && StartOrder(rows, order) && EntersLate(rows, order, c, k, p)
    ensures SameRows(rows, rows') && c in Sorted(rows', order) && !AllRotated(Sorted(rows', order))
  {
    hide KeysTell, SearchAll, Sorted, SimpleCycle, MinIndex, Leads, TreePath, SameRows, Imports, IsPath, FirstTo;
    rows' := LeadingRows(rows, p + c[1..]);
    SameImports(rows, rows');
    SameKeysTell(rows, rows');
    SameCycles(rows, rows', c);
    SameComing(rows, rows', order, c, k, p);
    GoesRound(rows', order, c, k, p);
    ReportedIff(rows', order, c);
  }

  lemma SameLateness(a: seq<ImportRow>, b: seq<ImportRow>, order: seq<string>, c: seq<string>, k: nat, p: seq<string>)
    requires SameGraph(a, b) && EntersLate(a, order, c, k, p)
    ensures EntersLate(b, order, c, k, p)
  {
    hide SimpleCycle, MinIndex, ComesTo, Imports;
    SameCycles(a, b, c);
    SameComing(a, b, order, c, k, p);
  }

  /** Every list starts at its least name, whatever the order in which the database gives the rows. */
  ghost predicate AlwaysRotated(rows: seq<ImportRow>, order: seq<string>) {
    forall rows' {:trigger SameRows(rows, rows')} :: SameRows(rows, rows') ==> AllRotated(Sorted(rows', order))
  }

  /** If keys tell cycles apart, that is so exactly when no cycle can be entered late. */
  lemma RotatedIff(rows: seq<ImportRow>, order: seq<string>)
    requires KeysTell(rows) && StartOrder(rows, order)
    ensures AlwaysRotated(rows, order) <==> !CanEnterLate(rows, order)
  {
    hide KeysTell, SimpleCycle, MinIndex, ComesTo, Sorted, AllRotated, SameRows, Imports, Importers;
    if c, k: nat, p :| EntersLate(rows, order, c, k, p) {
      var rows' := LateIsUnrotated(rows, order, c, k, p);
    } else {
      forall rows' | SameRows(rows, rows')
        ensures AllRotated(Sorted(rows', order))
      {
        SameImports(rows, rows');
        if !AllRotated(Sorted(rows', order)) {
          UnrotatedIsLate(rows', order);
          var c, k: nat, p :| EntersLate(rows', order, c, k, p);
          SameLateness(rows', rows, order, c, k, p);
        }
      }
    }
  }

  /** The same of what the code returns, with the starts in byte order. */
  lemma ImportCyclesRotatedIff(rows: seq<ImportRow>, order: seq<string>)
    requires KeysTell(rows) && StartOrder(rows, order) && SortedBy(order, Strings())
    ensures (forall rows', out :: SameRows(rows, rows') && Returned(rows', out) ==> AllRotated(out))
            <==> !CanEnterLate(rows, order)
  {
    hide KeysTell, SameRows, CanEnterLate, Sorted, AllRotated, Importers, Returned;
    RotatedIff(rows, order);
    forall rows', out | SameRows(rows, rows')
      ensures Returned(rows', out) <==> out == Sorted(rows', order)
    {
      ReturnedIff(rows, rows', order, out);
    }
  }
}
