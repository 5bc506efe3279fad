/** Writing one parse result: the file's rows are replaced, positions become row ids, parents are linked last. */
module Writer {
  import opened Prelude
  import opened Tables
  import opened Transaction

  /** Symbols name their parent, and refs their source, by position in the symbol list. */
  datatype ParsedSymbol = ParsedSymbol(decl: Decl, parent: Option<nat>)

  datatype ParsedRef = ParsedRef(fromSymbol: int, toQualified: string, kind: string, line: int)

  datatype ParseResult = ParseResult(relPath: string, hash: string, mtime: int, size: int, lang: string,
                                     symbols: seq<ParsedSymbol>, refs: seq<ParsedRef>)

  /** A parent position past the end of the list would be an index out of range. */
  ghost predicate ParentsInRange(r: ParseResult) {
    forall i :: 0 <= i < |r.symbols| && r.symbols[i].parent.Some? ==> r.symbols[i].parent.value < |r.symbols|
  }

  /** No symbol names a parent that comes later in the list. */
  ghost predicate ParentsBackward(symbols: seq<ParsedSymbol>) {
    forall i :: 0 <= i < |symbols| && symbols[i].parent.Some? ==> symbols[i].parent.value <= i
  }

  /** The refs whose source position exists. */
  function Kept(refs: seq<ParsedRef>, n: nat): (k: seq<ParsedRef>)
    ensures forall x :: x in k ==> 0 <= x.fromSymbol < n
  {
    if refs == [] then []
    else
      var front, last := Kept(refs[..|refs| - 1], n), refs[|refs| - 1];
      if 0 <= last.fromSymbol < n then front + [last] else front
  }

  /** The index entry a parse result stands for. */
  ghost function EntryOf(r: ParseResult): Entry {
    var kept := Kept(r.refs, |r.symbols|);
    Entry(r.hash, r.lang,
          seq(|r.symbols|, i requires 0 <= i < |r.symbols| => SymbolView(r.symbols[i].decl, r.symbols[i].parent)),
          seq(|kept|, i requires 0 <= i < |kept| =>
            assert kept[i] in kept;
            RefView(kept[i].fromSymbol, kept[i].toQualified, kept[i].kind, kept[i].line)))
  }

  // ---- what an entry records ----

  /** The places of the refs whose source is one of n symbols, in order. */
  ghost predicate SourcedAt(refs: seq<ParsedRef>, n: nat, places: seq<nat>) {
    && Ascending(places)
    && (forall i :: 0 <= i < |places| ==> places[i] < |refs|)
    && (forall k: nat :: k < |refs| ==> (k in places <==> 0 <= refs[k].fromSymbol < n))
  }

  ghost predicate SameRef(v: RefView, ref: ParsedRef) {
    v.from == ref.fromSymbol && v.toQualified == ref.toQualified && v.kind == ref.kind && v.line == ref.line
  }

  ghost predicate RecordsRefs(refs: seq<ParsedRef>, n: nat, views: seq<RefView>, places: seq<nat>) {
    && SourcedAt(refs, n, places) && |views| == |places|
    && forall i :: 0 <= i < |places| ==> SameRef(views[i], refs[places[i]])
  }

  /** The entry holds all of the symbols and exactly the refs with a source among them, in order and field by field. */
  ghost predicate Records(symbols: seq<ParsedSymbol>, refs: seq<ParsedRef>, e: Entry) {
    && |e.symbols| == |symbols|
    && (forall i :: 0 <= i < |symbols| ==>
          e.symbols[i].decl == symbols[i].decl && e.symbols[i].parent == symbols[i].parent)
    && exists places :: RecordsRefs(refs, |symbols|, e.refs, places)
  }

  ghost predicate TakenFrom(kept: seq<ParsedRef>, refs: seq<ParsedRef>, places: seq<nat>) {
    |places| == |kept| && forall i :: 0 <= i < |places| ==> places[i] < |refs| && kept[i] == refs[places[i]]
  }

  lemma TakeOne(kept: seq<ParsedRef>, refs: seq<ParsedRef>, places: seq<nat>, x: ParsedRef)
    requires TakenFrom(kept, refs, places)
    ensures TakenFrom(kept, refs + [x], places) && TakenFrom(kept + [x], refs + [x], places + [|refs|])
  {
  }

  /** The kept refs stand at ascending places, and at no place is one with a source left out. */
  lemma {:induction false} KeptPlaces(refs: seq<ParsedRef>, n: nat) returns (places: seq<nat>)
    ensures SourcedAt(refs, n, places) && TakenFrom(Kept(refs, n), refs, places)
  {
    hide SourcedAt, TakenFrom;
    if refs == [] {
      NoneSourced(n);
      places := [];
    } else {
      var front, x := refs[..|refs| - 1], refs[|refs| - 1];
      var before := KeptPlaces(front, n);
      NextSourced(front, x, n, before);
      TakeOne(Kept(front, n), front, before, x);
      assert refs == front + [x];
      places := if 0 <= x.fromSymbol < n then before + [|front|] else before;
    }
  }

  lemma NoneSourced(n: nat)
    ensures SourcedAt([], n, []) && TakenFrom([], [], [])
  {
  }

  lemma NextSourced(front: seq<ParsedRef>, x: ParsedRef, n: nat, before: seq<nat>)
    requires SourcedAt(front, n, before)
    ensures SourcedAt(front + [x], n, if 0 <= x.fromSymbol < n then before + [|front|] else before)
  {
    var refs, last := front + [x], |front|;
    var places := if 0 <= x.fromSymbol < n then before + [last] else before;
    assert last !in before;
    forall k: nat | k < |refs|
      ensures k in places <==> 0 <= refs[k].fromSymbol < n
    {
      if k < last {
        assert refs[k] == front[k];
        assert k in before <==> 0 <= front[k].fromSymbol < n;
        assert k in places <==> k in before;
      }
    }
  }

  /** One list of places, and so one list of refs. */
  lemma SourcedOnce(refs: seq<ParsedRef>, n: nat, a: seq<nat>, b: seq<nat>)
    requires SourcedAt(refs, n, a) && SourcedAt(refs, n, b)
    ensures a == b
  {
    forall k
      ensures k in a <==> k in b
    {
      if k in a || k in b {
        assert k < |refs|;
      }
    }
    assert Elements<nat>(a) == Elements<nat>(b);
    AscendingIsSorted(a);
    AscendingIsSorted(b);
  }

  lemma EntryRecords(r: ParseResult)
    ensures Records(r.symbols, r.refs, EntryOf(r))
  {
    var places := KeptPlaces(r.refs, |r.symbols|);
    var kept, e := Kept(r.refs, |r.symbols|), EntryOf(r);
    forall i | 0 <= i < |places|
      ensures SameRef(e.refs[i], r.refs[places[i]])
    {
      assert kept[i] in kept;
    }
    assert RecordsRefs(r.refs, |r.symbols|, e.refs, places);
  }

  /** Nothing else is left open: two entries that record the same result are the same up to hash and language. */
  lemma RecordsOnce(symbols: seq<ParsedSymbol>, refs: seq<ParsedRef>, a: Entry, b: Entry)
    requires Records(symbols, refs, a) && Records(symbols, refs, b)
    ensures a.symbols == b.symbols && a.refs == b.refs
  {
    var pa :| RecordsRefs(refs, |symbols|, a.refs, pa);
    var pb :| RecordsRefs(refs, |symbols|, b.refs, pb);
    SourcedOnce(refs, |symbols|, pa, pb);
    assert forall i :: 0 <= i < |pa| ==> a.refs[i] == b.refs[i];
    assert forall i :: 0 <= i < |symbols| ==> a.symbols[i] == b.symbols[i];
  }

  // ---- appending rows ----

  /** cur is base with the given rows appended at fresh ascending ids. */
  ghost predicate RowsAdded<Row>(base: map<nat, Row>, cur: map<nat, Row>, ids: seq<nat>, rows: seq<Row>) {
    && |ids| == |rows|
    && Ascending(ids)
    && (forall i :: 0 <= i < |ids| ==> NewId(base, ids[i]))
    && cur.Keys == base.Keys + Elements(ids)
    && (forall s :: s in base ==> cur[s] == base[s])
    && (forall i :: 0 <= i < |ids| ==> ids[i] in cur && cur[ids[i]] == rows[i])
  }

  ghost predicate NewId<Row>(base: map<nat, Row>, id: nat) {
    id > 0 && forall s :: s in base ==> s < id
  }

  lemma AddOneRow<Row>(base: map<nat, Row>, cur: map<nat, Row>, ids: seq<nat>, rows: seq<Row>, row: Row)
    requires RowsAdded(base, cur, ids, rows)
    ensures var id := NextId(cur.Keys);
            id !in cur && RowsAdded(base, cur[id := row], ids + [id], rows + [row])
  {
    hide NewId;
    var id := NextId(cur.Keys);
    var cur', ids' := cur[id := row], ids + [id];
    assert Elements(ids') == Elements(ids) + {id};
    assert NewId(base, id) by {
      NewIsNew(base, cur);
    }
    forall i | 0 <= i < |ids|
      ensures ids[i] < id
    {
      assert ids[i] in cur.Keys;
    }
  }

  lemma NewIsNew<Row>(base: map<nat, Row>, cur: map<nat, Row>)
    requires base.Keys <= cur.Keys
    ensures NewId(base, NextId(cur.Keys))
  {
    assert forall s :: s in base ==> s in cur.Keys;
  }

  /** The rows a parse result inserts first: every parent still open. */
  function OpenRows(f: nat, symbols: seq<ParsedSymbol>): (rows: seq<SymbolRow>)
    ensures |rows| == |symbols|
  {
    seq(|symbols|, i requires 0 <= i < |symbols| => SymbolRow(f, symbols[i].decl, None))
  }

  datatype Link = Link(child: nat, parent: nat)

  /** The parent id read while row i is inserted: 0 when that row is not there yet. */
  function ParentId(ids: seq<nat>, i: nat, p: nat): nat {
    if p <= i && p < |ids| then ids[p] else 0
  }

  /** The pending links of the first n symbols. */
  function Links(symbols: seq<ParsedSymbol>, ids: seq<nat>, n: nat): (links: seq<Link>)
    requires n <= |symbols| && n <= |ids|
  {
    if n == 0 then []
    else
      var front, s := Links(symbols, ids, n - 1), symbols[n - 1];
      if s.parent.Some? then front + [Link(ids[n - 1], ParentId(ids, n - 1, s.parent.value))] else front
  }

  /** Rows may be appended without changing earlier links. */
  lemma {:induction false} LinksPrefix(symbols: seq<ParsedSymbol>, ids: seq<nat>, more: seq<nat>, n: nat)
    requires n <= |symbols| && n <= |ids|
    ensures Links(symbols, ids + more, n) == Links(symbols, ids, n)
  {
    if n > 0 {
      LinksPrefix(symbols, ids, more, n - 1);
    }
  }

  /** The parent that the first n links give to a row. */
  function LinkedTo(links: seq<Link>, child: nat): Option<nat> {
    if links == [] then None
    else if links[|links| - 1].child == child then Some(links[|links| - 1].parent)
    else LinkedTo(links[..|links| - 1], child)
  }

  lemma {:induction false} LinksOfRow(symbols: seq<ParsedSymbol>, ids: seq<nat>, n: nat, i: nat)
    requires n <= |symbols| && n <= |ids| && i < n && Ascending(ids)
    ensures LinkedTo(Links(symbols, ids, n), ids[i]) ==
            match symbols[i].parent case None => None case Some(p) => Some(ParentId(ids, i, p))
  {
    LinksBelow(symbols, ids, n - 1);
    if i < n - 1 {
      LinksOfRow(symbols, ids, n - 1, i);
    } else {
      NotLinked(Links(symbols, ids, n - 1), ids[i]);
    }
    var links, front := Links(symbols, ids, n), Links(symbols, ids, n - 1);
    if symbols[n - 1].parent.Some? {
      assert links[..|links| - 1] == front;
    }
  }

  ghost predicate IsLink(symbols: seq<ParsedSymbol>, ids: seq<nat>, n: nat, l: Link)
    requires n <= |symbols| && n <= |ids|
  {
    exists i :: 0 <= i < n && symbols[i].parent.Some? && l == Link(ids[i], ParentId(ids, i, symbols[i].parent.value))
  }

  lemma {:induction false} LinksBelow(symbols: seq<ParsedSymbol>, ids: seq<nat>, n: nat)
    requires n <= |symbols| && n <= |ids|
    ensures forall l :: l in Links(symbols, ids, n) ==> IsLink(symbols, ids, n, l)
  {
    if n > 0 {
      LinksBelow(symbols, ids, n - 1);
    }
  }

  lemma {:induction false} NotLinked(links: seq<Link>, child: nat)
    requires forall l :: l in links ==> l.child != child
    ensures LinkedTo(links, child) == None
  {
    if links != [] {
      assert links[|links| - 1] in links;
      NotLinked(links[..|links| - 1], child);
    }
  }

  /** cur is added with the given links applied. */
  ghost predicate SymbolsLinked(added: map<nat, SymbolRow>, cur: map<nat, SymbolRow>, links: seq<Link>) {
    && cur.Keys == added.Keys
    && forall s :: s in added ==>
         cur[s] == match LinkedTo(links, s) case None => added[s] case Some(p) => added[s].(parent := Some(p))
  }

  lemma LinkOne(added: map<nat, SymbolRow>, cur: map<nat, SymbolRow>, links: seq<Link>, l: Link)
    requires SymbolsLinked(added, cur, links) && l.child in cur
    ensures SymbolsLinked(added, cur[l.child := cur[l.child].(parent := Some(l.parent))], links + [l])
  {
    assert (links + [l])[..|links|] == links;
  }

  // ---- refs ----

  function RefRowOf(ids: seq<nat>, ref: ParsedRef): RefRow
    requires 0 <= ref.fromSymbol < |ids|
  {
    RefRow(ids[ref.fromSymbol], ref.toQualified, ref.kind, ref.line)
  }

  function RefRows(ids: seq<nat>, kept: seq<ParsedRef>): (rows: seq<RefRow>)
    requires forall x :: x in kept ==> 0 <= x.fromSymbol < |ids|
    ensures |rows| == |kept|
  {
    seq(|kept|, i requires 0 <= i < |kept| => assert kept[i] in kept; RefRowOf(ids, kept[i]))
  }

  // ---- the writer ----

  method InsertSymbols(tx: Tx, f: nat, symbols: seq<ParsedSymbol>) returns (ids: seq<nat>, pending: seq<Link>)
    requires forall i :: 0 <= i < |symbols| && symbols[i].parent.Some? ==> symbols[i].parent.value < |symbols|
    modifies tx`symbols
    ensures RowsAdded(old(tx.symbols), tx.symbols, ids, OpenRows(f, symbols))
    ensures |ids| == |symbols| && pending == Links(symbols, ids, |symbols|)
  {
    hide RowsAdded;
    ghost var base := tx.symbols;
    var symIds := new nat[|symbols|](_ => 0);
    pending := [];
    NoRows(base);
    for i := 0 to |symbols|
      invariant RowsAdded(base, tx.symbols, symIds[..i], OpenRows(f, symbols[..i]))
      invariant forall j :: i <= j < |symbols| ==> symIds[j] == 0
      invariant pending == Links(symbols, symIds[..i], i)
    {
      AddOneRow(base, tx.symbols, symIds[..i], OpenRows(f, symbols[..i]), SymbolRow(f, symbols[i].decl, None));
      assert OpenRows(f, symbols[..i + 1]) == OpenRows(f, symbols[..i]) + [SymbolRow(f, symbols[i].decl, None)];
      LinksPrefix(symbols, symIds[..i], [NextId(tx.symbols.Keys)], i);
      ghost var before := symIds[..i];
      var id := tx.InsertSymbol(SymbolRow(f, symbols[i].decl, None));
      symIds[i] := id;
      assert symIds[..i + 1] == before + [id];
      if symbols[i].parent.Some? {
        pending := pending + [Link(id, symIds[symbols[i].parent.value])];
      }
    }
    assert symbols[..|symbols|] == symbols;
    ids := symIds[..];
    assert ids == symIds[..|symbols|];
  }

  lemma NoRows<Row>(base: map<nat, Row>)
    ensures RowsAdded(base, base, [], [])
  {
    assert Elements<nat>([]) == {};
  }

  method LinkParents(tx: Tx, pending: seq<Link>) returns (ok: bool)
    requires forall l :: l in pending ==> l.child in tx.symbols
    modifies tx`symbols
    ensures ok <==> forall l :: l in pending ==> l.parent in old(tx.symbols)
    ensures ok ==> SymbolsLinked(old(tx.symbols), tx.symbols, pending)
  {
    ghost var added := tx.symbols;
    for k := 0 to |pending|
      invariant SymbolsLinked(added, tx.symbols, pending[..k])
      invariant forall l :: l in pending[..k] ==> l.parent in added
    {
      assert pending[k] in pending;
      LinkOne(added, tx.symbols, pending[..k], pending[k]);
      assert pending[..k + 1] == pending[..k] + [pending[k]];
      ok := tx.SetSymbolParent(pending[k].child, pending[k].parent);
      if !ok {
        return;
      }
    }
    assert pending[..|pending|] == pending;
    ok := true;
  }

  method InsertRefs(tx: Tx, ids: seq<nat>, refs: seq<ParsedRef>) returns (ghost refIds: seq<nat>)
    requires forall i :: 0 <= i < |ids| ==> ids[i] != 0
    modifies tx`refs
    ensures RowsAdded(old(tx.refs), tx.refs, refIds, RefRows(ids, Kept(refs, |ids|)))
    ensures exists places :: RefRowsAt(refs, ids, tx.refs, refIds, places)
  {
    hide RowsAdded, RefRowsAt;
    ghost var base := tx.refs;
    refIds := [];
    NoRows(base);
    for k := 0 to |refs|
      invariant RowsAdded(base, tx.refs, refIds, RefRows(ids, Kept(refs[..k], |ids|)))
    {
      var ref := refs[k];
      ghost var kept := Kept(refs[..k], |ids|);
      assert refs[..k + 1][..k] == refs[..k];
      // an out-of-range source is reported and dropped; a known source never has the id 0
      if 0 <= ref.fromSymbol < |ids| && ids[ref.fromSymbol] != 0 {
        AddOneRow(base, tx.refs, refIds, RefRows(ids, kept), RefRowOf(ids, ref));
        RefRowsAppend(ids, kept, ref);
        refIds := refIds + [NextId(tx.refs.Keys)];
        tx.InsertRef(RefRowOf(ids, ref));
      }
    }
    assert refs[..|refs|] == refs;
    RowsAreRefs(base, refs, ids, tx.refs, refIds);
  }

  /** The new rows are the refs with a known source, in order and field by field. */
  ghost predicate RefRowsAt(refs: seq<ParsedRef>, ids: seq<nat>, rows: map<nat, RefRow>, refIds: seq<nat>,
                            places: seq<nat>) {
    && SourcedAt(refs, |ids|, places) && |refIds| == |places|
    && forall i :: 0 <= i < |places| ==> refIds[i] in rows && IsRowOf(ids, rows[refIds[i]], refs[places[i]])
  }

  ghost predicate IsRowOf(ids: seq<nat>, row: RefRow, ref: ParsedRef) {
    && 0 <= ref.fromSymbol < |ids| && row.fromSymbol == ids[ref.fromSymbol]
    && row.toQualified == ref.toQualified && row.kind == ref.kind && row.line == ref.line
  }

  lemma {:induction false} RowsAreRefs(base: map<nat, RefRow>, refs: seq<ParsedRef>, ids: seq<nat>,
                                       rows: map<nat, RefRow>, refIds: seq<nat>)
    requires RowsAdded(base, rows, refIds, RefRows(ids, Kept(refs, |ids|)))
    ensures exists places :: RefRowsAt(refs, ids, rows, refIds, places)
  {
    hide NewId, SourcedAt;
    var places := KeptPlaces(refs, |ids|);
    var kept := Kept(refs, |ids|);
    forall i | 0 <= i < |places|
      ensures refIds[i] in rows && IsRowOf(ids, rows[refIds[i]], refs[places[i]])
    {
      assert kept[i] in kept;
      assert rows[refIds[i]] == RefRows(ids, kept)[i];
    }
    assert RefRowsAt(refs, ids, rows, refIds, places);
  }

  lemma RefRowsAppend(ids: seq<nat>, kept: seq<ParsedRef>, ref: ParsedRef)
    requires forall x :: x in kept ==> 0 <= x.fromSymbol < |ids|
    requires 0 <= ref.fromSymbol < |ids|
    ensures RefRows(ids, kept + [ref]) == RefRows(ids, kept) + [RefRowOf(ids, ref)]
  {
    var rows := RefRows(ids, kept + [ref]);
    forall i | 0 <= i < |kept|
      ensures rows[i] == RefRows(ids, kept)[i]
    {
      assert (kept + [ref])[i] == kept[i];
    }
  }

  /** The file row is in place and its old content gone. */
  ghost predicate ReadyFor(db: Db, db': Db, f: nat, row: FileRow) {
    && Consistent(db')
    && db'.files == db.files[f := row]
    && SymbolsOf(db', f) == {} == RefsOf(db', f)
    && (forall g :: g in db.files && g != f ==> SameFile(db, db', g))
  }

  lemma RowInPlace(db: Db, f: nat, row: FileRow)
    requires Consistent(db) && FileSlot(db, row.path, f)
    ensures Consistent(WithFile(db, f, row))
  {
    assert forall j :: j in db.files && db.files[j].path == row.path ==> row.path in Paths(db);
  }

  lemma Cleared(db: Db, f: nat, row: FileRow)
    requires Consistent(db) && FileSlot(db, row.path, f)
    ensures var d := WithFile(db, f, row); ReadyFor(db, WithoutSymbols(d, SymbolsOf(d, f)), f, row)
  {
    hide Consistent, Doomed;
    RowInPlace(db, f, row);
    var d := WithFile(db, f, row);
    var base := SymbolsOf(d, f);
    assert base == set s | s in d.symbols && d.symbols[s].fileId in {f};
    DropFiles(d, {f}, base);
    var d2 := WithoutSymbols(d, base);
    forall g | g in db.files && g != f
      ensures SameFile(db, d2, g)
    {
      assert SymbolsOf(db, g) == SymbolsOf(d, g) == SymbolsOf(d2, g);
      assert RefsOf(db, g) == RefsOf(d, g) == RefsOf(d2, g);
    }
  }

  lemma {:induction false} LinkedInList(links: seq<Link>, child: nat)
    ensures LinkedTo(links, child).Some? ==> Link(child, LinkedTo(links, child).value) in links
  {
    if links != [] {
      LinkedInList(links[..|links| - 1], child);
      assert links == links[..|links| - 1] + [links[|links| - 1]];
    }
  }

  /** Every pending link can be made exactly when all parents come first. */
  lemma {:induction false} LinksReachable(base: map<nat, SymbolRow>, added: map<nat, SymbolRow>, f: nat,
                                          symbols: seq<ParsedSymbol>, ids: seq<nat>)
    requires RowsAdded(base, added, ids, OpenRows(f, symbols)) && 0 !in base
    requires forall i :: 0 <= i < |symbols| && symbols[i].parent.Some? ==> symbols[i].parent.value < |symbols|
    ensures var pending := Links(symbols, ids, |symbols|);
            && (forall l :: l in pending ==> l.child in added)
            && ((forall l :: l in pending ==> l.parent in added) <==> ParentsBackward(symbols))
    ensures forall i :: 0 <= i < |ids| ==> ids[i] != 0
  {
    var pending := Links(symbols, ids, |symbols|);
    LinksBelow(symbols, ids, |symbols|);
    hide Links, LinkedTo, OpenRows;
    assert 0 !in added by {
      assert forall i :: 0 <= i < |ids| ==> NewId(base, ids[i]);
    }
    forall l | l in pending
      ensures l.child in added
      ensures ParentsBackward(symbols) ==> l.parent in added
    {
      assert IsLink(symbols, ids, |symbols|, l);
    }
    if forall l :: l in pending ==> l.parent in added {
      forall i | 0 <= i < |symbols| && symbols[i].parent.Some?
        ensures symbols[i].parent.value <= i
      {
        LinksOfRow(symbols, ids, |symbols|, i);
        LinkedInList(pending, ids[i]);
      }
    }
  }

  /** The rows of f at the end: symbols with their parents as row ids, and the kept refs. */
  ghost predicate FinalRows(db: Db, db': Db, f: nat, r: ParseResult, ids: seq<nat>, refIds: seq<nat>) {
    var kept := Kept(r.refs, |r.symbols|);
    && db'.files == db.files
    && |ids| == |r.symbols| && Ascending(ids) && (forall i :: 0 <= i < |ids| ==> NewId(db.symbols, ids[i]))
    && db'.symbols.Keys == db.symbols.Keys + Elements(ids)
    && (forall s :: s in db.symbols ==> db'.symbols[s] == db.symbols[s])
    && (forall i :: 0 <= i < |ids| ==> ids[i] in db'.symbols && db'.symbols[ids[i]] == FinalRow(f, r.symbols[i], ids))
    && RowsAdded(db.refs, db'.refs, refIds, RefRows(ids, kept))
  }

  ghost function FinalRow(f: nat, s: ParsedSymbol, ids: seq<nat>): SymbolRow {
    SymbolRow(f, s.decl, match s.parent case None => None case Some(p) => Some(if p < |ids| then ids[p] else 0))
  }

  lemma {:induction false} LinkedRows(base: map<nat, SymbolRow>, added: map<nat, SymbolRow>, cur: map<nat, SymbolRow>,
                                      f: nat, symbols: seq<ParsedSymbol>, ids: seq<nat>)
    requires RowsAdded(base, added, ids, OpenRows(f, symbols)) && ParentsBackward(symbols)
    requires SymbolsLinked(added, cur, Links(symbols, ids, |symbols|))
    ensures cur.Keys == base.Keys + Elements(ids)
    ensures forall s :: s in base ==> cur[s] == base[s]
    ensures forall i :: 0 <= i < |ids| ==> ids[i] in cur && cur[ids[i]] == FinalRow(f, symbols[i], ids)
  {
    hide Links, LinkedTo, NewId, FinalRow, OpenRows;
    forall s | s in base
      ensures cur[s] == base[s]
    {
      assert s in added;
      BaseNotLinked(base, symbols, ids, s);
    }
    LinkedNewRows(base, added, cur, f, symbols, ids);
  }

  lemma {:induction false} LinkedNewRows(base: map<nat, SymbolRow>, added: map<nat, SymbolRow>,
                                         cur: map<nat, SymbolRow>, f: nat, symbols: seq<ParsedSymbol>, ids: seq<nat>)
    requires RowsAdded(base, added, ids, OpenRows(f, symbols)) && ParentsBackward(symbols)
    requires SymbolsLinked(added, cur, Links(symbols, ids, |symbols|))
    ensures forall i :: 0 <= i < |ids| ==> ids[i] in cur && cur[ids[i]] == FinalRow(f, symbols[i], ids)
  {
    hide Links, LinkedTo, NewId, FinalRow, ParentsBackward;
    forall i | 0 <= i < |ids|
      ensures ids[i] in cur && cur[ids[i]] == FinalRow(f, symbols[i], ids)
    {
      var s := ids[i];
      assert s in added && added[s] == OpenRows(f, symbols)[i];
      NewLinked(f, symbols, ids, i);
    }
  }

  lemma {:induction false} BaseNotLinked(base: map<nat, SymbolRow>, symbols: seq<ParsedSymbol>, ids: seq<nat>, s: nat)
    requires |ids| == |symbols| && s in base
    requires forall i :: 0 <= i < |ids| ==> NewId(base, ids[i])
    ensures LinkedTo(Links(symbols, ids, |symbols|), s) == None
  {
    var pending := Links(symbols, ids, |symbols|);
    LinksBelow(symbols, ids, |symbols|);
    hide Links, LinkedTo;
    forall l | l in pending
      ensures l.child != s
    {
      assert IsLink(symbols, ids, |symbols|, l);
      var i :| 0 <= i < |symbols| && l.child == ids[i];
      assert NewId(base, ids[i]);
    }
    NotLinked(pending, s);
  }

  lemma {:induction false} NewLinked(f: nat, symbols: seq<ParsedSymbol>, ids: seq<nat>, i: nat)
    requires |ids| == |symbols| && i < |ids| && Ascending(ids) && ParentsBackward(symbols)
    ensures FinalRow(f, symbols[i], ids)
            == SymbolRow(f, symbols[i].decl, LinkedTo(Links(symbols, ids, |symbols|), ids[i]))
  {
    LinksOfRow(symbols, ids, |symbols|, i);
  }

  lemma FinalSymbolSets(db: Db, db': Db, f: nat, r: ParseResult, ids: seq<nat>, refIds: seq<nat>)
    requires SymbolsOf(db, f) == {} && FinalRows(db, db', f, r, ids, refIds)
    ensures SymbolsOf(db', f) == Elements(ids)
    ensures forall g :: g != f ==> SymbolsOf(db', g) == SymbolsOf(db, g)
  {
    hide RowsAdded;
    forall s | s in db'.symbols
      ensures db'.symbols[s].fileId == f <==> s in Elements(ids)
      ensures s !in Elements(ids) ==> s in db.symbols
    {
      if s in db.symbols {
        assert s !in SymbolsOf(db, f);
        NotNew(db.symbols, ids, s);
      } else {
        var i :| 0 <= i < |ids| && ids[i] == s;
      }
    }
    NoneNew(db.symbols, ids);
  }

  lemma NotNew<Row>(base: map<nat, Row>, ids: seq<nat>, s: nat)
    requires s in base && forall i :: 0 <= i < |ids| ==> NewId(base, ids[i])
    ensures s !in ids
  {
    forall i | 0 <= i < |ids|
      ensures ids[i] != s
    {
      assert NewId(base, ids[i]);
    }
  }

  lemma NoneNew<Row>(base: map<nat, Row>, ids: seq<nat>)
    requires forall i :: 0 <= i < |ids| ==> NewId(base, ids[i])
    ensures base.Keys !! Elements(ids)
  {
    forall s | s in base
      ensures s !in ids
    {
      NotNew(base, ids, s);
    }
  }

  lemma FinalRefSets(db: Db, db': Db, f: nat, r: ParseResult, ids: seq<nat>, refIds: seq<nat>)
    requires Consistent(db) && FinalRows(db, db', f, r, ids, refIds)
    requires SymbolsOf(db', f) == Elements(ids)
    requires forall g :: g != f ==> SymbolsOf(db', g) == SymbolsOf(db, g)
    ensures RefsOf(db', f) == Elements(refIds)
    ensures forall g :: g != f ==> RefsOf(db', g) == RefsOf(db, g)
  {
    var kept := Kept(r.refs, |r.symbols|);
    hide SymbolsOf, NewId;
    NoneNew(db.refs, refIds);
    NoneNew(db.symbols, ids);
    forall x | x in db'.refs
      ensures x in Elements(refIds) ==> db'.refs[x].fromSymbol in Elements(ids)
      ensures x !in Elements(refIds) ==>
                x in db.refs && db'.refs[x] == db.refs[x] && db.refs[x].fromSymbol !in Elements(ids)
    {
      if x in Elements(refIds) {
        var i :| 0 <= i < |refIds| && refIds[i] == x;
        assert kept[i] in kept;
        assert db'.refs[x] == RefRows(ids, kept)[i];
      } else {
        assert x in db.refs && db.refs[x].fromSymbol in db.symbols;
      }
    }
    RefSetsFrom(db, db', f, ids, refIds);
  }

  lemma RefSetsFrom(db: Db, db': Db, f: nat, ids: seq<nat>, refIds: seq<nat>)
    requires SymbolsOf(db', f) == Elements(ids) && db.refs.Keys !! Elements(refIds)
    requires forall g :: g != f ==> SymbolsOf(db', g) == SymbolsOf(db, g)
    requires db'.refs.Keys == db.refs.Keys + Elements(refIds)
    requires forall x :: x in db'.refs && x in Elements(refIds) ==> db'.refs[x].fromSymbol in Elements(ids)
    requires forall x :: x in db'.refs && x !in Elements(refIds) ==>
               x in db.refs && db'.refs[x] == db.refs[x] && db.refs[x].fromSymbol !in Elements(ids)
    ensures RefsOf(db', f) == Elements(refIds)
    ensures forall g :: g != f ==> RefsOf(db', g) == RefsOf(db, g)
  {
    forall g | g != f
      ensures RefsOf(db', g) == RefsOf(db, g)
    {
      OtherSymbols(db', f, g);
    }
  }

  lemma OtherSymbols(db: Db, f: nat, g: nat)
    requires f != g
    ensures SymbolsOf(db, f) !! SymbolsOf(db, g)
  {
  }

  lemma IdsPositive(db: Db)
    requires Consistent(db)
    ensures 0 !in db.symbols
  {
  }

  method WriteParseResult(tx: Tx, r: ParseResult) returns (ok: bool, ghost f: nat)
    requires Consistent(tx.Now()) && ParentsInRange(r)
    modifies tx
    // refused exactly when some symbol names a later one as its parent
    ensures ok <==> ParentsBackward(r.symbols)
    ensures ok ==> Replaced(old(tx.Now()), tx.Now(), f, r)
    ensures ok ==>
              && f in tx.files && tx.files[f] == FileRow(r.relPath, r.hash, r.mtime, r.size, r.lang)
              && Records(r.symbols, r.refs, FileEntry(tx.Now(), f))
  {
    hide RowsAdded, WithoutSymbols, Consistent, SymbolsLinked;
    ghost var db0 := tx.Now();
    f := 0;
    var id := tx.UpsertFile(FileRow(r.relPath, r.hash, r.mtime, r.size, r.lang));
    f := id;
    ghost var db1 := tx.Now();
    tx.DeleteFileContent(id);
    ghost var db2 := tx.Now();
    Cleared(db0, f, FileRow(r.relPath, r.hash, r.mtime, r.size, r.lang));
    var ids, pending := InsertSymbols(tx, id, r.symbols);
    ghost var added := tx.symbols;
    IdsPositive(db2);
    LinksReachable(db2.symbols, added, f, r.symbols, ids);
    ok := LinkParents(tx, pending);
    if !ok {
      return;
    }
    ghost var refIds := InsertRefs(tx, ids, r.refs);
    Rewritten(db0, db2, tx.Now(), added, f, r, ids, refIds);
    EntryRecords(r);
  }

  /**
     f now holds the rows of r and nothing else,
     every other file's rows are untouched, and the tables are consistent.
  */
  ghost predicate Replaced(db: Db, db': Db, f: nat, r: ParseResult) {
    && Consistent(db')
    && FileSlot(db, r.relPath, f)
    && db'.files == db.files[f := FileRow(r.relPath, r.hash, r.mtime, r.size, r.lang)]
    && FileEntry(db', f) == EntryOf(r)
    && (forall g :: g in db.files && g != f ==> SameFile(db, db', g))
  }

  ghost predicate SameFile(db: Db, db': Db, g: nat) {
    && SymbolsOf(db, g) == SymbolsOf(db', g) && RefsOf(db, g) == RefsOf(db', g)
    && (forall s :: s in SymbolsOf(db, g) ==> s in db'.symbols && db'.symbols[s] == db.symbols[s])
    && (forall s :: s in RefsOf(db, g) ==> s in db'.refs && db'.refs[s] == db.refs[s])
  }

  lemma FinalConsistent(db: Db, db': Db, f: nat, r: ParseResult, ids: seq<nat>, refIds: seq<nat>)
    requires Consistent(db) && f in db.files && SymbolsOf(db, f) == {} && ParentsBackward(r.symbols)
    requires FinalRows(db, db', f, r, ids, refIds)
    ensures Consistent(db')
  {
    hide RowsAdded, NewId;
    var kept := Kept(r.refs, |r.symbols|);
    forall s | s in db'.symbols
      ensures s > 0 && db'.symbols[s].fileId in db'.files
      ensures db'.symbols[s].parent.Some? ==>
                var p := db'.symbols[s].parent.value; p in db'.symbols && db'.symbols[p].fileId == db'.symbols[s].fileId
    {
      if s in Elements(ids) {
        var i :| 0 <= i < |ids| && ids[i] == s;
        assert s > 0 by { PositiveNew(db.symbols, ids[i]); }
        if r.symbols[i].parent.Some? {
          var p := r.symbols[i].parent.value;
          assert ids[p] in db'.symbols && db'.symbols[ids[p]].fileId == f;
        }
      }
    }
    FinalRefs(db, db', f, r, ids, refIds);
  }

  lemma PositiveNew<Row>(base: map<nat, Row>, id: nat)
    requires NewId(base, id)
    ensures id > 0
  {
  }

  lemma FinalRefs(db: Db, db': Db, f: nat, r: ParseResult, ids: seq<nat>, refIds: seq<nat>)
    requires Consistent(db) && FinalRows(db, db', f, r, ids, refIds)
    ensures forall x :: x in db'.refs ==> db'.refs[x].fromSymbol in db'.symbols
  {
    var kept := Kept(r.refs, |r.symbols|);
    forall x | x in db'.refs
      ensures db'.refs[x].fromSymbol in db'.symbols
    {
      if x in db.refs {
        assert db.refs[x].fromSymbol in db.symbols;
      } else {
        var i :| 0 <= i < |refIds| && refIds[i] == x;
        assert kept[i] in kept;
        assert db'.refs[x] == RefRows(ids, kept)[i];
      }
    }
  }

  lemma {:induction false} PositionOf(ids: seq<nat>, k: nat)
    requires Ascending(ids) && k < |ids|
    ensures Position(ids, ids[k]) == k
  {
    if k > 0 {
      assert forall i, j :: 0 <= i < j < |ids[1..]| ==> ids[1..][i] < ids[1..][j];
      PositionOf(ids[1..], k - 1);
    }
  }

  lemma FinalEntry(db: Db, db': Db, f: nat, r: ParseResult, ids: seq<nat>, refIds: seq<nat>)
    requires ParentsBackward(r.symbols) && FinalRows(db, db', f, r, ids, refIds)
    requires f in db'.files && db'.files[f].hash == r.hash && db'.files[f].lang == r.lang
    requires SymbolsOf(db', f) == Elements(ids) && RefsOf(db', f) == Elements(refIds)
    ensures FileEntry(db', f) == EntryOf(r)
  {
    hide Position, SortedIds, NewId;
    AscendingIsSorted(ids);
    AscendingIsSorted(refIds);
    FinalSymbolViews(db'.symbols, f, r, ids);
    FinalRefViews(db.refs, db'.refs, r, ids, refIds);
  }

  lemma FinalSymbolViews(symbols: map<nat, SymbolRow>, f: nat, r: ParseResult, ids: seq<nat>)
    requires |ids| == |r.symbols| && Ascending(ids) && ParentsBackward(r.symbols)
    requires forall s :: s in ids ==> s in symbols
    requires forall i :: 0 <= i < |ids| ==> symbols[ids[i]] == FinalRow(f, r.symbols[i], ids)
    ensures ViewSymbols(symbols, ids) == EntryOf(r).symbols
  {
    hide Position;
    forall i | 0 <= i < |ids|
      ensures ViewSymbols(symbols, ids)[i] == EntryOf(r).symbols[i]
    {
      assert symbols[ids[i]] == FinalRow(f, r.symbols[i], ids);
      if r.symbols[i].parent.Some? {
        PositionOf(ids, r.symbols[i].parent.value);
      }
    }
  }

  lemma FinalRefViews(base: map<nat, RefRow>, refs: map<nat, RefRow>, r: ParseResult, ids: seq<nat>, refIds: seq<nat>)
    requires |ids| == |r.symbols| && Ascending(ids)
    requires RowsAdded(base, refs, refIds, RefRows(ids, Kept(r.refs, |r.symbols|)))
    ensures (forall x :: x in refIds ==> x in refs) && ViewRefs(refs, ids, refIds) == EntryOf(r).refs
  {
    hide Position, NewId;
    var kept := Kept(r.refs, |r.symbols|);
    forall i | 0 <= i < |refIds|
      ensures ViewRefs(refs, ids, refIds)[i] == EntryOf(r).refs[i]
    {
      assert kept[i] in kept;
      assert refs[refIds[i]] == RefRows(ids, kept)[i] == RefRowOf(ids, kept[i]);
      PositionOf(ids, kept[i].fromSymbol);
    }
  }

  lemma {:induction false} Rewritten(db0: Db, db: Db, db': Db, added: map<nat, SymbolRow>, f: nat, r: ParseResult,
                                     ids: seq<nat>, refIds: seq<nat>)
    requires Consistent(db0) && FileSlot(db0, r.relPath, f)
    requires ReadyFor(db0, db, f, FileRow(r.relPath, r.hash, r.mtime, r.size, r.lang))
    requires db'.files == db.files && ParentsBackward(r.symbols)
    requires RowsAdded(db.symbols, added, ids, OpenRows(f, r.symbols))
    requires SymbolsLinked(added, db'.symbols, Links(r.symbols, ids, |r.symbols|))
    requires RowsAdded(db.refs, db'.refs, refIds, RefRows(ids, Kept(r.refs, |r.symbols|)))
    ensures Replaced(db0, db', f, r)
  {
    hide FinalRows, RowsAdded, SymbolsLinked, Consistent, Links, EntryOf, FileEntry, ParentsBackward;
    MakeFinalRows(db, db', added, f, r, ids, refIds);
    FinalSymbolSets(db, db', f, r, ids, refIds);
    FinalRefSets(db, db', f, r, ids, refIds);
    FinalConsistent(db, db', f, r, ids, refIds);
    FinalEntry(db, db', f, r, ids, refIds);
    forall g | g in db0.files && g != f
      ensures SameFile(db0, db', g)
    {
      OthersSame(db0, db, db', f, g, r, ids, refIds);
    }
  }

  lemma {:induction false} MakeFinalRows(db: Db, db': Db, added: map<nat, SymbolRow>, f: nat, r: ParseResult,
                                         ids: seq<nat>, refIds: seq<nat>)
    requires db'.files == db.files && ParentsBackward(r.symbols)
    requires RowsAdded(db.symbols, added, ids, OpenRows(f, r.symbols))
    requires SymbolsLinked(added, db'.symbols, Links(r.symbols, ids, |r.symbols|))
    requires RowsAdded(db.refs, db'.refs, refIds, RefRows(ids, Kept(r.refs, |r.symbols|)))
    ensures FinalRows(db, db', f, r, ids, refIds)
  {
    LinkedRows(db.symbols, added, db'.symbols, f, r.symbols, ids);
    hide SymbolsLinked, Links, NewId;
  }

  lemma OthersSame(db0: Db, db: Db, db': Db, f: nat, g: nat, r: ParseResult, ids: seq<nat>, refIds: seq<nat>)
    requires SameFile(db0, db, g) && FinalRows(db, db', f, r, ids, refIds)
    requires SymbolsOf(db', g) == SymbolsOf(db, g) && RefsOf(db', g) == RefsOf(db, g)
    ensures SameFile(db0, db', g)
  {
    hide SymbolsOf, RefsOf, NewId;
  }
}
