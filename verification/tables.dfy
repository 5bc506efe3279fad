/** The files, symbols and refs tables, the transaction operations on them, and the index they stand for. */
module Tables {
  import opened Prelude

  datatype FileRow = FileRow(path: string, hash: string, mtime: int, size: int, lang: string)

  /** The columns of a symbol that a frontend supplies. */
  datatype Decl = Decl(kind: string, name: string, qualifiedName: string, startLine: int, endLine: int,
                       exported: bool, signature: string)

  datatype SymbolRow = SymbolRow(fileId: nat, decl: Decl, parent: Option<nat>)

  datatype RefRow = RefRow(fromSymbol: nat, toQualified: string, kind: string, line: int)

  /** The three tables, each keyed by row id. */
  datatype Db = Db(files: map<nat, FileRow>, symbols: map<nat, SymbolRow>, refs: map<nat, RefRow>)

  const EMPTY: Db := Db(map[], map[], map[])

  /** What the schema and the ingest code keep true of the tables. */
  ghost predicate Consistent(db: Db) {
    && (forall i, j :: i in db.files && j in db.files && db.files[i].path == db.files[j].path ==> i == j)
    && (forall s :: s in db.symbols ==> s > 0 && db.symbols[s].fileId in db.files)
    && (forall s :: s in db.symbols && db.symbols[s].parent.Some? ==>
          && db.symbols[s].parent.value in db.symbols
          && db.symbols[db.symbols[s].parent.value].fileId == db.symbols[s].fileId)
    && (forall r :: r in db.refs ==> db.refs[r].fromSymbol in db.symbols)
  }

  // ---- row ids ----

  lemma {:induction false} GreatestExists(s: set<nat>)
    requires s != {}
    ensures exists m :: m in s && forall x :: x in s ==> x <= m
    decreases s
  {
    var x :| x in s;
    var rest := s - {x};
    if rest == {} {
      assert s == rest + {x};
    } else {
      GreatestExists(rest);
      var m :| m in rest && forall y :: y in rest ==> y <= m;
      var top := if x <= m then m else x;
      assert top in s;
      forall y | y in s
        ensures y <= top
      {
        assert y == x || y in rest;
      }
    }
  }

  ghost function Largest(s: set<nat>): (m: nat)
    ensures forall x :: x in s ==> x <= m
    ensures if s == {} then m == 0 else m in s
  {
    if s == {} then 0
    else
      GreatestExists(s);
      var m :| m in s && forall x :: x in s ==> x <= m;
      m
  }

  /** The id a new row gets: one more than the largest in the table. */
  ghost function NextId(keys: set<nat>): nat {
    Largest(keys) + 1
  }

  method AllocateId(keys: set<nat>) returns (id: nat)
    ensures id == NextId(keys)
    ensures id > 0 && id !in keys && forall x :: x in keys ==> x < id
    ensures if keys == {} then id == 1 else id - 1 in keys
  {
    var todo, top := keys, 0;
    while todo != {}
      invariant todo <= keys
      invariant forall x :: x in keys && x !in todo ==> x <= top
      invariant top == 0 || top in keys
      decreases todo
    {
      var x :| x in todo;
      todo := todo - {x};
      if x > top {
        top := x;
      }
    }
    id := top + 1;
  }

  /** The ids of a set in ascending order. */
  ghost function SortedIds(s: set<nat>): seq<nat>
    decreases s
  {
    if s == {} then [] else SortedIds(s - {Largest(s)}) + [Largest(s)]
  }

  lemma {:induction false} SortedIdsHas(s: set<nat>)
    ensures forall x :: x in SortedIds(s) <==> x in s
    ensures |SortedIds(s)| == |s|
    decreases s
  {
    if s != {} {
      SortedIdsHas(s - {Largest(s)});
    }
  }

  /** Adding an id above all others appends it. */
  lemma {:induction false} SortedIdsAppend(s: set<nat>, m: nat)
    requires forall x :: x in s ==> x < m
    ensures SortedIds(s + {m}) == SortedIds(s) + [m]
  {
    assert m in s + {m};
    assert Largest(s + {m}) == m;
    assert s + {m} - {m} == s;
  }

  ghost predicate Ascending(ids: seq<nat>) {
    forall i, j :: 0 <= i < j < |ids| ==> ids[i] < ids[j]
  }

  /** An ascending list is the sorted list of its own ids. */
  lemma {:induction false} AscendingIsSorted(ids: seq<nat>)
    requires Ascending(ids)
    ensures SortedIds(Elements<nat>(ids)) == ids
  {
    if ids == [] {
      NoIds();
    } else {
      var front, last := ids[..|ids| - 1], ids[|ids| - 1];
      hide *;
      BelowLast(ids);
      AscendingIsSorted(front);
      SortedSnoc(front, last);
      assert ids == front + [last];
    }
  }

  lemma NoIds()
    ensures SortedIds(Elements<nat>([])) == []
  {
    assert Elements<nat>([]) == {};
  }

  lemma SortedSnoc(front: seq<nat>, last: nat)
    requires SortedIds(Elements<nat>(front)) == front && forall x :: x in Elements<nat>(front) ==> x < last
    ensures SortedIds(Elements<nat>(front) + {last}) == front + [last]
  {
    hide SortedIds;
    SortedIdsAppend(Elements<nat>(front), last);
  }

  lemma BelowLast(ids: seq<nat>)
    requires Ascending(ids) && ids != []
    ensures var front, last := ids[..|ids| - 1], ids[|ids| - 1];
            && Ascending(front) && Elements<nat>(ids) == Elements<nat>(front) + {last}
            && forall x :: x in Elements<nat>(front) ==> x < last
  {
    assert ids == ids[..|ids| - 1] + [ids[|ids| - 1]];
  }

  // ---- the index ----

  datatype SymbolView = SymbolView(decl: Decl, parent: Option<nat>)

  datatype RefView = RefView(from: nat, toQualified: string, kind: string, line: int)

  /** What the index knows of one file; symbols refer to each other by position. */
  datatype Entry = Entry(hash: string, lang: string, symbols: seq<SymbolView>, refs: seq<RefView>)

  type Index = map<string, Entry>

  ghost function SymbolsOf(db: Db, f: nat): set<nat> {
    set s | s in db.symbols && db.symbols[s].fileId == f
  }

  ghost function RefsOf(db: Db, f: nat): set<nat> {
    set r | r in db.refs && db.refs[r].fromSymbol in SymbolsOf(db, f)
  }

  ghost function Position(ids: seq<nat>, x: nat): (k: nat)
    ensures x in ids ==> k < |ids| && ids[k] == x
  {
    if ids == [] || ids[0] == x then 0 else Position(ids[1..], x) + 1
  }

  ghost function ViewSymbol(ids: seq<nat>, row: SymbolRow): SymbolView {
    SymbolView(row.decl, match row.parent case None => None case Some(p) => Some(Position(ids, p)))
  }

  ghost function ViewRef(ids: seq<nat>, row: RefRow): RefView {
    RefView(Position(ids, row.fromSymbol), row.toQualified, row.kind, row.line)
  }

  ghost function ViewSymbols(symbols: map<nat, SymbolRow>, ids: seq<nat>): (r: seq<SymbolView>)
    requires forall s :: s in ids ==> s in symbols
    ensures |r| == |ids|
  {
    seq(|ids|, i requires 0 <= i < |ids| => ViewSymbol(ids, symbols[ids[i]]))
  }

  ghost function ViewRefs(refs: map<nat, RefRow>, ids: seq<nat>, refIds: seq<nat>): (v: seq<RefView>)
    requires forall r :: r in refIds ==> r in refs
    ensures |v| == |refIds|
  {
    seq(|refIds|, i requires 0 <= i < |refIds| => ViewRef(ids, refs[refIds[i]]))
  }

  ghost function FileEntry(db: Db, f: nat): Entry
    requires f in db.files
  {
    var ids := SortedIds(SymbolsOf(db, f));
    SortedIdsHas(SymbolsOf(db, f));
    SortedIdsHas(RefsOf(db, f));
    var refIds := SortedIds(RefsOf(db, f));
    Entry(db.files[f].hash, db.files[f].lang, ViewSymbols(db.symbols, ids), ViewRefs(db.refs, ids, refIds))
  }

  ghost function Paths(db: Db): set<string> {
    set f | f in db.files :: db.files[f].path
  }

  ghost function FileId(db: Db, path: string): (f: nat)
    requires path in Paths(db)
    ensures f in db.files && db.files[f].path == path
  {
    var f :| f in db.files && db.files[f].path == path;
    f
  }

  ghost function IndexOf(db: Db): (ix: Index)
    ensures ix.Keys == Paths(db)
  {
    map p | p in Paths(db) :: FileEntry(db, FileId(db, p))
  }

  lemma EntryAt(db: Db, f: nat)
    requires Consistent(db) && f in db.files
    ensures db.files[f].path in IndexOf(db) && IndexOf(db)[db.files[f].path] == FileEntry(db, f)
  {
    var p := db.files[f].path;
    assert p in Paths(db);
    assert FileId(db, p) == f;
  }

  /** A file whose row, symbols and refs are the same in two databases has the same entry. */
  lemma EntryFrame(db: Db, db': Db, f: nat)
    requires f in db.files && f in db'.files && db.files[f] == db'.files[f]
    requires SymbolsOf(db, f) == SymbolsOf(db', f) && RefsOf(db, f) == RefsOf(db', f)
    requires forall s :: s in SymbolsOf(db, f) ==> db.symbols[s] == db'.symbols[s]
    requires forall r :: r in RefsOf(db, f) ==> db.refs[r] == db'.refs[r]
    ensures FileEntry(db, f) == FileEntry(db', f)
  {
    hide ViewSymbol, ViewRef, SortedIds;
    var ids, refIds := SortedIds(SymbolsOf(db, f)), SortedIds(RefsOf(db, f));
    SortedIdsHas(SymbolsOf(db, f));
    SortedIdsHas(RefsOf(db, f));
    SameSymbolViews(db.symbols, db'.symbols, ids);
    SameRefViews(db.refs, db'.refs, ids, refIds);
  }

  lemma SameSymbolViews(a: map<nat, SymbolRow>, b: map<nat, SymbolRow>, ids: seq<nat>)
    requires forall s :: s in ids ==> s in a && s in b && a[s] == b[s]
    ensures ViewSymbols(a, ids) == ViewSymbols(b, ids)
  {
    assert forall i :: 0 <= i < |ids| ==> ids[i] in ids;
  }

  lemma SameRefViews(a: map<nat, RefRow>, b: map<nat, RefRow>, ids: seq<nat>, refIds: seq<nat>)
    requires forall r :: r in refIds ==> r in a && r in b && a[r] == b[r]
    ensures ViewRefs(a, ids, refIds) == ViewRefs(b, ids, refIds)
  {
    assert forall i :: 0 <= i < |refIds| ==> refIds[i] in refIds;
  }
}
