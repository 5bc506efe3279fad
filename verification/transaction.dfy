/** The operations of one transaction, as updates of its working copy of the tables. */
module Transaction {
  import opened Prelude
  import opened Tables

  /** The symbols outside base whose parent is in it. */
  function Orphans(symbols: map<nat, SymbolRow>, base: set<nat>): set<nat> {
    set s | s in symbols && s !in base && symbols[s].parent.Some? && symbols[s].parent.value in base
  }

  /** base and every symbol below it: what deleting base cascades to. */
  ghost function Doomed(symbols: map<nat, SymbolRow>, base: set<nat>): set<nat>
    decreases symbols.Keys - base
  {
    var more := Orphans(symbols, base);
    if more == {} then base else Doomed(symbols, base + more)
  }

  /** Deletes symbols with everything that hangs on them. */
  ghost function WithoutSymbols(db: Db, base: set<nat>): Db {
    var gone := Doomed(db.symbols, base);
    Db(db.files, db.symbols - gone, map r | r in db.refs && db.refs[r].fromSymbol !in gone :: db.refs[r])
  }

  ghost function WithoutFile(db: Db, f: nat): Db {
    var d := WithoutSymbols(db, SymbolsOf(db, f));
    d.(files := d.files - {f})
  }

  ghost function FilesOfLang(db: Db, lang: string): set<nat> {
    set f | f in db.files && db.files[f].lang == lang
  }

  ghost function WithoutLang(db: Db, lang: string): Db {
    var files := FilesOfLang(db, lang);
    var d := WithoutSymbols(db, set s | s in db.symbols && db.symbols[s].fileId in files);
    d.(files := d.files - files)
  }

  ghost function WithFile(db: Db, f: nat, row: FileRow): Db {
    db.(files := db.files[f := row])
  }

  /** The id a file row is stored under: its own when the path is known, else a new one. */
  ghost predicate FileSlot(db: Db, path: string, f: nat) {
    if path in Paths(db) then f in db.files && db.files[f].path == path else f == NextId(db.files.Keys)
  }

  /** A transaction: the tables as they would be after a commit. */
  class Tx {
    var files: map<nat, FileRow>
    var symbols: map<nat, SymbolRow>
    var refs: map<nat, RefRow>

    constructor (db: Db)
      ensures Now() == db
    {
      files, symbols, refs := db.files, db.symbols, db.refs;
    }

    function Now(): Db
      reads this
    {
      Db(files, symbols, refs)
    }

    method UpsertFile(row: FileRow) returns (id: nat)
      modifies this`files
      ensures FileSlot(old(Now()), row.path, id)
      ensures Now() == WithFile(old(Now()), id, row)
    {
      if f :| f in files && files[f].path == row.path {
        id := f;
      } else {
        id := AllocateId(files.Keys);
      }
      files := files[id := row];
    }

    /** Deletes the given symbols, then again whatever had one of them as its parent, with their refs. */
    method DeleteSymbols(base: set<nat>)
      modifies this`symbols, this`refs
      ensures Now() == WithoutSymbols(old(Now()), base)
    {
      var gone := base;
      var more := Orphans(symbols, gone);
      while more != {}
        invariant more == Orphans(symbols, gone)
        invariant Doomed(symbols, gone) == Doomed(symbols, base)
        invariant Now() == old(Now())
        decreases symbols.Keys - gone
      {
        gone := gone + more;
        more := Orphans(symbols, gone);
      }
      refs := map r | r in refs && refs[r].fromSymbol !in gone :: refs[r];
      symbols := symbols - gone;
    }

    method DeleteFileContent(f: nat)
      modifies this`symbols, this`refs
      ensures Now() == WithoutSymbols(old(Now()), SymbolsOf(old(Now()), f))
    {
      DeleteSymbols(set s | s in symbols && symbols[s].fileId == f);
    }

    method RemoveFile(f: nat)
      modifies this
      ensures Now() == WithoutFile(old(Now()), f)
    {
      DeleteFileContent(f);
      files := files - {f};
    }

    method RemoveFileByPath(path: string) returns (found: bool)
      modifies this
      ensures found <==> path in Paths(old(Now()))
      ensures !found ==> Now() == old(Now())
      ensures found ==> exists f :: f in old(files) && old(files)[f].path == path && Now() == WithoutFile(old(Now()), f)
    {
      if f :| f in files && files[f].path == path {
        RemoveFile(f);
        found := true;
      } else {
        found := false;
      }
    }

    method RemoveFilesByLang(lang: string) returns (n: nat)
      modifies this
      ensures n == |FilesOfLang(old(Now()), lang)|
      ensures Now() == WithoutLang(old(Now()), lang)
    {
      var doomed := set f | f in files && files[f].lang == lang;
      n := |doomed|;
      DeleteSymbols(set s | s in symbols && symbols[s].fileId in doomed);
      files := files - doomed;
    }

    method InsertSymbol(row: SymbolRow) returns (id: nat)
      modifies this`symbols
      ensures id == NextId(old(symbols).Keys)
      ensures Now() == old(Now()).(symbols := old(symbols)[id := row])
    {
      id := AllocateId(symbols.Keys);
      symbols := symbols[id := row];
    }

    method InsertRef(row: RefRow)
      modifies this`refs
      ensures Now() == old(Now()).(refs := old(refs)[NextId(old(refs).Keys) := row])
    {
      var id := AllocateId(refs.Keys);
      refs := refs[id := row];
    }

    /** The parent column is a foreign key: pointing it at a missing row is refused. */
    method SetSymbolParent(child: nat, parent: nat) returns (ok: bool)
      requires child in symbols
      modifies this`symbols
      ensures ok <==> parent in old(symbols)
      ensures var row := old(symbols[child]).(parent := Some(parent));
              Now() == if ok then old(Now()).(symbols := old(symbols)[child := row]) else old(Now())
    {
      ok := parent in symbols;
      if ok {
        symbols := symbols[child := symbols[child].(parent := Some(parent))];
      }
    }
  }

  // ---- what the deletions mean ----

  /** Nothing outside base has its parent in base: the cascade stops at once. */
  lemma {:induction false} DoomedIsBase(symbols: map<nat, SymbolRow>, base: set<nat>)
    requires forall s :: s in symbols && symbols[s].parent.Some? && symbols[s].parent.value in base ==> s in base
    ensures Doomed(symbols, base) == base
  {
  }

  /** Deleting the symbols of whole files leaves the rest of the tables as it was, and consistent. */
  lemma DropFiles(db: Db, files: set<nat>, base: set<nat>)
    requires Consistent(db) && files <= db.files.Keys
    requires base == set s | s in db.symbols && db.symbols[s].fileId in files
    ensures var d := WithoutSymbols(db, base);
            && Consistent(d.(files := d.files - files)) && Consistent(d)
            && d.symbols.Keys == db.symbols.Keys - base
            && (forall f :: f in files ==> SymbolsOf(d, f) == {} == RefsOf(d, f))
            && (forall f :: f !in files ==> SymbolsOf(d, f) == SymbolsOf(db, f) && RefsOf(d, f) == RefsOf(db, f))
  {
    DoomedIsBase(db.symbols, base);
  }

  lemma DropFilesIndex(db: Db, files: set<nat>, base: set<nat>)
    requires Consistent(db) && files <= db.files.Keys
    requires base == set s | s in db.symbols && db.symbols[s].fileId in files
    ensures var d := WithoutSymbols(db, base).(files := db.files - files);
            IndexOf(d) == IndexOf(db) - set f | f in files :: db.files[f].path
  {
    hide Doomed, FileEntry;
    DropFiles(db, files, base);
    DoomedIsBase(db.symbols, base);
    var d := WithoutSymbols(db, base).(files := db.files - files);
    var gone := set f | f in files :: db.files[f].path;
    forall f | f in d.files
      ensures FileEntry(d, f) == FileEntry(db, f)
    {
      assert SymbolsOf(d, f) == SymbolsOf(db, f) && RefsOf(d, f) == RefsOf(db, f);
      EntryFrame(db, d, f);
    }
    IndexFrom(db, d, gone);
  }

  /** Two indexes agree when every file left keeps its entry and exactly the given paths are gone. */
  lemma IndexFrom(db: Db, d: Db, gone: set<string>)
    requires Consistent(db) && Consistent(d)
    requires forall f :: f in d.files ==>
               f in db.files && d.files[f] == db.files[f] && FileEntry(d, f) == FileEntry(db, f)
    requires forall f :: f in db.files ==> (f in d.files <==> db.files[f].path !in gone)
    ensures IndexOf(d) == IndexOf(db) - gone
  {
    hide FileEntry, IndexOf;
    forall p
      ensures p in IndexOf(d) <==> p in IndexOf(db) && p !in gone
      ensures p in IndexOf(d) ==> p in IndexOf(db) && IndexOf(d)[p] == IndexOf(db)[p]
    {
      if p in Paths(d) {
        var f := FileId(d, p);
        EntryAt(d, f);
        EntryAt(db, f);
      }
      if p in Paths(db) && p !in gone {
        var f := FileId(db, p);
        assert f in d.files;
      }
    }
  }

  lemma RemovedFile(db: Db, f: nat)
    requires Consistent(db) && f in db.files
    ensures Consistent(WithoutFile(db, f))
    ensures IndexOf(WithoutFile(db, f)) == IndexOf(db) - {db.files[f].path}
  {
    hide Doomed, IndexOf, Consistent;
    var base := SymbolsOf(db, f);
    assert base == set s | s in db.symbols && db.symbols[s].fileId in {f};
    DropFiles(db, {f}, base);
    DropFilesIndex(db, {f}, base);
    assert (set g | g in {f} :: db.files[g].path) == {db.files[f].path};
  }

  lemma RemovedLang(db: Db, lang: string)
    requires Consistent(db)
    ensures Consistent(WithoutLang(db, lang))
    ensures forall p :: p in IndexOf(WithoutLang(db, lang)) <==> p in IndexOf(db) && IndexOf(db)[p].lang != lang
    ensures forall p :: p in IndexOf(WithoutLang(db, lang)) ==> IndexOf(WithoutLang(db, lang))[p] == IndexOf(db)[p]
  {
    hide Doomed, IndexOf, Consistent;
    var files := FilesOfLang(db, lang);
    var base := set s | s in db.symbols && db.symbols[s].fileId in files;
    DropFiles(db, files, base);
    DropFilesIndex(db, files, base);
    forall p | p in IndexOf(db)
      ensures p in (set f | f in files :: db.files[f].path) <==> IndexOf(db)[p].lang == lang
    {
      var f := FileId(db, p);
      EntryAt(db, f);
      if p in (set g | g in files :: db.files[g].path) {
        var g :| g in files && db.files[g].path == p;
        EntryAt(db, g);
      }
    }
  }
}
