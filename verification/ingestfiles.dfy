/** The ingest shared by both builds: load the known rows, parse in parallel, write in file order. */
module IngestFiles {
  import opened Prelude
  import opened Tables
  import opened Transaction
  import opened Writer
  import opened Ingest
  import Pool

  /** What a parse worker returns for one file. */
  datatype Outcome = Unchanged | Unparsed | Parsed(result: ParseResult)

  datatype Stats = Stats(scanned: nat, ingested: nat, skipped: nat, removed: nat, removedLangs: map<string, nat>)

  /**
   Where a database call or a context check can fail. The counts behind the statistics are read last,
   after the commit has succeeded, and a failure there is reported like any other.
   */
  datatype Moment = AtStart | AtPrepare | AtPrune | AtParse | AtWrite(i: nat) | AtSweep | AtCommit | AtStats

  /** Stopped: a database call failed or the context was cancelled. Refused: a parse result could not be written. */
  datatype Report = Built(stats: Stats) | Stopped(at: Moment) | Refused | Structural | NeverBuilt | Rejected

  /** Something outside the build made it stop there; while files are parsed, only a cancellation can. */
  ghost predicate Struck(schedule: Pool.State<Outcome> -> Pool.Step, fails: Moment -> bool, at: Moment) {
    if at == AtParse then exists s :: schedule(s).Cancel? else fails(at)
  }

  /** The transaction was committed, whatever was reported. */
  predicate TookEffect(report: Report) {
    report.Built? || report == Stopped(AtStats)
  }

  /** A file row with its id, as loaded before the build. */
  datatype Known = Known(id: nat, row: FileRow)

  ghost predicate KnownFrom(db: Db, known: map<string, Known>) {
    && known.Keys == Paths(db)
    && forall p :: p in known ==>
         known[p].row.path == p && known[p].id in db.files && db.files[known[p].id] == known[p].row
  }

  method LoadPrevFiles(db: Db) returns (known: map<string, Known>)
    ensures KnownFrom(db, known)
  {
    known := map[];
    var todo := db.files.Keys;
    while todo != {}
      invariant todo <= db.files.Keys
      invariant forall f :: f in db.files && f !in todo ==> db.files[f].path in known
      invariant forall p :: p in known ==>
                  known[p].row.path == p && known[p].id in db.files && db.files[known[p].id] == known[p].row
      decreases todo
    {
      var f :| f in todo;
      known := known[db.files[f].path := Known(f, db.files[f])];
      todo := todo - {f};
    }
  }

  /** One file in a parse worker: fingerprint, compare with the row known before the build, parse. */
  function Work(fe: Frontend, fs: Files, known: map<string, Known>, p: string): Outcome {
    if p !in fs then Unparsed
    else if p in known && known[p].row.hash == fe.hash(fs[p].content) && known[p].row.lang == fe.name then Unchanged
    else match ResultOf(fe, p, fs[p]) case None => Unparsed case Some(r) => Parsed(r)
  }

  function Worker(fe: Frontend, fs: Files, known: map<string, Known>): string -> Outcome {
    p => Work(fe, fs, known, p)
  }

  predicate IsParsed(o: Outcome) {
    o.Parsed?
  }

  predicate IsUnparsed(o: Outcome) {
    o.Unparsed?
  }

  /** Writing a worker's outcome over the present entry. */
  ghost function Written(o: Outcome, cur: Option<Entry>): Option<Entry> {
    if o.Parsed? then Some(EntryOf(o.result)) else cur
  }

  ghost predicate Writable(work: string -> Outcome, p: string) {
    work(p).Parsed? ==> work(p).result.relPath == p && ParentsInRange(work(p).result)
  }

  /** A written result in which some symbol names a later one as its parent. */
  ghost predicate Forward(work: string -> Outcome, p: string) {
    work(p).Parsed? && !ParentsBackward(work(p).result.symbols)
  }

  lemma KnownAt(db: Db, known: map<string, Known>, p: string)
    requires Consistent(db) && KnownFrom(db, known)
    ensures p in IndexOf(db) <==> p in known
    ensures p in known ==> IndexOf(db)[p].hash == known[p].row.hash && IndexOf(db)[p].lang == known[p].row.lang
  {
    hide Consistent, IndexOf;
    if p in known {
      EntryAt(db, known[p].id);
    }
  }

  lemma FreshIgnoresTimes(fe: Frontend, p: string, d: FileData)
    ensures Fresh(fe, p, d.content) == match ResultOf(fe, p, d) case None => None case Some(r) => Some(EntryOf(r))
  {
  }

  /** The worker decides by the loaded rows exactly as the index decides. */
  lemma WorkAt(fe: Frontend, fs: Files, db: Db, known: map<string, Known>, p: string)
    requires Lawful(fe) && Consistent(db) && KnownFrom(db, known) && p in fs
    ensures var o := Work(fe, fs, known, p);
            && (o.Unchanged? <==> UpToDate(fe, IndexOf(db), p, fs[p]))
            && (o.Unparsed? ==> Fresh(fe, p, fs[p].content).None?)
            && (o.Parsed? ==>
                  && o.result.relPath == p && ParentsInRange(o.result)
                  && o.result.mtime == fs[p].mtime && o.result.size == fs[p].size
                  && Fresh(fe, p, fs[p].content) == Some(EntryOf(o.result)))
    ensures forall cur :: Ingested(fe, fs, IndexOf(db), cur, p) == Written(Work(fe, fs, known, p), cur)
  {
    KnownAt(db, known, p);
    FreshIgnoresTimes(fe, p, fs[p]);
    hide Consistent, IndexOf, EntryOf, KnownFrom, Fresh;
    assert fe.parse(p, fs[p].content).Some? ==> InRange(fe.parse(p, fs[p].content).value);
  }

  // ---- the serial write ----

  ghost predicate WrittenUpTo(ix0: Index, ix: Index, work: string -> Outcome, done: set<string>) {
    forall p {:trigger At(ix, p)} :: At(ix, p) == if p in done then Written(work(p), At(ix0, p)) else At(ix0, p)
  }

  lemma ReplacedIndex(db: Db, db': Db, f: nat, r: ParseResult)
    requires Consistent(db) && Replaced(db, db', f, r)
    ensures IndexOf(db') == IndexOf(db)[r.relPath := EntryOf(r)]
  {
    hide EntryOf, FileEntry, IndexOf, SymbolsOf, RefsOf, Consistent;
    OnlyPath(db, db', f, r);
    forall p
      ensures p in IndexOf(db') <==> p in IndexOf(db) || p == r.relPath
      ensures p in IndexOf(db') ==> IndexOf(db')[p] == if p == r.relPath then EntryOf(r) else IndexOf(db)[p]
    {
      if p == r.relPath {
        EntryAt(db', f);
      } else if p in Paths(db) {
        var g := FileId(db, p);
        OtherEntry(db, db', f, r, g);
      }
    }
  }

  lemma OnlyPath(db: Db, db': Db, f: nat, r: ParseResult)
    requires Replaced(db, db', f, r)
    ensures f in db.files ==> db.files[f].path == r.relPath
    ensures forall g :: g in db.files ==> g in db'.files && db'.files[g].path == db.files[g].path
    ensures Paths(db') == Paths(db) + {r.relPath}
  {
    hide Consistent, EntryOf, FileEntry, SameFile;
    assert f in db'.files && db'.files[f].path == r.relPath;
    forall p | p in Paths(db) + {r.relPath}
      ensures p in Paths(db')
    {
      if p != r.relPath {
        var g := FileId(db, p);
        assert g in db'.files && db'.files[g].path == p;
      }
    }
  }

  lemma OtherEntry(db: Db, db': Db, f: nat, r: ParseResult, g: nat)
    requires Consistent(db) && Replaced(db, db', f, r) && g in db.files && db.files[g].path != r.relPath
    ensures var p := db.files[g].path; p in IndexOf(db) && p in IndexOf(db') && IndexOf(db')[p] == IndexOf(db)[p]
  {
    hide EntryOf, FileEntry, IndexOf, SymbolsOf, RefsOf;
    OnlyPath(db, db', f, r);
    assert g != f && SameFile(db, db', g);
    EntryFrame(db, db', g);
    EntryAt(db, g);
    EntryAt(db', g);
  }

  /** Writing the same result again changes row ids at most: it goes to the same file row and leaves the same index. */
  lemma WritingAgain(db: Db, db1: Db, db2: Db, f: nat, g: nat, r: ParseResult)
    requires Consistent(db) && Replaced(db, db1, f, r) && Replaced(db1, db2, g, r)
    ensures g == f && db2.files == db1.files && IndexOf(db2) == IndexOf(db1)
  {
    hide *;
    ReplacedConsistent(db, db1, f, r);
    ReplacedIndex(db, db1, f, r);
    ReplacedIndex(db1, db2, g, r);
    SameSlot(db, db1, db2, f, g, r);
    assert IndexOf(db1)[r.relPath := EntryOf(r)] == IndexOf(db1);
  }

  lemma SameSlot(db: Db, db1: Db, db2: Db, f: nat, g: nat, r: ParseResult)
    requires Replaced(db, db1, f, r) && Replaced(db1, db2, g, r)
    ensures g == f && db2.files == db1.files
  {
    hide EntryOf, FileEntry, SameFile;
    assert f in db1.files && db1.files[f].path == r.relPath;
    assert r.relPath in Paths(db1);
  }

  lemma WriteOne(ix0: Index, ix: Index, ix': Index, work: string -> Outcome, done: set<string>, p: string)
    requires WrittenUpTo(ix0, ix, work, done)
    requires if work(p).Parsed? then ix' == ix[p := EntryOf(work(p).result)] else ix' == ix
    ensures WrittenUpTo(ix0, ix', work, done + {p})
  {
    hide EntryOf;
    forall q
      ensures At(ix', q) == if q in done + {p} then Written(work(q), At(ix0, q)) else At(ix0, q)
    {
      assert At(ix, q) == if q in done then Written(work(q), At(ix0, q)) else At(ix0, q);
    }
  }

  /** How many of the files have an outcome of one sort. */
  ghost function Tally(files: seq<string>, work: string -> Outcome, pick: Outcome -> bool): nat {
    if files == [] then 0
    else Tally(files[..|files| - 1], work, pick) + (if pick(work(files[|files| - 1])) then 1 else 0)
  }

  ghost function Chosen(files: seq<string>, work: string -> Outcome, pick: Outcome -> bool): set<string> {
    set p | p in files && pick(work(p))
  }

  lemma {:induction false} TallyCounts(files: seq<string>, work: string -> Outcome, pick: Outcome -> bool)
    requires Distinct(files)
    ensures Tally(files, work, pick) == |Chosen(files, work, pick)|
  {
    if files != [] {
      var front, last := files[..|files| - 1], files[|files| - 1];
      TallyCounts(front, work, pick);
      assert files == front + [last];
      if pick(work(last)) {
        assert Chosen(files, work, pick) == Chosen(front, work, pick) + {last};
      } else {
        assert Chosen(files, work, pick) == Chosen(front, work, pick);
      }
    }
  }

  ghost predicate RowsKept(before: map<nat, FileRow>, after: map<nat, FileRow>) {
    forall f :: f in before ==> f in after && after[f].path == before[f].path
  }

  ghost predicate NoWriteFailed(fails: Moment -> bool, n: nat) {
    forall i: nat :: i < n ==> !fails(AtWrite(i))
  }

  /** Writes the outcomes in file order, whatever order they arrived in. */
  method WriteOrdered(tx: Tx, files: seq<string>, ordered: seq<Option<Outcome>>, cancelled: bool,
                      ghost work: string -> Outcome, fails: Moment -> bool) returns (report: Report)
    requires Consistent(tx.Now()) && |ordered| == |files|
    requires forall i :: 0 <= i < |files| ==> ordered[i] == Some(work(files[i])) || (cancelled && ordered[i] == None)
    requires forall p :: p in files ==> Writable(work, p)
    modifies tx
    ensures report.Built? || report.Stopped? || report.Refused?
    ensures report.Stopped? ==>
              report.at !in {AtStart, AtStats} && if report.at == AtParse then cancelled else fails(report.at)
    ensures report.Stopped? ==> report.at == AtParse || (report.at.AtWrite? && report.at.i < |files|)
    ensures report.Built? ==> NoWriteFailed(fails, |files|)
    ensures report.Refused? ==> exists p :: p in files && Forward(work, p)
    ensures report.Built? ==> forall p :: p in files ==> !Forward(work, p)
    ensures report.Built? ==>
              Consistent(tx.Now()) && WrittenUpTo(IndexOf(old(tx.Now())), IndexOf(tx.Now()), work, Elements(files))
    ensures report.Built? ==> RowsKept(old(tx.files), tx.files)
    ensures report.Built? && (forall p :: p in files ==> !work(p).Parsed?) ==> tx.Now() == old(tx.Now())
    ensures report.Built? ==>
              report.stats == Stats(0, Tally(files, work, IsParsed), Tally(files, work, IsUnparsed), 0, map[])
  {
    hide Consistent, Replaced, IndexOf, Tally, WrittenUpTo;
    ghost var ix0 := IndexOf(tx.Now());
    var ingested, skipped := 0, 0;
    assert WrittenUpTo(ix0, ix0, work, Elements(files[..0])) by {
      NothingWritten(ix0, work);
      assert Elements(files[..0]) == {};
    }
    TallyNothing(files, work);
    for i := 0 to |files|
      invariant Consistent(tx.Now())
      invariant WrittenUpTo(ix0, IndexOf(tx.Now()), work, Elements(files[..i]))
      invariant RowsKept(old(tx.files), tx.files)
      invariant forall j :: 0 <= j < i ==> !Forward(work, files[j])
      invariant NoWriteFailed(fails, i)
      invariant (forall j :: 0 <= j < i ==> !work(files[j]).Parsed?) ==> tx.Now() == old(tx.Now())
      invariant ingested == Tally(files[..i], work, IsParsed)
      invariant skipped == Tally(files[..i], work, IsUnparsed)
    {
      if cancelled {
        return Stopped(AtParse);
      }
      if fails(AtWrite(i)) {
        return Stopped(AtWrite(i));
      }
      ghost var db := tx.Now();
      var outcome := ordered[i].value;
      assert outcome == work(files[i]) && Writable(work, files[i]) by { assert files[i] in files; }
      TallyNext(files, work, i);
      assert Elements(files[..i + 1]) == Elements(files[..i]) + {files[i]} by {
        assert files[..i + 1] == files[..i] + [files[i]];
      }
      match outcome {
        case Unchanged =>
        case Unparsed => skipped := skipped + 1;
        case Parsed(result) =>
          var ok, f := WriteParseResult(tx, result);
          if !ok {
            assert files[i] in files && Forward(work, files[i]);
            return Refused;
          }
          ReplacedIndex(db, tx.Now(), f, result);
          OnlyPath(db, tx.Now(), f, result);
          assert Consistent(tx.Now()) by { ReplacedConsistent(db, tx.Now(), f, result); }
          ingested := ingested + 1;
      }
      WriteOne(ix0, IndexOf(db), IndexOf(tx.Now()), work, Elements(files[..i]), files[i]);
    }
    assert files[..|files|] == files;
    report := Built(Stats(0, ingested, skipped, 0, map[]));
  }

  lemma ReplacedConsistent(db: Db, db': Db, f: nat, r: ParseResult)
    requires Replaced(db, db', f, r)
    ensures Consistent(db')
  {
  }

  lemma NothingWritten(ix: Index, work: string -> Outcome)
    ensures WrittenUpTo(ix, ix, work, {})
  {
  }

  lemma TallyNothing(files: seq<string>, work: string -> Outcome)
    ensures Tally(files[..0], work, IsParsed) == 0 == Tally(files[..0], work, IsUnparsed)
  {
  }

  lemma TallyNext(files: seq<string>, work: string -> Outcome, i: nat)
    requires i < |files|
    ensures Tally(files[..i + 1], work, IsParsed) ==
            Tally(files[..i], work, IsParsed) + if work(files[i]).Parsed? then 1 else 0
    ensures Tally(files[..i + 1], work, IsUnparsed) ==
            Tally(files[..i], work, IsUnparsed) + if work(files[i]).Unparsed? then 1 else 0
  {
    assert files[..i + 1][..i] == files[..i];
  }

  /** The given files are parsed by the pool under any schedule and written one by one. */
  method IngestFilesParallel(tx: Tx, fe: Frontend, fs: Files, files: seq<string>, known: map<string, Known>, jobs: int,
                             cpus: nat, schedule: Pool.State<Outcome> -> Pool.Step, fails: Moment -> bool)
    returns (report: Report, ghost cancelled: bool)
    requires Lawful(fe) && Consistent(tx.Now()) && forall p :: p in files ==> p in fs
    modifies tx
    ensures report.Built? || report.Stopped? || report.Refused?
    // a cancelled pool is an error even if every result has come in
    ensures report.Built? ==> !cancelled && NoWriteFailed(fails, |files|)
    ensures report.Stopped? ==> if report.at == AtParse then cancelled else report.at.AtWrite? && report.at.i < |files|
    ensures report.Stopped? ==> report.at !in {AtStart, AtStats} && Struck(schedule, fails, report.at)
    ensures var work := Worker(fe, fs, known);
            && (report.Refused? ==> exists p :: p in files && Forward(work, p))
            && (report.Built? ==>
                  && (forall p :: p in files ==> !Forward(work, p))
                  && Consistent(tx.Now())
                  && WrittenUpTo(IndexOf(old(tx.Now())), IndexOf(tx.Now()), work, Elements(files))
                  && RowsKept(old(tx.files), tx.files)
                  && ((forall p :: p in files ==> !work(p).Parsed?) ==> tx.Now() == old(tx.Now()))
                  && report.stats == Stats(0, Tally(files, work, IsParsed), Tally(files, work, IsUnparsed), 0, map[]))
  {
    hide Consistent, IndexOf, Tally, WrittenUpTo, Forward, Worker;
    var work := Worker(fe, fs, known);
    var ordered, stopped := Pool.IngestInParallel(files, jobs, cpus, work, schedule);
    cancelled := stopped;
    forall p | p in files
      ensures Writable(work, p)
    {
      WorkIsWritable(fe, fs, known, p);
    }
    report := WriteOrdered(tx, files, ordered, stopped, work, fails);
    if report.Built? && stopped {
      report := Stopped(AtParse);
    }
  }

  lemma WorkIsWritable(fe: Frontend, fs: Files, known: map<string, Known>, p: string)
    requires Lawful(fe)
    ensures Writable(Worker(fe, fs, known), p)
  {
    if p in fs {
      assert fe.parse(p, fs[p].content).Some? ==> InRange(fe.parse(p, fs[p].content).value);
    }
  }
}
