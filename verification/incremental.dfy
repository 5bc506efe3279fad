/** The incremental build: the touched paths are classified, vanished rows removed, changed files ingested. */
module Incremental {
  import opened Prelude
  import opened Ordering
  import opened Tables
  import opened Transaction
  import opened Writer
  import opened Ingest
  import opened IngestFiles
  import opened Build
  import Pool

  predicate ClimbsAt(p: string, i: nat)
    requires i < |p|
  {
    "/../" <= p[i..]
  }

  /** A cleaned path that climbs out of the root. */
  predicate Escapes(p: string) {
    "../" <= p || exists i :: 0 <= i < |p| && ClimbsAt(p, i)
  }

  /** A cleaned path the build refuses to touch. */
  predicate Unfit(fe: Frontend, p: string) {
    Escapes(p) || !fe.handles(p) || (fe.indexable(p) && !fe.accepted(p))
  }

  /** The paths left after cleaning and after dropping those the language does not take. */
  ghost function Touched(fe: Frontend, paths: seq<string>): set<string> {
    set p | p in paths && fe.indexable(fe.clean(p)) :: fe.clean(p)
  }

  /** The paths whose row goes: the file is not there and the row carries a hash. */
  ghost function Removed(fs: Files, ix: Index, paths: set<string>): set<string> {
    set p | p in paths && p !in fs && p in ix && ix[p].hash != ""
  }

  method CleanPaths(fe: Frontend, paths: seq<string>) returns (ok: bool, cleaned: seq<string>)
    ensures ok <==> forall p :: p in paths ==> !Escapes(fe.clean(p)) && fe.handles(fe.clean(p))
    ensures ok ==> Elements(cleaned) == Touched(fe, paths) && SortedBy(cleaned, Strings())
    ensures ok && Distinct(paths) && AlreadyClean(fe, paths) ==> Distinct(cleaned)
  {
    hide Escapes, Distinct;
    cleaned := [];
    EmptyIsDistinct();
    for i := 0 to |paths|
      invariant forall p :: p in paths[..i] ==> !Escapes(fe.clean(p)) && fe.handles(fe.clean(p))
      invariant Elements(cleaned) == Touched(fe, paths[..i])
      invariant Distinct(paths) && AlreadyClean(fe, paths) ==> Distinct(cleaned)
    {
      var p := fe.clean(paths[i]);
      TouchedNext(fe, paths, i);
      if Escapes(p) || !fe.handles(p) {
        assert paths[i] in paths;
        return false, [];
      }
      if fe.indexable(p) {
        assert Elements(cleaned + [p]) == Elements(cleaned) + {p};
        if Distinct(paths) && AlreadyClean(fe, paths) {
          NewToTouched(fe, paths, i, cleaned);
        }
        cleaned := cleaned + [p];
      }
    }
    assert paths[..|paths|] == paths;
    StringsAreOrdered();
    SortBySorts(cleaned, Strings());
    SameElements(cleaned, SortBy(cleaned, Strings()));
    ok, cleaned := true, SortBy(cleaned, Strings());
  }

  ghost predicate AlreadyClean(fe: Frontend, paths: seq<string>) {
    forall p :: p in paths ==> fe.clean(p) == p
  }

  lemma EmptyIsDistinct()
    ensures Distinct<string>([])
  {
  }

  lemma NewToTouched(fe: Frontend, paths: seq<string>, i: nat, cleaned: seq<string>)
    requires i < |paths| && Distinct(paths) && AlreadyClean(fe, paths)
    requires Distinct(cleaned) && Elements(cleaned) == Touched(fe, paths[..i])
    ensures Distinct(cleaned + [fe.clean(paths[i])])
  {
    forall j | 0 <= j < |cleaned|
      ensures cleaned[j] != fe.clean(paths[i])
    {
      assert cleaned[j] in Elements(cleaned);
      var q :| q in paths[..i] && cleaned[j] == fe.clean(q);
      var k :| 0 <= k < i && paths[k] == q;
    }
  }

  lemma TouchedNext(fe: Frontend, paths: seq<string>, i: nat)
    requires i < |paths|
    ensures var p := fe.clean(paths[i]);
            Touched(fe, paths[..i + 1]) == Touched(fe, paths[..i]) + if fe.indexable(p) then {p} else {}
  {
    assert paths[..i + 1] == paths[..i] + [paths[i]];
  }

  /** The rows are as before less those removed for the paths looked at so far. */
  ghost predicate RemovedUpTo(fs: Files, ix0: Index, ix: Index, done: set<string>) {
    ix == ix0 - Removed(fs, ix0, done)
  }

  ghost predicate Pending(fe: Frontend, fs: Files, ix: Index, done: set<string>, toIngest: seq<string>) {
    forall p :: p in toIngest <==> p in done && p in fs && !UpToDate(fe, ix, p, fs[p])
  }

  /** Removes the rows of vanished files and lists the files to ingest. */
  method Classify(tx: Tx, fe: Frontend, fs: Files, known: map<string, Known>, cleaned: seq<string>)
    returns (toIngest: seq<string>, removed: nat)
    requires Consistent(tx.Now()) && KnownFrom(tx.Now(), known)
    modifies tx
    ensures Consistent(tx.Now())
    ensures RemovedUpTo(fs, IndexOf(old(tx.Now())), IndexOf(tx.Now()), Elements(cleaned))
    ensures Pending(fe, fs, IndexOf(old(tx.Now())), Elements(cleaned), toIngest)
    ensures Removed(fs, IndexOf(old(tx.Now())), Elements(cleaned)) == {} ==> tx.Now() == old(tx.Now())
    ensures Distinct(cleaned) ==>
              removed == |Removed(fs, IndexOf(old(tx.Now())), Elements(cleaned))| && Distinct(toIngest)
  {
    hide Consistent, IndexOf, RemovedUpTo, Pending, Removed, KnownFrom, WithoutFile, Distinct, Elements, UpToDate;
    ghost var db0 := tx.Now();
    ghost var ix0 := IndexOf(db0);
    toIngest, removed := [], 0;
    ghost var done: set<string> := {};
    NothingClassified(fe, fs, ix0, cleaned);
    for k := 0 to |cleaned|
      invariant Consistent(tx.Now()) && done == Elements(cleaned[..k])
      invariant RemovedUpTo(fs, ix0, IndexOf(tx.Now()), done) && Pending(fe, fs, ix0, done, toIngest)
      invariant Removed(fs, ix0, done) == {} ==> tx.Now() == db0
      invariant Distinct(cleaned) ==> removed == |Removed(fs, ix0, done)| && Distinct(toIngest)
    {
      var p := cleaned[k];
      KnownAt(db0, known, p);
      ghost var before := done;
      PrefixElements(cleaned, k);
      done := done + {p};
      ClassifyOne(fe, fs, ix0, IndexOf(tx.Now()), before, toIngest, p);
      StaysDistinct(fe, fs, ix0, before, toIngest, p);
      if p in fs {
        NeedsParse(db0, known, fe, fs, p);
      }
      if p !in fs {
        if p in known && known[p].row.hash != "" {
          var found := RemoveKnown(tx, p);
          removed := removed + 1;
        }
      } else if !(p in known && known[p].row.hash == fe.hash(fs[p].content) && known[p].row.lang == fe.name) {
        toIngest := toIngest + [p];
      }
    }
  }

  method RemoveKnown(tx: Tx, p: string) returns (found: bool)
    requires Consistent(tx.Now())
    modifies tx
    ensures Consistent(tx.Now())
    ensures IndexOf(tx.Now()) == IndexOf(old(tx.Now())) - {p}
  {
    hide Consistent, IndexOf, WithoutFile;
    ghost var db := tx.Now();
    found := tx.RemoveFileByPath(p);
    if found {
      ghost var f :| f in db.files && db.files[f].path == p && tx.Now() == WithoutFile(db, f);
      RemovedFile(db, f);
    }
  }

  lemma StaysDistinct(fe: Frontend, fs: Files, ix: Index, done: set<string>, toIngest: seq<string>, p: string)
    requires Pending(fe, fs, ix, done, toIngest)
    ensures Distinct(toIngest) && p !in done ==> Distinct(toIngest + [p])
  {
  }

  lemma NeedsParse(db: Db, known: map<string, Known>, fe: Frontend, fs: Files, p: string)
    requires Consistent(db) && KnownFrom(db, known) && p in fs
    ensures UpToDate(fe, IndexOf(db), p, fs[p]) <==>
            p in known && known[p].row.hash == fe.hash(fs[p].content) && known[p].row.lang == fe.name
  {
    hide Consistent, IndexOf, KnownFrom;
    KnownAt(db, known, p);
  }

  lemma NothingClassified(fe: Frontend, fs: Files, ix: Index, cleaned: seq<string>)
    ensures Elements(cleaned[..0]) == {} && cleaned[..|cleaned|] == cleaned && Distinct<string>([])
    ensures RemovedUpTo(fs, ix, ix, {}) && Removed(fs, ix, {}) == {} && Pending(fe, fs, ix, {}, [])
  {
  }

  lemma ClassifyOne(fe: Frontend, fs: Files, ix0: Index, ix: Index, done: set<string>, toIngest: seq<string>, p: string)
    requires RemovedUpTo(fs, ix0, ix, done) && Pending(fe, fs, ix0, done, toIngest)
    ensures p in fs || p !in ix0 || ix0[p].hash == "" ==>
              RemovedUpTo(fs, ix0, ix, done + {p}) && Removed(fs, ix0, done + {p}) == Removed(fs, ix0, done)
    ensures !(p in fs || p !in ix0 || ix0[p].hash == "") ==>
              && RemovedUpTo(fs, ix0, ix - {p}, done + {p})
              && Removed(fs, ix0, done + {p}) == Removed(fs, ix0, done) + {p}
              && (p !in done ==> p !in Removed(fs, ix0, done))
    ensures var more := if p in fs && !UpToDate(fe, ix0, p, fs[p]) then toIngest + [p] else toIngest;
            Pending(fe, fs, ix0, done + {p}, more)
  {
    if p in fs || p !in ix0 || ix0[p].hash == "" {
      assert Removed(fs, ix0, done + {p}) == Removed(fs, ix0, done);
    } else {
      assert Removed(fs, ix0, done + {p}) == Removed(fs, ix0, done) + {p};
    }
  }

  // ---- the build ----

  ghost predicate AllFit(fe: Frontend, paths: seq<string>) {
    forall p :: p in paths ==> !Unfit(fe, fe.clean(p))
  }

  /** The known rows of the files to ingest. */
  function Subset(known: map<string, Known>, paths: seq<string>): map<string, Known> {
    map p | p in known && p in paths :: known[p]
  }

  ghost function Changed(fe: Frontend, fs: Files, ix: Index, paths: set<string>): set<string> {
    set p | p in paths && p in fs && !UpToDate(fe, ix, p, fs[p]) && Fresh(fe, p, fs[p].content).Some?
  }

  ghost function Broken(fe: Frontend, fs: Files, ix: Index, paths: set<string>): set<string> {
    set p | p in paths && p in fs && !UpToDate(fe, ix, p, fs[p]) && Fresh(fe, p, fs[p].content).None?
  }

  /** The touched files that have to be parsed. */
  ghost function Stale(fe: Frontend, fs: Files, ix: Index, paths: set<string>): set<string> {
    set p | p in paths && p in fs && !UpToDate(fe, ix, p, fs[p])
  }

  lemma StaleAreWritten(fe: Frontend, fs: Files, ix: Index, done: set<string>, toIngest: seq<string>,
                        fails: Moment -> bool)
    requires Pending(fe, fs, ix, done, toIngest) && NoWriteFailed(fails, |toIngest|)
    ensures NoWriteFailed(fails, |Stale(fe, fs, ix, done)|)
  {
    hide UpToDate;
    assert Stale(fe, fs, ix, done) == Elements(toIngest);
    NoMoreElements(toIngest);
  }

  lemma {:induction false} NoMoreElements(s: seq<string>)
    ensures |Elements(s)| <= |s|
  {
    if s != [] {
      NoMoreElements(s[..|s| - 1]);
      assert s == s[..|s| - 1] + [s[|s| - 1]];
      assert Elements(s) == Elements(s[..|s| - 1]) + {s[|s| - 1]};
    }
  }

  /** The counters, when no path was given twice. */
  ghost predicate IncrementalStats(fe: Frontend, fs: Files, ix: Index, touched: set<string>, stats: Stats) {
    var changed, broken := Changed(fe, fs, ix, touched), Broken(fe, fs, ix, touched);
    stats == Stats(|touched|, |changed|, |broken|, |Removed(fs, ix, touched)|, map[])
  }

  /** The part inside the transaction: remove the rows of vanished files, ingest the changed ones. */
  method IncrementalInside(tx: Tx, committed: Db, fe: Frontend, fs: Files, cleaned: seq<string>, opts: Options,
                           cpus: nat, schedule: Pool.State<Outcome> -> Pool.Step, fails: Moment -> bool)
    returns (report: Report)
    requires Lawful(fe) && Consistent(committed) && tx.Now() == committed
    modifies tx
    ensures report.Built? || report.Stopped? || report.Refused?
    ensures report.Stopped? ==> report.at !in {AtStart, AtStats} && Struck(schedule, fails, report.at)
    ensures report.Refused? ==> exists p :: p in Elements(cleaned) && Unlinkable(fe, fs, IndexOf(committed), p)
    ensures report.Built? ==>
              && Consistent(tx.Now())
              && (forall p :: p in Elements(cleaned) ==> !Unlinkable(fe, fs, IndexOf(committed), p))
              && (forall p ::
                    At(IndexOf(tx.Now()), p)
                    == AfterIncremental(fe, fs, IndexOf(committed), Elements(cleaned), p))
    ensures report.Built? && Distinct(cleaned) ==>
              IncrementalStats(fe, fs, IndexOf(committed), Elements(cleaned), report.stats)
    ensures report.Built? ==> NoWriteFailed(fails, |Stale(fe, fs, IndexOf(committed), Elements(cleaned))|)
    ensures report.Stopped? ==> report.at == AtParse || report.at.AtWrite?
  {
    hide Consistent, IndexOf, AfterIncremental, Unlinkable, Struck, KnownFrom, Worker, Tally, Forward, WrittenUpTo,
         RowsKept, Removed, RemovedUpTo, Pending, Lawful, Subset, Changed, Broken, IncrementalStats, Distinct, Elements,
         Stale, NoWriteFailed;
    var known := LoadPrevFiles(committed);
    var toIngest, removed := Classify(tx, fe, fs, known, cleaned);
    ghost var swept := tx.Now();
    var ingested, skipped := 0, 0;
    if toIngest == [] {
      NoWrites(fails);
      NothingPending(fe, fs, known, IndexOf(swept));
    } else {
      PendingIsThere(fe, fs, IndexOf(committed), Elements(cleaned), toIngest);
      ghost var cancelled;
      report, cancelled :=
        IngestFilesParallel(tx, fe, fs, toIngest, Subset(known, toIngest), opts.jobs, cpus, schedule, fails);
      SubsetForward(fe, fs, known, toIngest);
      if report.Refused? {
        ghost var p :| p in toIngest && Forward(Worker(fe, fs, known), p);
        ForwardIsUnlinkable(fe, fs, committed, known, p);
      }
      if !report.Built? {
        return;
      }
      SubsetWrites(fe, fs, known, toIngest, IndexOf(swept), IndexOf(tx.Now()));
      ingested, skipped := report.stats.ingested, report.stats.skipped;
    }
    StaleAreWritten(fe, fs, IndexOf(committed), Elements(cleaned), toIngest, fails);
    IncrementalPaths(fe, fs, committed, known, Elements(cleaned), toIngest, IndexOf(swept), IndexOf(tx.Now()));
    report := Built(Stats(|cleaned|, ingested, skipped, removed, map[]));
    if Distinct(cleaned) {
      CountedIncremental(fe, fs, committed, known, Elements(cleaned), cleaned, toIngest, report.stats);
    }
  }

  lemma NoWrites(fails: Moment -> bool)
    ensures NoWriteFailed(fails, 0)
  {
  }

  lemma NothingPending(fe: Frontend, fs: Files, known: map<string, Known>, ix: Index)
    ensures WrittenUpTo(ix, ix, Worker(fe, fs, known), Elements([]))
    ensures Tally([], Worker(fe, fs, Subset(known, [])), IsParsed) == 0
    ensures Tally([], Worker(fe, fs, Subset(known, [])), IsUnparsed) == 0
  {
    NothingWritten(ix, Worker(fe, fs, known));
    assert Elements<string>([]) == {};
  }

  /**
   Touches only the given paths. A build that stops at or before the commit leaves the tables alone;
   a failure after the commit is reported although the tables are new.
   */
  method BuildIncremental(s: Store, fe: Frontend, fs: Files, paths: seq<string>, opts: Options, cpus: nat,
                          schedule: Pool.State<Outcome> -> Pool.Step, fails: Moment -> bool) returns (report: Report)
    requires Lawful(fe) && Consistent(s.committed)
    modifies s
    ensures Consistent(s.committed) && s.stamped == old(s.stamped)
    ensures report.Stopped? ==> Struck(schedule, fails, report.at)
    ensures report.Structural? ==> exists p :: p in paths && fe.structural(p)
    ensures report.NeverBuilt? ==> !s.stamped
    ensures report.Rejected? ==> s.stamped && !AllFit(fe, paths)
    ensures report.Refused? ==> exists p :: p in Touched(fe, paths) && Unlinkable(fe, fs, IndexOf(old(s.committed)), p)
    ensures TookEffect(report) ==>
              && s.stamped && AllFit(fe, paths) && (forall p :: p in paths ==> !fe.structural(p))
              && (forall p :: p in Touched(fe, paths) ==> !Unlinkable(fe, fs, IndexOf(old(s.committed)), p))
              && (forall p :: At(IndexOf(s.committed), p) ==
                              AfterIncremental(fe, fs, IndexOf(old(s.committed)), Touched(fe, paths), p))
    ensures TookEffect(report) ==>
              var ix, touched := IndexOf(old(s.committed)), Touched(fe, paths);
              forall p :: IncrementalStores(fe, fs, ix, touched, IndexOf(s.committed), p)
    ensures !TookEffect(report) ==> s.committed == old(s.committed)
    ensures report.Built? && Touched(fe, paths) != {} ==> !fails(AtStats)
    ensures TookEffect(report) ==>
              && !fails(AtStart) && !fails(AtPrepare) && (Touched(fe, paths) != {} ==> !fails(AtCommit))
              && NoWriteFailed(fails, |Stale(fe, fs, IndexOf(old(s.committed)), Touched(fe, paths))|)
    ensures report.Stopped? ==> report.at !in {AtPrune, AtSweep}
    ensures report.Built? && Distinct(paths) && AlreadyClean(fe, paths) ==>
              IncrementalStats(fe, fs, IndexOf(old(s.committed)), Touched(fe, paths), report.stats)
  {
    hide Consistent, IndexOf, AfterIncremental, Unlinkable, Struck, KnownFrom, Worker, Tally, Forward, WrittenUpTo,
         RowsKept, Unfit, Touched, Removed, RemovedUpTo, Pending, Lawful, Subset, Changed, Broken, IncrementalStats,
         Distinct, AlreadyClean, IncrementalStores, Stale, NoWriteFailed;
    if fails(AtStart) {
      FailureStrikes(schedule, fails, AtStart);
      return Stopped(AtStart);
    }
    if exists p :: p in paths && fe.structural(p) {
      return Structural;
    }
    if !s.stamped {
      return NeverBuilt;
    }
    if fails(AtPrepare) {
      FailureStrikes(schedule, fails, AtPrepare);
      return Stopped(AtPrepare);
    }
    var ok, cleaned := CleanPaths(fe, paths);
    if !ok {
      UnfitByForm(fe, paths);
      return Rejected;
    }
    ghost var base := s.committed;
    ghost var touched := Touched(fe, paths);
    FitWhenAccepted(fe, paths, cleaned);
    if |cleaned| == 0 {
      NothingTouched(fe, fs, IndexOf(base), touched, cleaned);
      AllStored(fe, fs, IndexOf(base), touched, IndexOf(base));
      NothingStale(fe, fs, IndexOf(base), touched, fails);
      return Built(Stats(0, 0, 0, 0, map[]));
    }
    if exists p :: p in cleaned && !fe.accepted(p) {
      return Rejected;
    }
    var tx := new Tx(s.committed);
    report := IncrementalInside(tx, s.committed, fe, fs, cleaned, opts, cpus, schedule, fails);
    if !report.Built? {
      return;
    }
    if fails(AtCommit) {
      FailureStrikes(schedule, fails, AtCommit);
      return Stopped(AtCommit);
    }
    AllStored(fe, fs, IndexOf(base), touched, IndexOf(tx.Now()));
    s.committed := tx.Now();
    if fails(AtStats) {
      FailureStrikes(schedule, fails, AtStats);
      return Stopped(AtStats);
    }
  }

  lemma NothingStale(fe: Frontend, fs: Files, ix: Index, touched: set<string>, fails: Moment -> bool)
    requires touched == {}
    ensures NoWriteFailed(fails, |Stale(fe, fs, ix, touched)|)
  {
    assert Stale(fe, fs, ix, touched) == {};
  }

  lemma AllStored(fe: Frontend, fs: Files, ix: Index, touched: set<string>, ix': Index)
    requires forall p :: At(ix', p) == AfterIncremental(fe, fs, ix, touched, p)
    ensures forall p :: IncrementalStores(fe, fs, ix, touched, ix', p)
  {
    hide AfterIncremental, IncrementalStores;
    forall p
      ensures IncrementalStores(fe, fs, ix, touched, ix', p)
    {
      AfterIncrementalStores(fe, fs, ix, touched, ix', p);
    }
  }

  lemma NothingTouched(fe: Frontend, fs: Files, ix: Index, touched: set<string>, cleaned: seq<string>)
    requires cleaned == [] && touched == Elements(cleaned)
    ensures touched == {} && IncrementalStats(fe, fs, ix, touched, Stats(0, 0, 0, 0, map[]))
    ensures forall p :: At(ix, p) == AfterIncremental(fe, fs, ix, touched, p)
  {
    assert touched == {};
    assert Changed(fe, fs, ix, touched) == {} == Broken(fe, fs, ix, touched);
    assert Removed(fs, ix, touched) == {};
    hide AfterBuild, Ingested;
  }

  lemma {:induction false} CountedIncremental(fe: Frontend, fs: Files, db: Db, known: map<string, Known>,
                                              touched: set<string>, cleaned: seq<string>, toIngest: seq<string>,
                                              stats: Stats)
    requires Lawful(fe) && Consistent(db) && KnownFrom(db, known)
    requires Distinct(cleaned) && Distinct(toIngest) && touched == Elements(cleaned)
    requires Pending(fe, fs, IndexOf(db), touched, toIngest)
    requires stats.scanned == |cleaned| && stats.removed == |Removed(fs, IndexOf(db), touched)|
             && stats.removedLangs == map[]
    requires stats.ingested == Tally(toIngest, Worker(fe, fs, Subset(known, toIngest)), IsParsed)
    requires stats.skipped == Tally(toIngest, Worker(fe, fs, Subset(known, toIngest)), IsUnparsed)
    ensures IncrementalStats(fe, fs, IndexOf(db), touched, stats)
  {
    hide Lawful, Consistent, IndexOf, KnownFrom, Pending, Removed, Tally, Chosen, Worker, Changed, Broken, Distinct,
         Elements;
    DistinctCardinality(cleaned);
    TallyCounts(toIngest, Worker(fe, fs, Subset(known, toIngest)), IsParsed);
    TallyCounts(toIngest, Worker(fe, fs, Subset(known, toIngest)), IsUnparsed);
    ChosenAreChanged(fe, fs, db, known, touched, toIngest);
  }

  lemma ChosenAreChanged(fe: Frontend, fs: Files, db: Db, known: map<string, Known>, touched: set<string>,
                         toIngest: seq<string>)
    requires Lawful(fe) && Consistent(db) && KnownFrom(db, known)
    requires Pending(fe, fs, IndexOf(db), touched, toIngest)
    ensures Chosen(toIngest, Worker(fe, fs, Subset(known, toIngest)), IsParsed) == Changed(fe, fs, IndexOf(db), touched)
    ensures Chosen(toIngest, Worker(fe, fs, Subset(known, toIngest)), IsUnparsed)
            == Broken(fe, fs, IndexOf(db), touched)
  {
    hide Lawful, Consistent, IndexOf, KnownFrom, Worker, UpToDate, Fresh, Subset;
    forall p | p in toIngest
      ensures IsParsed(Worker(fe, fs, Subset(known, toIngest))(p)) <==> Fresh(fe, p, fs[p].content).Some?
      ensures IsUnparsed(Worker(fe, fs, Subset(known, toIngest))(p)) <==> Fresh(fe, p, fs[p].content).None?
    {
      SubsetWork(fe, fs, known, toIngest, p);
      OutcomeAt(fe, fs, db, known, p);
    }
  }

  lemma UnfitByForm(fe: Frontend, paths: seq<string>)
    requires !(forall p :: p in paths ==> !Escapes(fe.clean(p)) && fe.handles(fe.clean(p)))
    ensures !AllFit(fe, paths)
  {
    hide Escapes;
    var p :| p in paths && !(!Escapes(fe.clean(p)) && fe.handles(fe.clean(p)));
    assert Unfit(fe, fe.clean(p));
  }

  lemma FitWhenAccepted(fe: Frontend, paths: seq<string>, cleaned: seq<string>)
    requires forall p :: p in paths ==> !Escapes(fe.clean(p)) && fe.handles(fe.clean(p))
    requires Elements(cleaned) == Touched(fe, paths)
    ensures (exists p :: p in cleaned && !fe.accepted(p)) <==> !AllFit(fe, paths)
  {
    hide Escapes;
    if p :| p in cleaned && !fe.accepted(p) {
      assert p in Touched(fe, paths);
      var q :| q in paths && fe.indexable(fe.clean(q)) && p == fe.clean(q);
      assert Unfit(fe, fe.clean(q));
    }
    if !AllFit(fe, paths) {
      var q :| q in paths && Unfit(fe, fe.clean(q));
      assert fe.clean(q) in Elements(cleaned);
    }
  }

  lemma PendingIsThere(fe: Frontend, fs: Files, ix: Index, done: set<string>, toIngest: seq<string>)
    requires Pending(fe, fs, ix, done, toIngest)
    ensures forall p :: p in toIngest ==> p in fs && p in done
  {
  }

  lemma SubsetWork(fe: Frontend, fs: Files, known: map<string, Known>, files: seq<string>, p: string)
    requires p in files
    ensures Worker(fe, fs, Subset(known, files))(p) == Worker(fe, fs, known)(p)
  {
  }

  lemma SubsetForward(fe: Frontend, fs: Files, known: map<string, Known>, files: seq<string>)
    ensures forall p :: p in files ==>
              (Forward(Worker(fe, fs, Subset(known, files)), p) <==> Forward(Worker(fe, fs, known), p))
  {
    hide Subset, Worker, ParentsBackward;
    forall p | p in files
      ensures Forward(Worker(fe, fs, Subset(known, files)), p) <==> Forward(Worker(fe, fs, known), p)
    {
      SubsetWork(fe, fs, known, files, p);
    }
  }

  lemma SubsetWrites(fe: Frontend, fs: Files, known: map<string, Known>, files: seq<string>, ix0: Index, ix: Index)
    requires WrittenUpTo(ix0, ix, Worker(fe, fs, Subset(known, files)), Elements(files))
    ensures WrittenUpTo(ix0, ix, Worker(fe, fs, known), Elements(files))
  {
    hide Subset, Worker, EntryOf;
    forall p
      ensures At(ix, p) == if p in Elements(files) then Written(Worker(fe, fs, known)(p), At(ix0, p)) else At(ix0, p)
    {
      if p in files {
        SubsetWork(fe, fs, known, files, p);
      }
      assert At(ix, p) == At(ix, p);
    }
  }

  lemma IncrementalPaths(fe: Frontend, fs: Files, db: Db, known: map<string, Known>, touched: set<string>,
                         toIngest: seq<string>, swept: Index, written: Index)
    requires Lawful(fe) && Consistent(db) && KnownFrom(db, known)
    requires RemovedUpTo(fs, IndexOf(db), swept, touched) && Pending(fe, fs, IndexOf(db), touched, toIngest)
    requires WrittenUpTo(swept, written, Worker(fe, fs, known), Elements(toIngest))
    requires forall p :: p in toIngest ==> !Forward(Worker(fe, fs, known), p)
    ensures forall p :: At(written, p) == AfterIncremental(fe, fs, IndexOf(db), touched, p)
    ensures forall p :: p in touched ==> !Unlinkable(fe, fs, IndexOf(db), p)
  {
    hide *;
    forall p
      ensures At(written, p) == AfterIncremental(fe, fs, IndexOf(db), touched, p)
      ensures p in touched ==> !Unlinkable(fe, fs, IndexOf(db), p)
    {
      IncrementalPath(fe, fs, db, known, touched, toIngest, swept, written, p);
      LinkablePath(fe, fs, db, known, touched, toIngest, p);
    }
  }

  /** The stages together: what each path holds after the build. */
  lemma IncrementalPath(fe: Frontend, fs: Files, db: Db, known: map<string, Known>, touched: set<string>,
                        toIngest: seq<string>, swept: Index, written: Index, p: string)
    requires Lawful(fe) && Consistent(db) && KnownFrom(db, known)
    requires RemovedUpTo(fs, IndexOf(db), swept, touched) && Pending(fe, fs, IndexOf(db), touched, toIngest)
    requires WrittenUpTo(swept, written, Worker(fe, fs, known), Elements(toIngest))
    ensures At(written, p) == AfterIncremental(fe, fs, IndexOf(db), touched, p)
  {
    if p in fs {
      WorkAt(fe, fs, db, known, p);
    }
    RemovedAt(fs, IndexOf(db), swept, touched, p);
    hide Consistent, IndexOf, Lawful, KnownFrom, Ingested, Fresh, UpToDate, Work, RemovedUpTo;
    assert At(written, p)
           == if p in Elements(toIngest) then Written(Worker(fe, fs, known)(p), At(swept, p)) else At(swept, p);
  }

  lemma RemovedAt(fs: Files, ix0: Index, ix: Index, done: set<string>, p: string)
    requires RemovedUpTo(fs, ix0, ix, done)
    ensures At(ix, p) == if p in done && p !in fs && p in ix0 && ix0[p].hash != "" then None else At(ix0, p)
  {
  }

  lemma LinkablePath(fe: Frontend, fs: Files, db: Db, known: map<string, Known>, touched: set<string>,
                     toIngest: seq<string>, p: string)
    requires Lawful(fe) && Consistent(db) && KnownFrom(db, known)
    requires Pending(fe, fs, IndexOf(db), touched, toIngest)
    requires p in toIngest ==> !Forward(Worker(fe, fs, known), p)
    ensures p in touched ==> !Unlinkable(fe, fs, IndexOf(db), p)
  {
    hide Consistent, IndexOf, Lawful, KnownFrom, Forward, ParentsBackward, ResultOf, UpToDate;
    if p in touched && p in fs {
      ForwardIsUnlinkable(fe, fs, db, known, p);
    }
  }

  /**
     What a build that takes effect changes: the index stays as
     it was exactly when no touched file changed and no row goes.
  */
  lemma TouchedChangesIff(fe: Frontend, fs: Files, ix: Index, touched: set<string>)
    ensures (forall p :: AfterIncremental(fe, fs, ix, touched, p) == At(ix, p)) <==>
            Changed(fe, fs, ix, touched) == {} && Removed(fs, ix, touched) == {}
  {
    forall p
      ensures AfterIncremental(fe, fs, ix, touched, p) == At(ix, p) <==>
              p !in Changed(fe, fs, ix, touched) && p !in Removed(fs, ix, touched)
    {
      if p in fs {
        FreshIsUpToDate(fe, p, fs[p].content);
      }
    }
  }
}
