/** The full build: prune, parse, write, sweep and commit, in one transaction over the store. */
module Build {
  import opened Prelude
  import opened Ordering
  import opened Tables
  import opened Transaction
  import opened Writer
  import opened Ingest
  import opened IngestFiles
  import Pool

  datatype Options = Options(clean: bool, allowed: seq<string>, jobs: int)

  /** The database file: the committed tables, and whether a build has stamped its root. */
  class Store {
    var committed: Db
    var stamped: bool

    constructor ()
      ensures committed == EMPTY && !stamped
    {
      committed, stamped := EMPTY, false;
    }
  }

  // ---- cross-language cleanup ----

  /** The languages of the rows that are not allowed. */
  function Disallowed(db: Db, allowed: seq<string>): set<string> {
    set f | f in db.files && db.files[f].lang !in allowed :: db.files[f].lang
  }

  ghost predicate PrunedUpTo(ix0: Index, ix: Index, done: set<string>) {
    forall p {:trigger At(ix, p)} :: At(ix, p) == if p in ix0 && ix0[p].lang !in done then Some(ix0[p]) else None
  }

  /** Files of the languages outside done are as before. */
  ghost predicate LangsKept(db0: Db, db: Db, done: set<string>) {
    forall lang {:trigger FilesOfLang(db0, lang)} :: lang !in done ==> FilesOfLang(db, lang) == FilesOfLang(db0, lang)
  }

  ghost predicate Counted(db0: Db, removed: map<string, nat>) {
    forall lang :: lang in removed ==> removed[lang] == |FilesOfLang(db0, lang)|
  }

  /** Deletes every file of a language that is not allowed, with what hangs on it, and counts the files by language. */
  method PruneDisabledLangs(tx: Tx, allowed: seq<string>) returns (removed: map<string, nat>)
    requires Consistent(tx.Now())
    modifies tx
    ensures Consistent(tx.Now())
    ensures allowed != [] ==> forall p :: At(IndexOf(tx.Now()), p) == Pruned(allowed, IndexOf(old(tx.Now())), p)
    ensures allowed == [] || Disallowed(old(tx.Now()), allowed) == {} ==> tx.Now() == old(tx.Now())
    ensures removed.Keys == if allowed == [] then {} else Disallowed(old(tx.Now()), allowed)
    ensures Counted(old(tx.Now()), removed)
  {
    hide Consistent, IndexOf, WithoutLang, PrunedUpTo, LangsKept, FilesOfLang, Counted, Disallowed, Pruned, Elements,
         Distinct;
    ghost var db0 := tx.Now();
    removed := map[];
    PrunedNothing(db0);
    if allowed == [] {
      return;
    }
    var toPrune := SortedLangs(Disallowed(tx.Now(), allowed));
    ghost var done: set<string> := {};
    NothingListed(toPrune);
    for k := 0 to |toPrune|
      invariant Consistent(tx.Now())
      invariant done == Elements(toPrune[..k]) == removed.Keys
      invariant PrunedUpTo(IndexOf(db0), IndexOf(tx.Now()), done) && LangsKept(db0, tx.Now(), done)
      invariant Counted(db0, removed)
      invariant k == 0 ==> tx.Now() == db0
    {
      ghost var db := tx.Now();
      var lang := toPrune[k];
      PrefixElements(toPrune, k);
      RemovedLang(db, lang);
      OtherLangs(db0, db, done, lang);
      var n := tx.RemoveFilesByLang(lang);
      CountedNext(db0, removed, lang, n);
      PrunedNext(IndexOf(db0), IndexOf(db), IndexOf(tx.Now()), done, lang);
      removed := removed[lang := n];
      done := done + {lang};
    }
    assert toPrune[..|toPrune|] == toPrune;
    PrunedAll(db0, tx.Now(), allowed);
  }

  lemma NothingListed(langs: seq<string>)
    ensures Elements(langs[..0]) == {} && (Elements(langs) == {} ==> langs == [])
  {
    assert langs != [] ==> langs[0] in Elements(langs);
  }

  lemma CountedNext(db0: Db, removed: map<string, nat>, lang: string, n: nat)
    requires Counted(db0, removed) && n == |FilesOfLang(db0, lang)|
    ensures Counted(db0, removed[lang := n])
  {
  }

  method SortedLangs(langs: set<string>) returns (sorted: seq<string>)
    ensures Elements(sorted) == langs && Distinct(sorted) && SortedBy(sorted, Strings())
  {
    sorted := [];
    var todo := langs;
    while todo != {}
      invariant Elements(sorted) + todo == langs && Elements(sorted) !! todo && Distinct(sorted)
      decreases todo
    {
      var lang :| lang in todo;
      assert lang !in Elements(sorted);
      sorted := sorted + [lang];
      todo := todo - {lang};
    }
    StringsAreOrdered();
    SortBySorts(sorted, Strings());
    SameElements(sorted, SortBy(sorted, Strings()));
    sorted := SortBy(sorted, Strings());
  }

  lemma PrunedNothing(db: Db)
    ensures PrunedUpTo(IndexOf(db), IndexOf(db), {}) && LangsKept(db, db, {}) && Counted(db, map[])
  {
    hide IndexOf;
  }

  lemma PrunedNext(ix0: Index, ix: Index, ix': Index, done: set<string>, lang: string)
    requires PrunedUpTo(ix0, ix, done)
    requires forall p :: p in ix' <==> p in ix && ix[p].lang != lang
    requires forall p :: p in ix' ==> ix'[p] == ix[p]
    ensures PrunedUpTo(ix0, ix', done + {lang})
  {
    forall p
      ensures At(ix', p) == if p in ix0 && ix0[p].lang !in done + {lang} then Some(ix0[p]) else None
    {
      assert At(ix, p) == if p in ix0 && ix0[p].lang !in done then Some(ix0[p]) else None;
    }
  }

  lemma OtherLangs(db0: Db, db: Db, done: set<string>, lang: string)
    requires LangsKept(db0, db, done) && lang !in done
    ensures FilesOfLang(db, lang) == FilesOfLang(db0, lang)
    ensures LangsKept(db0, WithoutLang(db, lang), done + {lang})
  {
    hide Doomed;
    assert FilesOfLang(db, lang) == FilesOfLang(db0, lang);
    forall other | other !in done + {lang}
      ensures FilesOfLang(WithoutLang(db, lang), other) == FilesOfLang(db0, other)
    {
      assert FilesOfLang(db, other) == FilesOfLang(db0, other);
    }
  }

  lemma PrunedAll(db0: Db, db: Db, allowed: seq<string>)
    requires Consistent(db0) && PrunedUpTo(IndexOf(db0), IndexOf(db), Disallowed(db0, allowed)) && allowed != []
    ensures forall p :: At(IndexOf(db), p) == Pruned(allowed, IndexOf(db0), p)
  {
    hide Consistent, IndexOf;
    forall p
      ensures At(IndexOf(db), p) == Pruned(allowed, IndexOf(db0), p)
    {
      if p in IndexOf(db0) {
        LangOfRow(db0, allowed, p);
      }
    }
  }

  lemma LangOfRow(db: Db, allowed: seq<string>, p: string)
    requires Consistent(db) && p in IndexOf(db)
    ensures IndexOf(db)[p].lang in Disallowed(db, allowed) <==> IndexOf(db)[p].lang !in allowed
  {
    hide Consistent, IndexOf;
    var f := FileId(db, p);
    EntryAt(db, f);
  }

  // ---- vanished files ----

  /** The given paths still have their row under the known id. */
  ghost predicate StillThere(files: map<nat, FileRow>, known: map<string, Known>, paths: set<string>) {
    forall p :: p in paths && p in known ==> known[p].id in files && files[known[p].id].path == p
  }

  /** Deletes the rows known before the build whose file the walk did not see. */
  method SweepVanished(tx: Tx, known: map<string, Known>, seen: set<string>) returns (n: nat)
    requires Consistent(tx.Now()) && StillThere(tx.files, known, known.Keys)
    modifies tx
    ensures Consistent(tx.Now())
    ensures IndexOf(tx.Now()) == IndexOf(old(tx.Now())) - (known.Keys - seen)
    ensures n == |known.Keys - seen|
    ensures known.Keys <= seen ==> tx.Now() == old(tx.Now())
  {
    hide Consistent, IndexOf, WithoutFile, StillThere, Swept;
    ghost var ix0 := IndexOf(tx.Now());
    var todo := known.Keys;
    ghost var gone: set<string> := {};
    SweptNothing(ix0, known.Keys, seen);
    n := 0;
    while todo != {}
      invariant Consistent(tx.Now()) && todo <= known.Keys && StillThere(tx.files, known, todo)
      invariant Swept(ix0, IndexOf(tx.Now()), known.Keys, todo, seen, gone)
      invariant n == |gone|
      invariant gone == {} ==> tx.Now() == old(tx.Now())
      decreases todo
    {
      var p :| p in todo;
      ghost var before := todo;
      todo := todo - {p};
      SweptNext(ix0, IndexOf(tx.Now()), known.Keys, before, seen, gone, p);
      if p in seen {
        FewerStillThere(tx.files, known, before, todo);
      } else {
        Removable(tx.Now(), known, before, p);
        RemovedFile(tx.Now(), known[p].id);
        tx.RemoveFile(known[p].id);
        n := n + 1;
        gone := gone + {p};
      }
    }
    SweptAll(ix0, IndexOf(tx.Now()), known.Keys, seen, gone);
  }

  /** The rows gone so far are those of the unseen paths already looked at. */
  ghost predicate Swept(ix0: Index, ix: Index, all: set<string>, todo: set<string>, seen: set<string>,
                        gone: set<string>) {
    gone == all - todo - seen && ix == ix0 - gone
  }

  lemma SweptNothing(ix: Index, all: set<string>, seen: set<string>)
    ensures Swept(ix, ix, all, all, seen, {})
  {
  }

  lemma SweptNext(ix0: Index, ix: Index, all: set<string>, todo: set<string>, seen: set<string>, gone: set<string>,
                  p: string)
    requires Swept(ix0, ix, all, todo, seen, gone) && p in todo && todo <= all
    ensures if p in seen then Swept(ix0, ix, all, todo - {p}, seen, gone)
            else p !in gone && Swept(ix0, ix - {p}, all, todo - {p}, seen, gone + {p})
  {
    if p in seen {
      assert gone == all - (todo - {p}) - seen;
    } else {
      assert gone + {p} == all - (todo - {p}) - seen;
      assert ix - {p} == ix0 - (gone + {p});
    }
  }

  lemma SweptAll(ix0: Index, ix: Index, all: set<string>, seen: set<string>, gone: set<string>)
    requires Swept(ix0, ix, all, {}, seen, gone)
    ensures ix == ix0 - (all - seen) && gone == all - seen
    ensures all <= seen ==> gone == {}
  {
    assert gone == all - seen;
  }

  lemma FewerStillThere(files: map<nat, FileRow>, known: map<string, Known>, paths: set<string>, fewer: set<string>)
    requires StillThere(files, known, paths) && fewer <= paths
    ensures StillThere(files, known, fewer)
  {
  }

  lemma Removable(db: Db, known: map<string, Known>, paths: set<string>, p: string)
    requires StillThere(db.files, known, paths) && p in paths && p in known
    ensures known[p].id in db.files && db.files[known[p].id].path == p
    ensures StillThere(WithoutFile(db, known[p].id).files, known, paths - {p})
  {
    hide Doomed;
  }

  // ---- the build ----

  /** What the walk reports: every file with a handled extension in a directory it enters, once. */
  ghost predicate Listing(fe: Frontend, fs: Files, listing: seq<string>) {
    && Distinct(listing) && "" !in listing
    && forall p :: p in listing <==> p in fs && fe.handles(p) && fe.reached(p)
  }

  ghost function WalkedFiles(fe: Frontend, fs: Files): set<string> {
    set p | p in fs && Walked(fe, fs, p)
  }

  ghost function ToIngest(fe: Frontend, fs: Files, ix: Index): set<string> {
    set p | p in fs && Walked(fe, fs, p) && !UpToDate(fe, ix, p, fs[p]) && Fresh(fe, p, fs[p].content).Some?
  }

  ghost function Unparsable(fe: Frontend, fs: Files, ix: Index): set<string> {
    set p | p in fs && Walked(fe, fs, p) && !UpToDate(fe, ix, p, fs[p]) && Fresh(fe, p, fs[p].content).None?
  }

  ghost function Vanished(fe: Frontend, fs: Files, ix: Index): set<string> {
    set p | p in ix && !Walked(fe, fs, p)
  }

  /** A full build over this index would change nothing. */
  ghost predicate Settled(fe: Frontend, allowed: seq<string>, fs: Files, ix: Index) {
    && ToIngest(fe, fs, ix) == {}
    && (allowed == [] ==> Vanished(fe, fs, ix) == {})
    && (allowed != [] ==> NoneDisallowed(allowed, ix))
  }

  ghost predicate BuildStats(fe: Frontend, allowed: seq<string>, fs: Files, db: Db, stats: Stats) {
    var ix := IndexOf(db);
    && stats.scanned == |WalkedFiles(fe, fs)|
    && stats.ingested == |ToIngest(fe, fs, ix)|
    && stats.skipped == |Unparsable(fe, fs, ix)|
    && stats.removed == (if allowed == [] then |Vanished(fe, fs, ix)| else 0)
    && stats.removedLangs.Keys == (if allowed == [] then {} else Disallowed(db, allowed))
    && Counted(db, stats.removedLangs)
  }

  /** A walked file that would be parsed again and whose symbols cannot all be linked. */
  ghost predicate Unlinkable(fe: Frontend, fs: Files, ix: Index, p: string) {
    && p in fs && !UpToDate(fe, ix, p, fs[p]) && ResultOf(fe, p, fs[p]).Some?
    && !ParentsBackward(ResultOf(fe, p, fs[p]).value.symbols)
  }

  method IndexableFiles(fe: Frontend, listing: seq<string>) returns (files: seq<string>)
    requires Distinct(listing)
    ensures Distinct(files) && forall p :: p in files <==> p in listing && fe.indexable(p)
  {
    files := [];
    for i := 0 to |listing|
      invariant Distinct(files) && forall p :: p in files <==> p in listing[..i] && fe.indexable(p)
    {
      if fe.indexable(listing[i]) {
        assert listing[i] !in listing[..i];
        files := files + [listing[i]];
      }
    }
  }

  /** What a build did to the tables base, path by path; it changed them exactly when there was something to do. */
  ghost predicate BuiltOver(fe: Frontend, allowed: seq<string>, fs: Files, base: Db, db: Db) {
    && (forall p :: At(IndexOf(db), p) == AfterBuild(fe, allowed, fs, IndexOf(base), p))
    && (forall p :: Walked(fe, fs, p) ==> !Unlinkable(fe, fs, IndexOf(base), p))
    && (db == base <==> Settled(fe, allowed, fs, IndexOf(base)))
  }

  /** Nothing failed that this build does; n is the number of files it writes. */
  ghost predicate NothingFailed(fails: Moment -> bool, allowed: seq<string>, n: nat) {
    && !fails(AtStart) && !fails(AtPrepare) && !fails(AtCommit)
    && NothingFailedInside(fails, allowed, n)
  }

  ghost predicate NothingFailedInside(fails: Moment -> bool, allowed: seq<string>, n: nat) {
    && (if allowed == [] then !fails(AtSweep) else !fails(AtPrune))
    && NoWriteFailed(fails, n)
  }

  /** The moments that such a build has. */
  predicate HasMoment(allowed: seq<string>, n: nat, at: Moment) {
    match at
    case AtPrune => allowed != []
    case AtSweep => allowed == []
    case AtWrite(i) => i < n
    case _ => true
  }

  /**
     The part inside the transaction: prune, ingest, sweep.
     Rows are read from the committed tables, not the transaction.
  */
  method BuildInside(tx: Tx, committed: Db, fe: Frontend, fs: Files, files: seq<string>, opts: Options, cpus: nat,
                     schedule: Pool.State<Outcome> -> Pool.Step, fails: Moment -> bool) returns (report: Report)
    requires Lawful(fe) && Consistent(committed) && tx.Now() == committed
    requires Distinct(files) && forall p :: p in files <==> Walked(fe, fs, p)
    requires forall p :: p in files ==> p in fs
    modifies tx
    ensures report.Built? || report.Stopped? || report.Refused?
    ensures report.Stopped? ==> report.at !in {AtStart, AtStats} && Struck(schedule, fails, report.at)
    ensures report.Refused? ==> exists p :: Walked(fe, fs, p) && Unlinkable(fe, fs, IndexOf(committed), p)
    ensures report.Built? ==>
              && Consistent(tx.Now()) && BuiltOver(fe, opts.allowed, fs, committed, tx.Now())
              && BuildStats(fe, opts.allowed, fs, committed, report.stats)
    ensures report.Built? ==> NothingFailedInside(fails, opts.allowed, |files|)
    ensures report.Stopped? ==> HasMoment(opts.allowed, |files|, report.at)
  {
    hide Consistent, IndexOf, Walked, Unlinkable, BuiltOver, BuildStats, Struck, KnownFrom, Worker, Tally, Forward,
         WrittenUpTo, RowsKept, Disallowed, Counted, StillThere, Pruned, Lawful, Elements, Distinct;
    if opts.allowed != [] && fails(AtPrune) {
      FailureStrikes(schedule, fails, AtPrune);
      return Stopped(AtPrune);
    }
    var removedLangs := PruneDisabledLangs(tx, opts.allowed);
    ghost var pruned := tx.Now();
    var known := LoadPrevFiles(committed);
    ghost var cancelled;
    report, cancelled := IngestFilesParallel(tx, fe, fs, files, known, opts.jobs, cpus, schedule, fails);
    if report.Refused? {
      ghost var p :| p in files && Forward(Worker(fe, fs, known), p);
      ForwardIsUnlinkable(fe, fs, committed, known, p);
    }
    if !report.Built? {
      return;
    }
    ghost var written := tx.Now();
    var removed := 0;
    if opts.allowed == [] {
      if fails(AtSweep) {
        FailureStrikes(schedule, fails, AtSweep);
        return Stopped(AtSweep);
      }
      KnownStay(committed, known, tx.files);
      removed := SweepVanished(tx, known, Elements(files));
    }
    report := Built(Stats(|files|, report.stats.ingested, report.stats.skipped, removed, removedLangs));
    BuiltAll(fe, opts.allowed, fs, committed, pruned, written, tx.Now(), files, known, report.stats);
  }

  /** The stages together. */
  lemma {:induction false} BuiltAll(fe: Frontend, allowed: seq<string>, fs: Files, base: Db, pruned: Db, written: Db,
                                    final: Db, files: seq<string>, known: map<string, Known>, stats: Stats)
    requires Lawful(fe) && Consistent(base) && KnownFrom(base, known)
    requires Distinct(files) && forall p :: p in files <==> Walked(fe, fs, p)
    requires forall p :: p in files ==> p in fs && !Forward(Worker(fe, fs, known), p)
    requires allowed != [] ==> forall p :: At(IndexOf(pruned), p) == Pruned(allowed, IndexOf(base), p)
    requires allowed == [] || Disallowed(base, allowed) == {} ==> pruned == base
    requires WrittenUpTo(IndexOf(pruned), IndexOf(written), Worker(fe, fs, known), Elements(files))
    requires (forall p :: p in files ==> !Worker(fe, fs, known)(p).Parsed?) ==> written == pruned
    requires if allowed == [] then IndexOf(final) == IndexOf(written) - (known.Keys - Elements(files))
             else final == written
    requires known.Keys <= Elements(files) ==> final == written
    requires stats.scanned == |files|
    requires stats.ingested == Tally(files, Worker(fe, fs, known), IsParsed)
    requires stats.skipped == Tally(files, Worker(fe, fs, known), IsUnparsed)
    requires stats.removed == if allowed == [] then |known.Keys - Elements(files)| else 0
    requires stats.removedLangs.Keys == (if allowed == [] then {} else Disallowed(base, allowed))
             && Counted(base, stats.removedLangs)
    ensures BuiltOver(fe, allowed, fs, base, final) && BuildStats(fe, allowed, fs, base, stats)
  {
    hide *;
    BuiltPaths(fe, allowed, fs, base, files, known, IndexOf(pruned), IndexOf(written), IndexOf(final));
    NothingChanged(fe, allowed, fs, base, pruned, written, final, files, known);
    CountedStats(fe, allowed, fs, base, files, known, stats);
    MakeBuiltOver(fe, allowed, fs, base, final);
  }

  lemma MakeBuiltOver(fe: Frontend, allowed: seq<string>, fs: Files, base: Db, db: Db)
    requires forall p :: At(IndexOf(db), p) == AfterBuild(fe, allowed, fs, IndexOf(base), p)
    requires forall p :: Walked(fe, fs, p) ==> !Unlinkable(fe, fs, IndexOf(base), p)
    requires Settled(fe, allowed, fs, IndexOf(base)) ==> db == base
    ensures BuiltOver(fe, allowed, fs, base, db)
  {
    SomethingChanged(fe, allowed, fs, IndexOf(base), IndexOf(db));
    hide IndexOf, AfterBuild, Walked, Unlinkable, Settled, At;
  }

  /** With something to do the index changes. */
  lemma SomethingChanged(fe: Frontend, allowed: seq<string>, fs: Files, ix: Index, ix': Index)
    requires forall p :: At(ix', p) == AfterBuild(fe, allowed, fs, ix, p)
    ensures !Settled(fe, allowed, fs, ix) ==> ix' != ix
  {
    hide AfterBuild, Fresh, Admitted;
    if !Settled(fe, allowed, fs, ix) {
      var p: string;
      if ToIngest(fe, fs, ix) != {} {
        p :| p in ToIngest(fe, fs, ix);
      } else if allowed == [] {
        p :| p in Vanished(fe, fs, ix);
      } else {
        p :| p in ix && ix[p].lang !in allowed;
      }
      assert At(ix', p) == AfterBuild(fe, allowed, fs, ix, p);
      ChangedPath(fe, allowed, fs, ix, p);
    }
  }

  lemma ChangedPath(fe: Frontend, allowed: seq<string>, fs: Files, ix: Index, p: string)
    requires p in ToIngest(fe, fs, ix) || (allowed == [] && p in Vanished(fe, fs, ix))
             || (allowed != [] && p in ix && ix[p].lang !in allowed)
    ensures AfterBuild(fe, allowed, fs, ix, p) != At(ix, p)
  {
    if p in fs {
      FreshIsUpToDate(fe, p, fs[p].content);
    }
    hide Fresh;
  }

  /** With nothing to do no stage changes a table. */
  lemma NothingChanged(fe: Frontend, allowed: seq<string>, fs: Files, base: Db, pruned: Db, written: Db, final: Db,
                       files: seq<string>, known: map<string, Known>)
    requires Lawful(fe) && Consistent(base) && KnownFrom(base, known)
    requires forall p :: p in files <==> Walked(fe, fs, p)
    requires allowed == [] || Disallowed(base, allowed) == {} ==> pruned == base
    requires (forall p :: p in files ==> !Worker(fe, fs, known)(p).Parsed?) ==> written == pruned
    requires allowed == [] && known.Keys <= Elements(files) ==> final == written
    requires allowed != [] ==> final == written
    ensures Settled(fe, allowed, fs, IndexOf(base)) ==> final == base
  {
    hide *;
    SettledStays(fe, allowed, fs, base, files, known);
  }

  /**
   Walks, builds inside one transaction, commits and counts. A build that stops at or before the commit leaves the
   tables alone, except that a clean build has emptied them. A failure after the commit is reported although the
   tables are new.
   */
  method Build(s: Store, fe: Frontend, fs: Files, listing: seq<string>, opts: Options, cpus: nat,
               schedule: Pool.State<Outcome> -> Pool.Step, fails: Moment -> bool) returns (report: Report)
    requires Lawful(fe) && Consistent(s.committed) && Listing(fe, fs, listing)
    modifies s
    ensures Consistent(s.committed) && (!opts.clean && old(s.stamped) ==> s.stamped)
    ensures report.Built? || report.Stopped? || report.Refused?
    ensures report.Stopped? ==> Struck(schedule, fails, report.at)
    ensures var base := if opts.clean then EMPTY else old(s.committed);
            && (TookEffect(report) ==>
                  && s.stamped && BuiltOver(fe, opts.allowed, fs, base, s.committed)
                  && forall p :: BuildStores(fe, opts.allowed, fs, IndexOf(base), IndexOf(s.committed), p))
            && (!TookEffect(report) ==> s.committed == if report == Stopped(AtStart) then old(s.committed) else base)
            && (report.Built? ==> !fails(AtStats) && BuildStats(fe, opts.allowed, fs, base, report.stats))
            && (report.Refused? ==> exists p :: Walked(fe, fs, p) && Unlinkable(fe, fs, IndexOf(base), p))
    ensures TookEffect(report) ==> NothingFailed(fails, opts.allowed, |WalkedFiles(fe, fs)|)
    ensures report.Stopped? ==> HasMoment(opts.allowed, |WalkedFiles(fe, fs)|, report.at)
  {
    hide Consistent, IndexOf, Walked, Unlinkable, BuiltOver, BuildStats, Struck, Listing, Lawful, Distinct, BuildStores;
    if fails(AtStart) {
      FailureStrikes(schedule, fails, AtStart);
      return Stopped(AtStart);
    }
    if opts.clean {
      s.committed, s.stamped := EMPTY, false;
      EmptyIsConsistent();
    }
    if fails(AtPrepare) {
      FailureStrikes(schedule, fails, AtPrepare);
      return Stopped(AtPrepare);
    }
    s.stamped := true;
    ListedOnce(fe, fs, listing);
    var files := IndexableFiles(fe, listing);
    ListedAreWalked(fe, fs, listing, files);
    FilesToWrite(fe, fs, files);
    var tx := new Tx(s.committed);
    report := BuildInside(tx, s.committed, fe, fs, files, opts, cpus, schedule, fails);
    if !report.Built? {
      return;
    }
    if fails(AtCommit) {
      FailureStrikes(schedule, fails, AtCommit);
      return Stopped(AtCommit);
    }
    BuiltStores(fe, opts.allowed, fs, s.committed, tx.Now());
    s.committed := tx.Now();
    if fails(AtStats) {
      FailureStrikes(schedule, fails, AtStats);
      return Stopped(AtStats);
    }
  }

  lemma FilesToWrite(fe: Frontend, fs: Files, files: seq<string>)
    requires Distinct(files) && forall p :: p in files <==> Walked(fe, fs, p)
    ensures |WalkedFiles(fe, fs)| == |files|
  {
    SameFiles(fe, fs, files);
    DistinctCardinality(files);
  }

  lemma BuiltStores(fe: Frontend, allowed: seq<string>, fs: Files, base: Db, db: Db)
    requires BuiltOver(fe, allowed, fs, base, db)
    ensures forall p :: BuildStores(fe, allowed, fs, IndexOf(base), IndexOf(db), p)
  {
    hide IndexOf, AfterBuild, BuildStores, Unlinkable, Settled;
    forall p
      ensures BuildStores(fe, allowed, fs, IndexOf(base), IndexOf(db), p)
    {
      AfterBuildStores(fe, allowed, fs, IndexOf(base), IndexOf(db), p);
    }
  }

  lemma FailureStrikes(schedule: Pool.State<Outcome> -> Pool.Step, fails: Moment -> bool, at: Moment)
    requires fails(at) && at != AtParse
    ensures Struck(schedule, fails, at)
  {
  }

  /** One file that any parser would take. */
  function PlainFrontend(): Frontend {
    Frontend("go", content => "h" + content, (rel, content) => Some(Parse([], [])), p => p, p => false,
             p => p == "a.go", p => true, p => true, p => true)
  }

  lemma PlainIsLawful()
    ensures Lawful(PlainFrontend())
  {
    var fe := PlainFrontend();
    forall a, b | fe.hash(a) == fe.hash(b)
      ensures a == b
    {
      assert a == fe.hash(a)[1..] && b == fe.hash(b)[1..];
    }
  }

  /** A failure after the commit: the build reports an error, and the tables are not what they were. */
  method CommittedYetFailed() returns (s: Store, report: Report)
    ensures fresh(s) && report == Stopped(AtStats) && s.committed != EMPTY
  {
    hide BuildStores, BuildStats, AfterBuild, Settled, Unlinkable;
    s := new Store();
    PlainIsLawful();
    EmptyIsConsistent();
    var fe, fs: Files := PlainFrontend(), map["a.go" := FileData("", 0, 0)];
    assert fe.parse("a.go", "") == Some(Parse([], []));
    NothingStored();
    report := Build(s, fe, fs, ["a.go"], Options(false, [], 1), 1, st => Pool.Finish, m => m == AtStats);
    OneFileToDo(fe, fs);
  }

  lemma NothingStored()
    ensures IndexOf(EMPTY) == map[]
  {
    assert Paths(EMPTY) == {};
  }

  lemma OneFileToDo(fe: Frontend, fs: Files)
    requires fe == PlainFrontend() && fs == map["a.go" := FileData("", 0, 0)]
    ensures !Settled(fe, [], fs, map[]) && forall p, ix :: !Unlinkable(fe, fs, ix, p)
  {
    assert fe.parse("a.go", "") == Some(Parse([], []));
    assert "a.go" in ToIngest(fe, fs, map[]);
  }

  lemma EmptyIsConsistent()
    ensures Consistent(EMPTY)
  {
  }

  lemma ListedOnce(fe: Frontend, fs: Files, listing: seq<string>)
    requires Listing(fe, fs, listing)
    ensures Distinct(listing)
  {
  }

  lemma ListedAreWalked(fe: Frontend, fs: Files, listing: seq<string>, files: seq<string>)
    requires Listing(fe, fs, listing) && forall p :: p in files <==> p in listing && fe.indexable(p)
    ensures forall p :: p in files <==> Walked(fe, fs, p)
    ensures forall p :: p in files ==> p in fs
  {
  }

  lemma ForwardIsUnlinkable(fe: Frontend, fs: Files, db: Db, known: map<string, Known>, p: string)
    requires Lawful(fe) && Consistent(db) && KnownFrom(db, known) && p in fs
    ensures Forward(Worker(fe, fs, known), p) <==> Unlinkable(fe, fs, IndexOf(db), p)
  {
    WorkAt(fe, fs, db, known, p);
    hide Consistent, IndexOf, Lawful, KnownFrom, ParentsBackward, Ingested;
  }

  /** With no cleanup the rows known before the build are still there after the writes. */
  lemma KnownStay(db: Db, known: map<string, Known>, after: map<nat, FileRow>)
    requires KnownFrom(db, known) && RowsKept(db.files, after)
    ensures StillThere(after, known, known.Keys)
  {
  }

  /** The stages together: what each path holds after the build. */
  lemma BuiltPath(fe: Frontend, allowed: seq<string>, fs: Files, db: Db, files: seq<string>, known: map<string, Known>,
                  pruned: Index, written: Index, final: Index, p: string)
    requires Lawful(fe) && Consistent(db) && KnownFrom(db, known)
    requires p in files <==> Walked(fe, fs, p)
    requires if allowed == [] then pruned == IndexOf(db) else At(pruned, p) == Pruned(allowed, IndexOf(db), p)
    requires WrittenUpTo(pruned, written, Worker(fe, fs, known), Elements(files))
    requires if allowed == [] then final == written - (known.Keys - Elements(files)) else final == written
    ensures At(final, p) == AfterBuild(fe, allowed, fs, IndexOf(db), p)
  {
    if p in fs {
      WorkAt(fe, fs, db, known, p);
    }
    KnownAt(db, known, p);
    hide Consistent, IndexOf, Lawful, KnownFrom, Ingested;
    assert At(written, p)
           == if p in Elements(files) then Written(Worker(fe, fs, known)(p), At(pruned, p)) else At(pruned, p);
  }

  lemma BuiltPaths(fe: Frontend, allowed: seq<string>, fs: Files, db: Db, files: seq<string>, known: map<string, Known>,
                   pruned: Index, written: Index, final: Index)
    requires Lawful(fe) && Consistent(db) && KnownFrom(db, known)
    requires forall p :: p in files <==> Walked(fe, fs, p)
    requires forall p :: p in files ==> p in fs && !Forward(Worker(fe, fs, known), p)
    requires if allowed == [] then pruned == IndexOf(db)
             else forall p :: At(pruned, p) == Pruned(allowed, IndexOf(db), p)
    requires WrittenUpTo(pruned, written, Worker(fe, fs, known), Elements(files))
    requires if allowed == [] then final == written - (known.Keys - Elements(files)) else final == written
    ensures forall p :: At(final, p) == AfterBuild(fe, allowed, fs, IndexOf(db), p)
    ensures forall p :: Walked(fe, fs, p) ==> !Unlinkable(fe, fs, IndexOf(db), p)
  {
    hide *;
    forall p
      ensures At(final, p) == AfterBuild(fe, allowed, fs, IndexOf(db), p)
      ensures Walked(fe, fs, p) ==> !Unlinkable(fe, fs, IndexOf(db), p)
    {
      BuiltPath(fe, allowed, fs, db, files, known, pruned, written, final, p);
      if p in files {
        ForwardIsUnlinkable(fe, fs, db, known, p);
      }
    }
  }

  /** Nothing to ingest: no worker has anything to write. */
  lemma SettledStays(fe: Frontend, allowed: seq<string>, fs: Files, db: Db, files: seq<string>,
                     known: map<string, Known>)
    requires Lawful(fe) && Consistent(db) && KnownFrom(db, known)
    requires forall p :: p in files <==> Walked(fe, fs, p)
    ensures Settled(fe, allowed, fs, IndexOf(db)) ==>
              && (forall p :: p in files ==> !Worker(fe, fs, known)(p).Parsed?)
              && (allowed == [] ==> known.Keys <= Elements(files))
              && (allowed != [] ==> Disallowed(db, allowed) == {})
  {
    if Settled(fe, allowed, fs, IndexOf(db)) {
      forall p | p in files
        ensures !Worker(fe, fs, known)(p).Parsed?
      {
        WorkAt(fe, fs, db, known, p);
        assert p !in ToIngest(fe, fs, IndexOf(db));
      }
      SettledRows(fe, allowed, fs, db, files, known);
    }
  }

  lemma SettledRows(fe: Frontend, allowed: seq<string>, fs: Files, db: Db, files: seq<string>,
                    known: map<string, Known>)
    requires Consistent(db) && KnownFrom(db, known) && Settled(fe, allowed, fs, IndexOf(db))
    requires forall p :: p in files <==> Walked(fe, fs, p)
    ensures allowed == [] ==> known.Keys <= Elements(files)
    ensures allowed != [] ==> Disallowed(db, allowed) == {}
  {
    hide Consistent, IndexOf, ToIngest;
    if allowed == [] {
      forall p | p in known
        ensures p in files
      {
        KnownAt(db, known, p);
        assert p !in Vanished(fe, fs, IndexOf(db));
      }
    } else {
      forall f | f in db.files
        ensures db.files[f].lang in allowed
      {
        EntryAt(db, f);
      }
    }
  }

  lemma {:induction false} CountedStats(fe: Frontend, allowed: seq<string>, fs: Files, db: Db, files: seq<string>,
                                        known: map<string, Known>, stats: Stats)
    requires Lawful(fe) && Consistent(db) && KnownFrom(db, known) && Distinct(files)
    requires forall p :: p in files <==> Walked(fe, fs, p)
    requires stats.scanned == |files|
    requires stats.ingested == Tally(files, Worker(fe, fs, known), IsParsed)
    requires stats.skipped == Tally(files, Worker(fe, fs, known), IsUnparsed)
    requires stats.removed == if allowed == [] then |known.Keys - Elements(files)| else 0
    requires stats.removedLangs.Keys == (if allowed == [] then {} else Disallowed(db, allowed))
             && Counted(db, stats.removedLangs)
    ensures BuildStats(fe, allowed, fs, db, stats)
  {
    hide Consistent, IndexOf, Lawful, Counted, Disallowed, Tally, Walked, KnownFrom, UpToDate, Fresh, Worker, Chosen,
         ToIngest, Unparsable, Vanished, WalkedFiles, Elements;
    DistinctCardinality(files);
    SameFiles(fe, fs, files);
    TallyCounts(files, Worker(fe, fs, known), IsParsed);
    TallyCounts(files, Worker(fe, fs, known), IsUnparsed);
    SameTallies(fe, fs, db, files, known);
    SameVanished(fe, fs, db, files, known);
  }

  lemma SameFiles(fe: Frontend, fs: Files, files: seq<string>)
    requires forall p :: p in files <==> Walked(fe, fs, p)
    ensures Elements(files) == WalkedFiles(fe, fs)
  {
  }

  lemma SameTallies(fe: Frontend, fs: Files, db: Db, files: seq<string>, known: map<string, Known>)
    requires Lawful(fe) && Consistent(db) && KnownFrom(db, known)
    requires forall p :: p in files <==> Walked(fe, fs, p)
    ensures Chosen(files, Worker(fe, fs, known), IsParsed) == ToIngest(fe, fs, IndexOf(db))
    ensures Chosen(files, Worker(fe, fs, known), IsUnparsed) == Unparsable(fe, fs, IndexOf(db))
  {
    hide Consistent, IndexOf, Lawful, KnownFrom, UpToDate, Fresh;
    forall p | p in files
      ensures p in fs && Walked(fe, fs, p)
      ensures IsParsed(Worker(fe, fs, known)(p))
              <==> !UpToDate(fe, IndexOf(db), p, fs[p]) && Fresh(fe, p, fs[p].content).Some?
      ensures IsUnparsed(Worker(fe, fs, known)(p))
              <==> !UpToDate(fe, IndexOf(db), p, fs[p]) && Fresh(fe, p, fs[p].content).None?
    {
      OutcomeAt(fe, fs, db, known, p);
    }
  }

  lemma OutcomeAt(fe: Frontend, fs: Files, db: Db, known: map<string, Known>, p: string)
    requires Lawful(fe) && Consistent(db) && KnownFrom(db, known) && p in fs
    ensures IsParsed(Worker(fe, fs, known)(p))
            <==> !UpToDate(fe, IndexOf(db), p, fs[p]) && Fresh(fe, p, fs[p].content).Some?
    ensures IsUnparsed(Worker(fe, fs, known)(p))
            <==> !UpToDate(fe, IndexOf(db), p, fs[p]) && Fresh(fe, p, fs[p].content).None?
  {
    WorkAt(fe, fs, db, known, p);
    hide Consistent, IndexOf, Lawful, KnownFrom, UpToDate, Fresh, Work, Ingested;
  }

  lemma SameVanished(fe: Frontend, fs: Files, db: Db, files: seq<string>, known: map<string, Known>)
    requires Consistent(db) && KnownFrom(db, known)
    requires forall p :: p in files <==> Walked(fe, fs, p)
    ensures known.Keys - Elements(files) == Vanished(fe, fs, IndexOf(db))
  {
    hide Consistent, IndexOf, Walked;
    forall p
      ensures p in known <==> p in IndexOf(db)
    {
      KnownAt(db, known, p);
    }
  }

  /**
     After a build whose own language is allowed, or with no cleanup,
     a second one over the same tree changes no row.
  */
  lemma BuiltIsSettled(fe: Frontend, allowed: seq<string>, fs: Files, ix: Index, ix': Index)
    requires Keeps(fe, allowed)
    requires forall p :: At(ix', p) == AfterBuild(fe, allowed, fs, ix, p)
    ensures Settled(fe, allowed, fs, ix')
  {
    hide AfterBuild, Fresh, Admitted;
    forall p
      ensures Walked(fe, fs, p) && Fresh(fe, p, fs[p].content).Some? ==> UpToDate(fe, ix', p, fs[p])
      ensures p in ix' ==> (allowed == [] && Walked(fe, fs, p)) || (allowed != [] && ix'[p].lang in allowed)
    {
      SecondBuildIsIdle(fe, allowed, fs, ix, ix', p);
    }
  }
}
