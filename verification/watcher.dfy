/**
   From a changed tree to the right index: what the poller sees,
   the dispatch of a batch, and the loop over all batches.
*/
module Watcher {
  import opened Prelude
  import opened Tables
  import opened Writer
  import opened Ingest
  import opened IngestFiles
  import opened Build
  import opened Incremental
  import opened Coalescing
  import opened Polling
  import opened Walk
  import Wakeup
  import Pool

  // ---- from a change of the tree to the events it causes ----

  /** The index is what a full build of this tree leaves. */
  ghost predicate BuiltFrom(fe: Frontend, allowed: seq<string>, fs: Files, ix: Index) {
    && HashesSet(ix)
    && forall p {:trigger At(ix, p)} :: At(ix, p) == AfterBuild(fe, allowed, fs, ix, p)
  }

  /** A file whose content changed has another size or time. */
  ghost predicate StatsTell(fs: Files, fs': Files) {
    forall p :: p in fs && p in fs' && fs[p].content != fs'[p].content ==>
      fs[p].size != fs'[p].size || fs[p].mtime != fs'[p].mtime
  }

  /** What every full build leaves, if its own language is kept: a fixed point, over rows that all have a hash. */
  lemma BuildGivesBuiltFrom(fe: Frontend, allowed: seq<string>, fs: Files, ix: Index, ix': Index)
    requires Lawful(fe) && Keeps(fe, allowed) && HashesSet(ix)
    requires forall p :: At(ix', p) == AfterBuild(fe, allowed, fs, ix, p)
    ensures BuiltFrom(fe, allowed, fs, ix')
  {
    StepKeepsHashes(fe, allowed, FullBuild(fs), ix, ix');
    forall p
      ensures At(ix', p) == AfterBuild(fe, allowed, fs, ix', p)
    {
      SecondBuildIsIdle(fe, allowed, fs, ix, ix', p);
    }
  }

  /**
     A path on which the index disagrees with the new tree is one the builds admit, its file parses if it is there,
     and the poller has something to report about it exactly when its own walk goes there.
   */
  lemma DisagreementIsSeen(fe: Frontend, allowed: seq<string>, root: Path, fs: Files, fs': Files, ix: Index, p: string)
    requires BuiltFrom(fe, allowed, fs, ix) && Keeps(fe, allowed) && StatsTell(fs, fs')
    requires Disagrees(fe, allowed, fs', ix, p)
    ensures Admitted(fe, p) && (p in fs' ==> CanParse(fe, fs', p))
    ensures Difference(TakeSnapshot(root, fs), TakeSnapshot(root, fs'), p).Some? <==> Polled(root, p)
  {
    hide Fresh, Polled;
    assert At(ix, p) == AfterBuild(fe, allowed, fs, ix, p);
    if p in fs {
      FreshIsUpToDate(fe, p, fs[p].content);
    }
  }

  // ---- any split into batches, any mix of builds ----

  ghost function PathsOf(pass: Pass): set<string> {
    if pass.IncrementalBuild? then pass.paths else {}
  }

  /** Some incremental pass names the path. */
  ghost predicate Named(passes: seq<Pass>, p: string) {
    exists k :: 0 <= k < |passes| && p in PathsOf(passes[k])
  }

  ghost predicate HasFull(passes: seq<Pass>) {
    exists k :: 0 <= k < |passes| && passes[k].FullBuild?
  }

  /** Passes over one unchanging tree, from one index to the next. */
  ghost predicate Passes(fe: Frontend, allowed: seq<string>, fs: Files, passes: seq<Pass>, ixs: seq<Index>) {
    && |ixs| == |passes| + 1
    && (forall k :: 0 <= k < |passes| ==>
          passes[k].files == fs && StepTo(fe, allowed, passes[k], ixs[k], ixs[k + 1]))
    && (forall k, p :: 0 <= k < |passes| && p in PathsOf(passes[k]) ==> Admitted(fe, p))
  }

  /**
     What a path holds after some passes. Their order does not matter: a vanished file named by an incremental pass is
     gone, else one full build decides, else one incremental build of the path.
   */
  ghost function AfterAll(fe: Frontend, allowed: seq<string>, fs: Files, passes: seq<Pass>, ix: Index, p: string)
    : Option<Entry> {
    if p !in fs && Named(passes, p) then None
    else if HasFull(passes) then AfterBuild(fe, allowed, fs, ix, p)
    else if Named(passes, p) then AfterIncremental(fe, fs, ix, {p}, p)
    else At(ix, p)
  }

  lemma OnePass(fe: Frontend, allowed: seq<string>, fs: Files, passes: seq<Pass>, pass: Pass, ix0: Index, ix: Index,
                ix': Index, p: string)
    requires Lawful(fe) && Keeps(fe, allowed) && HashesSet(ix0)
    requires pass.files == fs && StepTo(fe, allowed, pass, ix, ix') && (p in PathsOf(pass) ==> Admitted(fe, p))
    requires Named(passes, p) ==> Admitted(fe, p)
    requires At(ix, p) == AfterAll(fe, allowed, fs, passes, ix0, p)
    ensures At(ix', p) == AfterAll(fe, allowed, fs, passes + [pass], ix0, p)
  {
    NamedMore(passes, pass, p);
    if p in fs {
      FreshIsUpToDate(fe, p, fs[p].content);
    }
    hide Fresh, Named, HasFull;
    assert At(ix', p)
           == if pass.FullBuild? then AfterBuild(fe, allowed, fs, ix, p)
              else AfterIncremental(fe, fs, ix, PathsOf(pass), p);
  }

  lemma NamedMore(passes: seq<Pass>, pass: Pass, p: string)
    ensures Named(passes + [pass], p) <==> Named(passes, p) || p in PathsOf(pass)
    ensures HasFull(passes + [pass]) <==> HasFull(passes) || pass.FullBuild?
  {
    var more := passes + [pass];
    if k :| 0 <= k < |passes| && p in PathsOf(passes[k]) {
      assert p in PathsOf(more[k]);
    }
    if k :| 0 <= k < |passes| && passes[k].FullBuild? {
      assert more[k].FullBuild?;
    }
    assert more[|passes|] == pass;
  }

  /** Whatever the passes and their order, every path holds what that says. */
  lemma {:induction false} AfterPasses(fe: Frontend, allowed: seq<string>, fs: Files, passes: seq<Pass>,
                                       ixs: seq<Index>, k: nat, p: string)
    requires Lawful(fe) && Keeps(fe, allowed) && Passes(fe, allowed, fs, passes, ixs) && HashesSet(ixs[0]) && k < |ixs|
    ensures At(ixs[k], p) == AfterAll(fe, allowed, fs, passes[..k], ixs[0], p)
  {
    hide AfterBuild, AfterIncremental, StepTo, Lawful, HashesSet, Keeps;
    if k > 0 {
      AfterPasses(fe, allowed, fs, passes, ixs, k - 1, p);
      assert passes[..k] == passes[..k - 1] + [passes[k - 1]];
      assert StepTo(fe, allowed, passes[k - 1], ixs[k - 1], ixs[k - 1 + 1]);
      OnePass(fe, allowed, fs, passes[..k - 1], passes[k - 1], ixs[0], ixs[k - 1], ixs[k], p);
    }
  }

  lemma PassesShape(fe: Frontend, allowed: seq<string>, fs: Files, passes: seq<Pass>, ixs: seq<Index>)
    requires Passes(fe, allowed, fs, passes, ixs)
    ensures |ixs| == |passes| + 1
    ensures forall p :: Named(passes, p) ==> Admitted(fe, p)
  {
  }

  /** An incremental pass took away the row of a vanished file that a full build keeps. */
  ghost predicate Lost(allowed: seq<string>, fs: Files, passes: seq<Pass>, ix: Index, p: string) {
    Named(passes, p) && p !in fs && Outlasts(allowed, ix, p)
  }

  /** The passes see to the path: one of them is full, or an incremental one names it and its file parses or is gone. */
  ghost predicate Served(fe: Frontend, fs: Files, passes: seq<Pass>, p: string) {
    HasFull(passes) || (Named(passes, p) && (p in fs ==> CanParse(fe, fs, p)))
  }

  /**
     The passes leave the index of one full build exactly when they take away no row it keeps,
     and serve every path on which rows and tree disagree.
   */
  lemma PassesReachBuild(fe: Frontend, allowed: seq<string>, fs: Files, passes: seq<Pass>, ixs: seq<Index>)
    requires Lawful(fe) && Keeps(fe, allowed) && Passes(fe, allowed, fs, passes, ixs) && HashesSet(ixs[0])
    ensures (forall p :: At(ixs[|passes|], p) == AfterBuild(fe, allowed, fs, ixs[0], p)) <==>
            && (forall p :: !Lost(allowed, fs, passes, ixs[0], p))
            && (forall p :: Disagrees(fe, allowed, fs, ixs[0], p) ==> Served(fe, fs, passes, p))
  {
    hide AfterBuild, StepTo, Lawful, HashesSet, Disagrees, Passes, Keeps, Lost, Served, AfterAll;
    PassesShape(fe, allowed, fs, passes, ixs);
    assert passes[..|passes|] == passes;
    forall p
      ensures At(ixs[|passes|], p) == AfterBuild(fe, allowed, fs, ixs[0], p) <==>
              !Lost(allowed, fs, passes, ixs[0], p)
              && (Disagrees(fe, allowed, fs, ixs[0], p) ==> Served(fe, fs, passes, p))
    {
      AfterPasses(fe, allowed, fs, passes, ixs, |passes|, p);
      ReachesIff(fe, allowed, fs, passes, ixs[0], p);
    }
  }

  lemma ReachesIff(fe: Frontend, allowed: seq<string>, fs: Files, passes: seq<Pass>, ix: Index, p: string)
    requires Keeps(fe, allowed) && HashesSet(ix) && (Named(passes, p) ==> Admitted(fe, p))
    ensures AfterAll(fe, allowed, fs, passes, ix, p) == AfterBuild(fe, allowed, fs, ix, p) <==>
            !Lost(allowed, fs, passes, ix, p)
            && (Disagrees(fe, allowed, fs, ix, p) ==> Served(fe, fs, passes, p))
  {
    hide AfterBuild, AfterIncremental, Named, HasFull, Disagrees, Outlasts, HashesSet, Keeps, CanParse;
    DisagreeIff(fe, allowed, fs, ix, p);
    if p !in fs {
      VanishedRows(fe, allowed, fs, ix, p);
    }
    if Named(passes, p) {
      SamePath(fe, allowed, fs, ix, {p}, p);
    }
  }

  // ---- one batch ----

  /** A structural path, or one no frontend knows, makes the batch a full build. */
  predicate NeedsFull(fe: Frontend, known: string -> bool, batch: seq<Event>) {
    exists e :: e in batch && (fe.structural(e.path) || !known(e.path))
  }

  function Names(batch: seq<Event>): (paths: seq<string>)
    ensures |paths| == |batch|
  {
    seq(|batch|, i requires 0 <= i < |batch| => batch[i].path)
  }

  /** The build a batch asks for. */
  ghost function PassOf(fe: Frontend, fs: Files, known: string -> bool, stamped: bool, batch: seq<Event>): Pass {
    if NeedsFull(fe, known, batch) || !stamped then FullBuild(fs) else IncrementalBuild(fs, Touched(fe, Names(batch)))
  }

  datatype Setup = Setup(fe: Frontend, known: string -> bool, allowed: seq<string>, jobs: int, cpus: nat)

  /**
   Classifies a batch and runs the build it asks for. An error keeps the tables exactly when it struck at or before
   the commit; it has one of three reasons: an interruption, a result that cannot be linked, or a path the
   incremental build rejects.
   */
  method HandleBatch(s: Store, setup: Setup, fs: Files, listing: seq<string>, batch: seq<Event>,
                     schedule: Pool.State<Outcome> -> Pool.Step, fails: Moment -> bool) returns (report: Report)
    requires Lawful(setup.fe) && Consistent(s.committed) && Listing(setup.fe, fs, listing)
    modifies s
    ensures Consistent(s.committed) && (old(s.stamped) ==> s.stamped)
    ensures batch == [] ==>
              && report == Built(Stats(0, 0, 0, 0, map[]))
              && s.committed == old(s.committed) && s.stamped == old(s.stamped)
    ensures !report.Built? ==> report.Stopped? || report.Refused? || report.Rejected?
    ensures report.Stopped? ==> Struck(schedule, fails, report.at)
    ensures report.Refused? ==> exists p :: Unlinkable(setup.fe, fs, IndexOf(old(s.committed)), p)
    ensures report.Rejected? ==>
              old(s.stamped) && !NeedsFull(setup.fe, setup.known, batch) && !AllFit(setup.fe, Names(batch))
    ensures !TookEffect(report) ==> s.committed == old(s.committed)
    ensures TookEffect(report) && batch != [] ==>
              && s.stamped
              && StepTo(setup.fe, setup.allowed, PassOf(setup.fe, fs, setup.known, old(s.stamped), batch),
                        IndexOf(old(s.committed)), IndexOf(s.committed))
              && (!NeedsFull(setup.fe, setup.known, batch) && old(s.stamped) ==> AllFit(setup.fe, Names(batch)))
  {
    hide IndexOf, Consistent, Listing, AfterBuild, AfterIncremental, Walked, Unlinkable, Settled, BuildStats, Struck,
         Lawful, Touched, AllFit, IncrementalStats, Distinct, AlreadyClean;
    if batch == [] {
      return Built(Stats(0, 0, 0, 0, map[]));
    }
    var paths, structural := [], false;
    for i := 0 to |batch|
      invariant structural <==> exists e :: e in batch[..i] && (setup.fe.structural(e.path) || !setup.known(e.path))
      invariant !structural ==> paths == Names(batch[..i])
    {
      assert batch[..i + 1] == batch[..i] + [batch[i]];
      if setup.fe.structural(batch[i].path) || !setup.known(batch[i].path) {
        structural := true;
      } else {
        paths := paths + [batch[i].path];
      }
    }
    assert batch[..|batch|] == batch;
    var opts := Options(false, setup.allowed, setup.jobs);
    if !structural {
      assert forall p :: p in paths ==> !setup.fe.structural(p) by { NotStructural(setup.fe, setup.known, batch); }
      report := BuildIncremental(s, setup.fe, fs, paths, opts, setup.cpus, schedule, fails);
      if !report.Structural? && !report.NeverBuilt? {
        return;
      }
    }
    report := Build.Build(s, setup.fe, fs, listing, opts, setup.cpus, schedule, fails);
  }

  lemma NotStructural(fe: Frontend, known: string -> bool, batch: seq<Event>)
    requires !NeedsFull(fe, known, batch)
    ensures forall p :: p in Names(batch) ==> !fe.structural(p)
  {
    forall p | p in Names(batch)
      ensures !fe.structural(p)
    {
      var i :| 0 <= i < |batch| && Names(batch)[i] == p;
      assert batch[i] in batch;
    }
  }

  // ---- from a tick of the poller to the batches ----

  /** Every path the poller has something to report about, and the builds may visit, is in some batch. */
  ghost predicate Delivered(fe: Frontend, root: Path, fs: Files, fs': Files, batches: seq<seq<Event>>) {
    forall p :: Admitted(fe, p) && Difference(TakeSnapshot(root, fs), TakeSnapshot(root, fs'), p).Some? ==>
      exists k :: 0 <= k < |batches| && Mentions(batches[k], p)
  }

  /** Paths that a build visits are already clean. */
  ghost predicate CleanNames(fe: Frontend) {
    forall p :: Admitted(fe, p) ==> fe.clean(p) == p
  }

  /** The batches hold what the loop was given, one event for each path of it. */
  ghost predicate BatchesOf(given: seq<Pending>, batches: seq<seq<Event>>) {
    && |batches| == |given|
    && forall k, p :: 0 <= k < |batches| && p in given[k] ==> Mentions(batches[k], p)
  }

  /** The coalescer delivers: if it took an event for every such path and lost none, its batches mention them all. */
  lemma CoalescerDelivers(fe: Frontend, root: Path, fs: Files, fs': Files, buffered: nat, st: Wakeup.State,
                          h: Wakeup.History, batches: seq<seq<Event>>)
    requires Wakeup.Inv(buffered, st, h) && Wakeup.AllHandled(st, h) && BatchesOf(Wakeup.Handled(st, h), batches)
    requires forall p :: Admitted(fe, p) && Difference(TakeSnapshot(root, fs), TakeSnapshot(root, fs'), p).Some? ==>
               Mentions(Wakeup.Accepted(h), p)
    ensures Delivered(fe, root, fs, fs', batches)
  {
    hide TakeSnapshot, Difference, Admitted;
    forall p | Admitted(fe, p) && Difference(TakeSnapshot(root, fs), TakeSnapshot(root, fs'), p).Some?
      ensures exists k :: 0 <= k < |batches| && Mentions(batches[k], p)
    {
      assert Mentions(Wakeup.Accepted(h), p);
      var e :| e in Wakeup.Accepted(h) && e.path == p;
      Wakeup.AcceptedIsHandled(buffered, st, h, e);
      var k :| 0 <= k < |Wakeup.Handled(st, h)| && p in Wakeup.Handled(st, h)[k];
      assert Mentions(batches[k], p);
    }
  }

  /**
     The chain from a tick: the poller dropped nothing, the filter passes every path the builds admit,
     the coalescer accepted every event that passed, in a run that left nothing unhandled. Then the batches deliver.
   */
  lemma {:induction false} TickDelivers(fe: Frontend, root: Path, fs: Files, fs': Files, out: seq<Event>,
                                        passes: string -> bool, buffered: nat, steps: seq<Wakeup.Step>,
                                        batches: seq<seq<Event>>)
    requires var prev, cur := TakeSnapshot(root, fs), TakeSnapshot(root, fs');
             Emitted(prev, cur, Differing(prev, cur), out, 0)
    requires forall p :: Admitted(fe, p) ==> passes(p)
    requires Wakeup.IsRun(buffered, Wakeup.START, steps)
    requires forall e :: e in out && passes(e.path) ==> e in Wakeup.AcceptedBy(steps)
    requires var st, h := Wakeup.After(buffered, Wakeup.START, steps),
                          Wakeup.HistoryOf(buffered, Wakeup.START, Wakeup.NOTHING, steps);
             Wakeup.AllHandled(st, h) && BatchesOf(Wakeup.Handled(st, h), batches)
    ensures Delivered(fe, root, fs, fs', batches)
  {
    var prev, cur := TakeSnapshot(root, fs), TakeSnapshot(root, fs');
    var st := Wakeup.After(buffered, Wakeup.START, steps);
    var h := Wakeup.HistoryOf(buffered, Wakeup.START, Wakeup.NOTHING, steps);
    Wakeup.StartInv(buffered);
    Wakeup.EveryRun(buffered, Wakeup.START, Wakeup.NOTHING, steps);
    assert Wakeup.Accepted(Wakeup.NOTHING) == [];
    hide TakeSnapshot, Difference, Admitted, BatchesOf;
    forall p | Admitted(fe, p) && Difference(prev, cur, p).Some?
      ensures Mentions(Wakeup.Accepted(h), p)
    {
      AnyDifferenceCounts(prev, cur, p);
      assert Mentions(out, p);
      var e :| e in out && e.path == p;
      assert e in Wakeup.AcceptedBy(steps);
    }
    CoalescerDelivers(fe, root, fs, fs', buffered, st, h, batches);
  }

  lemma AnyDifferenceCounts(prev: Snapshot, cur: Snapshot, p: string)
    requires Difference(prev, cur, p).Some?
    ensures p in Differing(prev, cur)
  {
  }

  // ---- all batches ----

  lemma TouchedIsAdmitted(fe: Frontend, batch: seq<Event>)
    requires Lawful(fe) && AllFit(fe, Names(batch))
    ensures forall p :: p in Touched(fe, Names(batch)) ==> Admitted(fe, p)
  {
  }

  /** The passes that batches ask for. An empty batch asks for none; the first pass over a new database is full. */
  ghost function PassesOf(fe: Frontend, fs: Files, known: string -> bool, stamped: bool, batches: seq<seq<Event>>)
    : seq<Pass> {
    if batches == [] then []
    else
      var front, batch := PassesOf(fe, fs, known, stamped, batches[..|batches| - 1]), batches[|batches| - 1];
      if batch == [] then front else front + [PassOf(fe, fs, known, stamped || front != [], batch)]
  }

  lemma {:induction false} BatchServes(fe: Frontend, fs: Files, known: string -> bool, stamped: bool,
                                       batches: seq<seq<Event>>, k: nat, p: string)
    requires CleanNames(fe) && Admitted(fe, p) && k < |batches| && Mentions(batches[k], p)
    ensures var passes := PassesOf(fe, fs, known, stamped, batches); HasFull(passes) || Named(passes, p)
  {
    hide PassOf, Named, HasFull, Mentions;
    var front, batch := PassesOf(fe, fs, known, stamped, batches[..|batches| - 1]), batches[|batches| - 1];
    NamedMore(front, PassOf(fe, fs, known, stamped || front != [], batch), p);
    if k < |batches| - 1 {
      BatchServes(fe, fs, known, stamped, batches[..|batches| - 1], k, p);
    } else {
      PassNames(fe, fs, known, stamped || front != [], batch, p);
    }
  }

  lemma PassNames(fe: Frontend, fs: Files, known: string -> bool, stamped: bool, batch: seq<Event>, p: string)
    requires CleanNames(fe) && Admitted(fe, p) && Mentions(batch, p)
    ensures batch != []
    ensures var pass := PassOf(fe, fs, known, stamped, batch); pass.FullBuild? || p in PathsOf(pass)
  {
    var e :| e in batch && e.path == p;
    var i :| 0 <= i < |batch| && batch[i] == e;
    assert Names(batch)[i] == p;
    assert fe.clean(p) == p;
  }

  type Schedule = Pool.State<Outcome> -> Pool.Step

  /** Nothing strikes a build of this batch before its commit. */
  ghost predicate Undisturbed(schedule: Schedule, fails: Moment -> bool) {
    forall at :: Struck(schedule, fails, at) ==> at == AtStats
  }

  /** Every file that parses names only earlier parents. */
  ghost predicate AllLinkable(fe: Frontend, fs: Files) {
    forall p :: p in fs && ResultOf(fe, p, fs[p]).Some? ==> ParentsBackward(ResultOf(fe, p, fs[p]).value.symbols)
  }

  /** An incremental batch holds only paths the incremental build takes. */
  ghost predicate Acceptable(fe: Frontend, known: string -> bool, batch: seq<Event>) {
    NeedsFull(fe, known, batch) || AllFit(fe, Names(batch))
  }

  /** What a run of the loop asks of its surroundings. */
  ghost predicate GoodConditions(fe: Frontend, fs: Files, known: string -> bool, batches: seq<seq<Event>>,
                                 schedules: nat -> Schedule, fails: nat -> (Moment -> bool)) {
    && AllLinkable(fe, fs)
    && forall k {:trigger batches[k]} :: 0 <= k < |batches| ==>
         Acceptable(fe, known, batches[k]) && Undisturbed(schedules(k), fails(k))
  }

  ghost predicate NoLateFailure(fails: nat -> (Moment -> bool), n: nat) {
    forall k: nat {:trigger fails(k)} :: k < n ==> !fails(k)(AtStats)
  }

  /** The index of a full build of one tree, the poller's view of what changed since, and its delivery in batches. */
  ghost predicate Announced(setup: Setup, root: Path, before: Files, fs: Files, ix: Index, batches: seq<seq<Event>>) {
    && CleanNames(setup.fe) && BuiltFrom(setup.fe, setup.allowed, before, ix)
    && StatsTell(before, fs) && Delivered(setup.fe, root, before, fs, batches)
    && (forall p :: Admitted(setup.fe, p) ==> Polled(root, p))
  }

  /** What the loop leaves: every path holds what the passes make of it. */
  ghost predicate EndsAs(setup: Setup, fs: Files, stamped: bool, batches: seq<seq<Event>>, ix0: Index, ix: Index) {
    var passes := PassesOf(setup.fe, fs, setup.known, stamped, batches);
    forall p :: At(ix, p) == AfterAll(setup.fe, setup.allowed, fs, passes, ix0, p)
  }

  /** The index of one full build. */
  ghost predicate EndsAsOneBuild(setup: Setup, fs: Files, ix0: Index, ix: Index) {
    forall p :: At(ix, p) == AfterBuild(setup.fe, setup.allowed, fs, ix0, p)
  }

  /** No incremental batch takes away a row that a full build keeps. */
  ghost predicate NoneLost(setup: Setup, fs: Files, stamped: bool, batches: seq<seq<Event>>, ix: Index) {
    forall p :: !Lost(setup.allowed, fs, PassesOf(setup.fe, fs, setup.known, stamped, batches), ix, p)
  }

  /**
   The loop over the batches, in whatever way the changed paths were split into them. If no error is counted, or if
   nothing strikes before a commit, every parsed file can be linked and no batch has a path the builds reject, every
   batch takes effect and every path is what the passes make of it. When the batches bring all that changed since a
   full build, that is the index of one full build of the new tree exactly when no row is lost; without a language
   list none ever is.
   Without a failure after a commit no error is counted either.
   */
  method HandleAll(s: Store, setup: Setup, fs: Files, listing: seq<string>, batches: seq<seq<Event>>,
                   schedules: nat -> Schedule, fails: nat -> (Moment -> bool)) returns (errors: nat)
    requires Lawful(setup.fe) && Consistent(s.committed) && Listing(setup.fe, fs, listing)
    modifies s
    ensures Consistent(s.committed) && (old(s.stamped) ==> s.stamped) && errors <= |batches|
    ensures Keeps(setup.fe, setup.allowed) && HashesSet(IndexOf(old(s.committed)))
            && (errors == 0 || GoodConditions(setup.fe, fs, setup.known, batches, schedules, fails)) ==>
              && EndsAs(setup, fs, old(s.stamped), batches, IndexOf(old(s.committed)), IndexOf(s.committed))
              && forall before, root :: Announced(setup, root, before, fs, IndexOf(old(s.committed)), batches) ==>
                   (EndsAsOneBuild(setup, fs, IndexOf(old(s.committed)), IndexOf(s.committed))
                    <==> NoneLost(setup, fs, old(s.stamped), batches, IndexOf(old(s.committed))))
    ensures GoodConditions(setup.fe, fs, setup.known, batches, schedules, fails) && NoLateFailure(fails, |batches|) ==>
              errors == 0
  {
    hide *;
    ghost var quiet := GoodConditions(setup.fe, fs, setup.known, batches, schedules, fails);
    ghost var ix0 := IndexOf(s.committed);
    ghost var told := Keeps(setup.fe, setup.allowed) && HashesSet(ix0);
    ghost var stamped, ixs := s.stamped, [ix0];
    NoPasses(setup, fs, stamped, batches, ix0);
    errors := 0;
    for k := 0 to |batches|
      invariant Consistent(s.committed) && (old(s.stamped) ==> s.stamped) && errors <= k
      invariant told && (errors == 0 || quiet) ==>
                  Gone(setup, fs, stamped, s.stamped, batches, k, ixs, ix0, IndexOf(s.committed))
      invariant quiet && NoLateFailure(fails, k) ==> errors == 0
    {
      ghost var ix, before := IndexOf(s.committed), s.stamped;
      var report := HandleBatch(s, setup, fs, listing, batches[k], schedules(k), fails(k));
      LateOrNot(fails, k);
      if !report.Built? {
        errors := errors + 1;
      }
      BatchSucceeds(setup.fe, fs, setup.known, batches, schedules, fails, k, ix, report);
      if told && (errors == 0 || quiet) {
        OneMore(setup, fs, stamped, before, batches, k, ixs, ix0, ix, IndexOf(s.committed));
        if batches[k] != [] {
          ixs := ixs + [IndexOf(s.committed)];
        }
      }
    }
    if told && (errors == 0 || quiet) {
      AllGone(setup, fs, stamped, s.stamped, batches, ixs, ix0, IndexOf(s.committed));
      forall before, root | Announced(setup, root, before, fs, ix0, batches)
        ensures EndsAsOneBuild(setup, fs, ix0, IndexOf(s.committed)) <==> NoneLost(setup, fs, stamped, batches, ix0)
      {
        OneBuildIff(setup, root, before, fs, stamped, batches, ix0, IndexOf(s.committed));
      }
    }
  }

  /** The indexes so far are those of the passes of the first k batches. */
  ghost predicate Gone(setup: Setup, fs: Files, stamped: bool, now: bool, batches: seq<seq<Event>>, k: nat,
                       ixs: seq<Index>, ix0: Index, ix: Index)
    requires k <= |batches|
  {
    var passes := PassesOf(setup.fe, fs, setup.known, stamped, batches[..k]);
    && Passes(setup.fe, setup.allowed, fs, passes, ixs)
    && (now <==> stamped || passes != [])
    && ixs[0] == ix0 && ixs[|ixs| - 1] == ix
  }

  lemma LateOrNot(fails: nat -> (Moment -> bool), k: nat)
    ensures NoLateFailure(fails, k + 1) ==> NoLateFailure(fails, k) && !fails(k)(AtStats)
  {
  }

  /** Under good conditions a batch takes effect, and is an error only through a failure after its commit. */
  lemma BatchSucceeds(fe: Frontend, fs: Files, known: string -> bool, batches: seq<seq<Event>>,
                      schedules: nat -> Schedule, fails: nat -> (Moment -> bool), k: nat, ix: Index, report: Report)
    requires k < |batches| && (!report.Built? ==> report.Stopped? || report.Refused? || report.Rejected?)
    requires report.Stopped? ==> Struck(schedules(k), fails(k), report.at)
    requires report.Refused? ==> exists p :: Unlinkable(fe, fs, ix, p)
    requires report.Rejected? ==> !NeedsFull(fe, known, batches[k]) && !AllFit(fe, Names(batches[k]))
    ensures GoodConditions(fe, fs, known, batches, schedules, fails) ==>
              TookEffect(report) && (!report.Built? ==> fails(k)(AtStats))
    ensures report.Built? ==> TookEffect(report)
  {
    hide NeedsFull, AllFit, ParentsBackward, ResultOf, UpToDate;
    if GoodConditions(fe, fs, known, batches, schedules, fails) {
      assert Acceptable(fe, known, batches[k]) && Undisturbed(schedules(k), fails(k));
      assert forall p :: !Unlinkable(fe, fs, ix, p);
    }
  }

  lemma NoPasses(setup: Setup, fs: Files, stamped: bool, batches: seq<seq<Event>>, ix: Index)
    ensures Gone(setup, fs, stamped, stamped, batches, 0, [ix], ix, ix)
  {
  }

  lemma OneMore(setup: Setup, fs: Files, stamped: bool, now: bool, batches: seq<seq<Event>>, k: nat, ixs: seq<Index>,
                ix0: Index, ix: Index, ix': Index)
    requires Lawful(setup.fe) && k < |batches| && Gone(setup, fs, stamped, now, batches, k, ixs, ix0, ix)
    requires batches[k] == [] ==> ix' == ix
    requires batches[k] != [] ==>
               StepTo(setup.fe, setup.allowed, PassOf(setup.fe, fs, setup.known, now, batches[k]), ix, ix')
    requires batches[k] != [] && !NeedsFull(setup.fe, setup.known, batches[k]) && now ==>
               AllFit(setup.fe, Names(batches[k]))
    ensures var ixs' := if batches[k] == [] then ixs else ixs + [ix'];
            Gone(setup, fs, stamped, now || batches[k] != [], batches, k + 1, ixs', ix0, ix')
  {
    var fe, batch := setup.fe, batches[k];
    var pass := PassOf(fe, fs, setup.known, now, batch);
    hide StepTo, Touched, AllFit, Lawful;
    assert batches[..k + 1][..k] == batches[..k];
    if batch != [] {
      if pass.IncrementalBuild? {
        TouchedIsAdmitted(fe, batch);
      }
      MorePasses(fe, setup.allowed, fs, PassesOf(fe, fs, setup.known, stamped, batches[..k]), ixs, pass, ix');
    }
  }

  lemma MorePasses(fe: Frontend, allowed: seq<string>, fs: Files, passes: seq<Pass>, ixs: seq<Index>, pass: Pass,
                   ix: Index)
    requires Passes(fe, allowed, fs, passes, ixs) && pass.files == fs && StepTo(fe, allowed, pass, ixs[|passes|], ix)
    requires forall p :: p in PathsOf(pass) ==> Admitted(fe, p)
    ensures Passes(fe, allowed, fs, passes + [pass], ixs + [ix])
  {
    hide StepTo, PathsOf;
    var passes', ixs' := passes + [pass], ixs + [ix];
    forall k | 0 <= k < |passes'|
      ensures passes'[k].files == fs && StepTo(fe, allowed, passes'[k], ixs'[k], ixs'[k + 1])
      ensures forall p :: p in PathsOf(passes'[k]) ==> Admitted(fe, p)
    {
      if k < |passes| {
        assert StepTo(fe, allowed, passes[k], ixs[k], ixs[k + 1]);
      }
    }
  }

  lemma {:induction false} AllGone(setup: Setup, fs: Files, stamped: bool, now: bool, batches: seq<seq<Event>>,
                                   ixs: seq<Index>, ix0: Index, ix: Index)
    requires Lawful(setup.fe) && Keeps(setup.fe, setup.allowed) && HashesSet(ix0)
    requires Gone(setup, fs, stamped, now, batches, |batches|, ixs, ix0, ix)
    ensures EndsAs(setup, fs, stamped, batches, ix0, ix)
    ensures forall p :: Named(PassesOf(setup.fe, fs, setup.known, stamped, batches), p) ==> Admitted(setup.fe, p)
  {
    hide StepTo, Lawful, HashesSet, Keeps, PassesOf, Passes, AfterAll, Named;
    assert batches[..|batches|] == batches;
    var passes := PassesOf(setup.fe, fs, setup.known, stamped, batches);
    PassesShape(setup.fe, setup.allowed, fs, passes, ixs);
    assert passes[..|passes|] == passes;
    forall p
      ensures At(ix, p) == AfterAll(setup.fe, setup.allowed, fs, passes, ix0, p)
    {
      AfterPasses(setup.fe, setup.allowed, fs, passes, ixs, |passes|, p);
    }
  }

  /** When every change is delivered, the loop ends as one full build would exactly when no row is lost. */
  lemma {:induction false} OneBuildIff(setup: Setup, root: Path, before: Files, fs: Files, stamped: bool,
                                       batches: seq<seq<Event>>, ix0: Index, ix: Index)
    requires Keeps(setup.fe, setup.allowed) && Announced(setup, root, before, fs, ix0, batches)
    requires EndsAs(setup, fs, stamped, batches, ix0, ix)
    requires forall p :: Named(PassesOf(setup.fe, fs, setup.known, stamped, batches), p) ==> Admitted(setup.fe, p)
    ensures EndsAsOneBuild(setup, fs, ix0, ix) <==> NoneLost(setup, fs, stamped, batches, ix0)
  {
    hide Keeps, PassesOf, AfterAll, AfterBuild, Named, Lost, Disagrees, Served, Polled, TakeSnapshot, Difference;
    var passes := PassesOf(setup.fe, fs, setup.known, stamped, batches);
    forall p
      ensures At(ix, p) == AfterBuild(setup.fe, setup.allowed, fs, ix0, p)
              <==> !Lost(setup.allowed, fs, passes, ix0, p)
    {
      assert At(ix, p) == AfterAll(setup.fe, setup.allowed, fs, passes, ix0, p);
      ReachesIff(setup.fe, setup.allowed, fs, passes, ix0, p);
      if Disagrees(setup.fe, setup.allowed, fs, ix0, p) {
        DisagreementIsServed(setup, root, before, fs, stamped, batches, ix0, p);
      }
    }
  }

  lemma {:induction false} DisagreementIsServed(setup: Setup, root: Path, before: Files, fs: Files, stamped: bool,
                                                batches: seq<seq<Event>>, ix0: Index, p: string)
    requires Keeps(setup.fe, setup.allowed) && Announced(setup, root, before, fs, ix0, batches)
    requires Disagrees(setup.fe, setup.allowed, fs, ix0, p)
    ensures Served(setup.fe, fs, PassesOf(setup.fe, fs, setup.known, stamped, batches), p)
  {
    hide PassesOf, Named, HasFull, Polled, TakeSnapshot, Difference, Mentions, Fresh;
    DisagreementIsSeen(setup.fe, setup.allowed, root, before, fs, ix0, p);
    var k :| 0 <= k < |batches| && Mentions(batches[k], p);
    BatchServes(setup.fe, fs, setup.known, stamped, batches, k, p);
  }

  // ---- two ways to split one change ----

  /** A structural path in the same batch saves the row of a vanished file; in a batch of its own it does not. */
  lemma SplitDecides(setup: Setup, fs: Files, gone: Event, other: Event, ix0: Index, apart: Index, together: Index)
    requires Admitted(setup.fe, gone.path) && setup.fe.clean(gone.path) == gone.path
    requires !setup.fe.structural(gone.path) && setup.known(gone.path) && setup.fe.structural(other.path)
    requires gone.path !in fs && Outlasts(setup.allowed, ix0, gone.path)
    requires EndsAs(setup, fs, true, [[gone], [other]], ix0, apart)
    requires EndsAs(setup, fs, true, [[gone, other]], ix0, together)
    ensures At(apart, gone.path).None? && At(together, gone.path) == At(ix0, gone.path)
  {
    var fe, known, p := setup.fe, setup.known, gone.path;
    var first, last := PassOf(fe, fs, known, true, [gone]), PassOf(fe, fs, known, true, [other]);
    var both := PassOf(fe, fs, known, true, [gone, other]);
    assert [gone, other][1] == other && [other][0] == other;
    assert Names([gone]) == [p];
    assert first.IncrementalBuild? && p in first.paths && last == both == FullBuild(fs);
    TwoBatches(fe, fs, known, [gone], [other]);
    OneBatch(fe, fs, known, [gone, other]);
    assert [first, last][0] == first && [both][0] == both;
    assert Named([first, last], p) && HasFull([both]) && !Named([both], p);
    hide PassOf, PassesOf, Named, HasFull;
    assert At(apart, p) == AfterAll(fe, setup.allowed, fs, [first, last], ix0, p);
    assert At(together, p) == AfterAll(fe, setup.allowed, fs, [both], ix0, p);
  }

  lemma {:induction false} OneBatch(fe: Frontend, fs: Files, known: string -> bool, batch: seq<Event>)
    requires batch != []
    ensures PassesOf(fe, fs, known, true, [batch]) == [PassOf(fe, fs, known, true, batch)]
  {
    hide PassOf;
    assert [batch][..0] == [];
  }

  lemma {:induction false} TwoBatches(fe: Frontend, fs: Files, known: string -> bool, one: seq<Event>, two: seq<Event>)
    requires one != [] && two != []
    ensures PassesOf(fe, fs, known, true, [one, two])
            == [PassOf(fe, fs, known, true, one), PassOf(fe, fs, known, true, two)]
  {
    hide PassOf;
    assert [one, two][..1] == [one];
    OneBatch(fe, fs, known, one);
  }
}
