/** One change of a tree, split into batches in two ways, on one database. */
module WatcherExamples {
  import opened Prelude
  import opened Tables
  import opened Ingest
  import opened IngestFiles
  import opened Build
  import opened Incremental
  import opened Coalescing
  import opened Watcher
  import Pool

  /** A frontend that takes a.go, with go.mod as its structural file. */
  function SmallFrontend(): Frontend {
    PlainFrontend().(structural := p => p == "go.mod")
  }

  const BEFORE: Files := map["a.go" := FileData("", 0, 0)]

  function Known(): string -> bool {
    p => true
  }

  function NeverFails(): Moment -> bool {
    m => false
  }

  function NeverCancels(): Schedule {
    s => Pool.Finish
  }

  function Calm(): nat -> (Moment -> bool) {
    k => NeverFails()
  }

  function Schedules(): nat -> Schedule {
    k => NeverCancels()
  }

  lemma SmallIsLawful()
    ensures Lawful(SmallFrontend()) && Keeps(SmallFrontend(), ["go"])
  {
    PlainIsLawful();
    var fe, plain := SmallFrontend(), PlainFrontend();
    assert forall a :: fe.hash(a) == plain.hash(a);
    assert forall rel, content :: fe.parse(rel, content) == plain.parse(rel, content);
  }

  lemma NothingStrikes(at: Moment)
    ensures !Struck(NeverCancels(), NeverFails(), at)
  {
  }

  lemma EverythingLinks(fs: Files)
    ensures AllLinkable(SmallFrontend(), fs)
    ensures forall p, ix :: !Unlinkable(SmallFrontend(), fs, ix, p)
  {
  }

  /** The one file, built into an empty database. */
  method BuildOnce(s: Store)
    requires s.committed == EMPTY
    modifies s
    ensures Consistent(s.committed) && s.stamped
    ensures forall p :: At(IndexOf(s.committed), p) == AfterBuild(SmallFrontend(), ["go"], BEFORE, map[], p)
  {
    hide IndexOf, Consistent, AfterBuild, Struck, Unlinkable, AllLinkable, Lawful, BuildStats;
    EmptyIsConsistent();
    SmallIsLawful();
    EverythingLinks(BEFORE);
    NothingStored();
    forall at
      ensures !Struck(NeverCancels(), NeverFails(), at)
    {
      NothingStrikes(at);
    }
    var opts := Options(false, ["go"], 1);
    var report := Build.Build(s, SmallFrontend(), BEFORE, ["a.go"], opts, 1, NeverCancels(), NeverFails());
  }

  lemma OneRow(ix: Index)
    requires forall p :: At(ix, p) == AfterBuild(SmallFrontend(), ["go"], BEFORE, map[], p)
    ensures Outlasts(["go"], ix, "a.go") && HashesSet(ix)
  {
    var fe := SmallFrontend();
    SmallIsLawful();
    assert fe.parse("a.go", "") == Some(Parse([], []));
    assert Fresh(fe, "a.go", "").Some?;
    FreshIsUpToDate(fe, "a.go", "");
    assert At(ix, "a.go") == Fresh(fe, "a.go", "");
    StepKeepsHashes(fe, ["go"], FullBuild(BEFORE), map[], ix);
  }

  lemma SameIndex(a: Index, b: Index)
    requires forall p :: At(a, p) == At(b, p)
    ensures a == b
  {
    forall p
      ensures p in a <==> p in b
      ensures p in a ==> a[p] == b[p]
    {
      assert At(a, p) == At(b, p);
    }
  }

  lemma GoodSplit(batches: seq<seq<Event>>)
    requires forall k, e :: 0 <= k < |batches| && e in batches[k] ==> e.path == "a.go" || e.path == "go.mod"
    ensures GoodConditions(SmallFrontend(), map[], Known(), batches, Schedules(), Calm())
    ensures NoLateFailure(Calm(), |batches|)
  {
    EverythingLinks(map[]);
    forall k | 0 <= k < |batches|
      ensures Acceptable(SmallFrontend(), Known(), batches[k])
    {
      SmallBatch(batches[k]);
    }
    forall at
      ensures !Struck(NeverCancels(), NeverFails(), at)
    {
      NothingStrikes(at);
    }
    hide Acceptable, Struck, AllLinkable;
    assert forall k: nat :: Undisturbed(Schedules()(k), Calm()(k));
  }

  /** A batch over the two names is one full build, or an incremental one of the first. */
  lemma SmallBatch(batch: seq<Event>)
    requires forall e :: e in batch ==> e.path == "a.go" || e.path == "go.mod"
    ensures Acceptable(SmallFrontend(), Known(), batch)
  {
    var fe := SmallFrontend();
    assert !("../" <= "a.go") by { assert "../"[0] != "a.go"[0]; }
    assert !Unfit(fe, "a.go");
    if !NeedsFull(fe, Known(), batch) {
      forall p | p in Names(batch)
        ensures p == "a.go"
      {
        var i :| 0 <= i < |batch| && Names(batch)[i] == p;
        assert batch[i] in batch;
      }
    }
  }

  lemma EmptyTree()
    ensures Listing(SmallFrontend(), map[], [])
  {
  }

  lemma DifferentEnds(setup: Setup, gone: Event, other: Event, before: Index, apart: Index, together: Index)
    requires setup == Setup(SmallFrontend(), Known(), ["go"], 1, 1)
    requires gone == Event("a.go", Remove) && other == Event("go.mod", Write)
    requires Outlasts(["go"], before, "a.go")
    requires EndsAs(setup, map[], true, [[gone], [other]], before, apart)
    requires EndsAs(setup, map[], true, [[gone, other]], before, together)
    ensures "a.go" in before && "a.go" !in apart && "a.go" in together
  {
    hide EndsAs;
    SplitDecides(setup, map[], gone, other, before, apart, together);
  }

  /** a.go vanishes and go.mod changes: in two batches the row of a.go goes, in one it stays, and nothing fails. */
  method SplitsDiffer() returns (apart: Store, together: Store, errors: nat, ghost before: Index)
    ensures fresh(apart) && fresh(together) && errors == 0
    ensures "a.go" in before && "a.go" !in IndexOf(apart.committed) && "a.go" in IndexOf(together.committed)
  {
    hide *;
    var setup := Setup(SmallFrontend(), Known(), ["go"], 1, 1);
    var gone, other := Event("a.go", Remove), Event("go.mod", Write);
    SmallIsLawful();
    EmptyTree();
    apart := new Store();
    together := new Store();
    BuildOnce(apart);
    BuildOnce(together);
    before := IndexOf(apart.committed);
    SameIndex(before, IndexOf(together.committed));
    OneRow(before);
    GoodSplit([[gone], [other]]);
    GoodSplit([[gone, other]]);
    errors := HandleAll(apart, setup, map[], [], [[gone], [other]], Schedules(), Calm());
    var more := HandleAll(together, setup, map[], [], [[gone, other]], Schedules(), Calm());
    errors := errors + more;
    DifferentEnds(setup, gone, other, before, IndexOf(apart.committed), IndexOf(together.committed));
  }
}
