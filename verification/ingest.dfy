/** What a full and an incremental build leave in the index, path by path, and how the two compare. */
module Ingest {
  import opened Prelude
  import opened Tables
  import opened Writer

  datatype FileData = FileData(content: string, mtime: int, size: int)

  /** What a frontend extracts from one file. */
  datatype Parse = Parse(symbols: seq<ParsedSymbol>, refs: seq<ParsedRef>)

  /**
   The given functions of a build: the content hash, the parser, and the path rules. A path may be structural (it
   changes how the whole tree is read), have a handled extension, lie in a directory the walk enters, pass the
   incremental build's check of the directories above it, and be taken by the language.
   */
  datatype Frontend = Frontend(name: string, hash: string -> string, parse: (string, string) -> Option<Parse>,
                               clean: string -> string, structural: string -> bool, handles: string -> bool,
                               reached: string -> bool, accepted: string -> bool, indexable: string -> bool)

  /**
   The hash tells contents apart and is never empty; the parser keeps parent positions in range;
   what the check up accepts the walk down enters.
   */
  ghost predicate Lawful(fe: Frontend) {
    && (forall a, b :: fe.hash(a) == fe.hash(b) ==> a == b)
    && (forall a :: fe.hash(a) != "")
    && (forall p :: fe.accepted(p) ==> fe.reached(p))
    && (forall rel, content :: fe.parse(rel, content).Some? ==>
          InRange(fe.parse(rel, content).value))
  }

  ghost predicate InRange(p: Parse) {
    forall i :: 0 <= i < |p.symbols| && p.symbols[i].parent.Some? ==> p.symbols[i].parent.value < |p.symbols|
  }

  /** The source tree during one build. */
  type Files = map<string, FileData>

  predicate Admitted(fe: Frontend, p: string) {
    fe.handles(p) && fe.reached(p) && fe.indexable(p)
  }

  predicate Walked(fe: Frontend, fs: Files, p: string) {
    p in fs && Admitted(fe, p)
  }

  function ResultOf(fe: Frontend, p: string, d: FileData): Option<ParseResult> {
    match fe.parse(p, d.content)
    case None => None
    case Some(x) => Some(ParseResult(p, fe.hash(d.content), d.mtime, d.size, fe.name, x.symbols, x.refs))
  }

  /** The entry of a content: the same whatever the file's times are. */
  ghost function Fresh(fe: Frontend, p: string, content: string): Option<Entry> {
    match ResultOf(fe, p, FileData(content, 0, 0)) case None => None case Some(r) => Some(EntryOf(r))
  }

  ghost function At(ix: Index, p: string): Option<Entry> {
    if p in ix then Some(ix[p]) else None
  }

  /** The entry is the parse of this content, and says so by its hash and language. */
  ghost predicate IsParseOf(fe: Frontend, p: string, content: string, e: Entry) {
    && fe.parse(p, content).Some? && Records(fe.parse(p, content).value.symbols, fe.parse(p, content).value.refs, e)
    && e.hash == fe.hash(content) && e.lang == fe.name
  }

  /** There is such an entry exactly when the content parses, and it is the only one. */
  lemma FreshIsParse(fe: Frontend, p: string, content: string)
    ensures Fresh(fe, p, content).Some? <==> fe.parse(p, content).Some?
    ensures forall e :: Fresh(fe, p, content) == Some(e) <==> IsParseOf(fe, p, content, e)
  {
    if fe.parse(p, content).Some? {
      var r := ResultOf(fe, p, FileData(content, 0, 0)).value;
      EntryRecords(r);
      forall e
        ensures EntryOf(r) == e <==> IsParseOf(fe, p, content, e)
      {
        if IsParseOf(fe, p, content, e) {
          RecordsOnce(r.symbols, r.refs, e, EntryOf(r));
        }
      }
    }
  }

  /** The stored hash and language match: the parse is skipped. */
  ghost predicate UpToDate(fe: Frontend, ix: Index, p: string, d: FileData) {
    p in ix && ix[p].hash == fe.hash(d.content) && ix[p].lang == fe.name
  }

  /** One file of the ingest: kept when it is up to date or cannot be parsed, else replaced. */
  ghost function Ingested(fe: Frontend, fs: Files, snapshot: Index, cur: Option<Entry>, p: string): Option<Entry>
    requires p in fs
  {
    if UpToDate(fe, snapshot, p, fs[p]) then cur
    else match Fresh(fe, p, fs[p].content) case None => cur case Some(e) => Some(e)
  }

  /** The rows that survive the cross-language cleanup; an empty list means no cleanup. */
  ghost function Pruned(allowed: seq<string>, ix: Index, p: string): Option<Entry> {
    if p in ix && (allowed == [] || ix[p].lang in allowed) then Some(ix[p]) else None
  }

  /** The index after a full build. The snapshot used for skipping is the index before the cleanup. */
  ghost function AfterBuild(fe: Frontend, allowed: seq<string>, fs: Files, ix: Index, p: string): Option<Entry> {
    if Walked(fe, fs, p) then Ingested(fe, fs, ix, Pruned(allowed, ix, p), p)
    else if allowed == [] then None
    else Pruned(allowed, ix, p)
  }

  /** The index after an incremental build of a set of paths. */
  ghost function AfterIncremental(fe: Frontend, fs: Files, ix: Index, paths: set<string>, p: string): Option<Entry> {
    if p !in paths then At(ix, p)
    else if p in fs then Ingested(fe, fs, ix, At(ix, p), p)
    else if p in ix && ix[p].hash == "" then At(ix, p)
    else None
  }

  /** One path of the index before and after a full build. */
  ghost predicate BuildStores(fe: Frontend, allowed: seq<string>, fs: Files, ix: Index, ix': Index, p: string) {
    var kept := p in ix && (allowed == [] || ix[p].lang in allowed);
    if p in fs && fe.handles(p) && fe.reached(p) && fe.indexable(p) then
      var content := fs[p].content;
      if (p in ix && ix[p].hash == fe.hash(content) && ix[p].lang == fe.name) || fe.parse(p, content).None? then
        (p in ix' <==> kept) && (p in ix' ==> ix'[p] == ix[p])
      else
        p in ix' && IsParseOf(fe, p, content, ix'[p])
    else
      (p in ix' <==> kept && allowed != []) && (p in ix' ==> ix'[p] == ix[p])
  }

  lemma AfterBuildStores(fe: Frontend, allowed: seq<string>, fs: Files, ix: Index, ix': Index, p: string)
    requires At(ix', p) == AfterBuild(fe, allowed, fs, ix, p)
    ensures BuildStores(fe, allowed, fs, ix, ix', p)
  {
    hide Fresh, IsParseOf;
    if p in fs {
      FreshIsParse(fe, p, fs[p].content);
    }
  }

  /** One path of the index before and after an incremental build of a set of paths. */
  ghost predicate IncrementalStores(fe: Frontend, fs: Files, ix: Index, paths: set<string>, ix': Index, p: string) {
    if p in paths && p in fs && !(p in ix && ix[p].hash == fe.hash(fs[p].content) && ix[p].lang == fe.name)
       && fe.parse(p, fs[p].content).Some? then
      p in ix' && IsParseOf(fe, p, fs[p].content, ix'[p])
    else
      (p in ix' <==> p in ix && (p !in paths || p in fs || ix[p].hash == "")) && (p in ix' ==> ix'[p] == ix[p])
  }

  lemma AfterIncrementalStores(fe: Frontend, fs: Files, ix: Index, paths: set<string>, ix': Index, p: string)
    requires At(ix', p) == AfterIncremental(fe, fs, ix, paths, p)
    ensures IncrementalStores(fe, fs, ix, paths, ix', p)
  {
    hide Fresh, IsParseOf;
    if p in fs {
      FreshIsParse(fe, p, fs[p].content);
    }
  }

  // ---- incremental against full ----

  /** The build's own language is not cleaned up. */
  predicate Keeps(fe: Frontend, allowed: seq<string>) {
    allowed == [] || fe.name in allowed
  }

  /**
   Row and tree disagree: a parsable file is missing or changed, or the row has to go, for want of a file to walk to
   or, with a list, for its language.
   */
  ghost predicate Disagrees(fe: Frontend, allowed: seq<string>, fs: Files, ix: Index, p: string) {
    || (Walked(fe, fs, p) && !UpToDate(fe, ix, p, fs[p]) && Fresh(fe, p, fs[p].content).Some?)
    || (p in ix && if allowed == [] then !Walked(fe, fs, p) else ix[p].lang !in allowed)
  }

  /** With a list a row of a listed language outlasts its file. */
  predicate Outlasts(allowed: seq<string>, ix: Index, p: string) {
    allowed != [] && p in ix && ix[p].lang in allowed
  }

  ghost predicate CanParse(fe: Frontend, fs: Files, p: string) {
    p in fs && Fresh(fe, p, fs[p].content).Some?
  }

  ghost predicate HashesSet(ix: Index) {
    forall p :: p in ix ==> ix[p].hash != ""
  }

  lemma FreshIsUpToDate(fe: Frontend, p: string, content: string)
    ensures Fresh(fe, p, content).Some? ==>
              var e := Fresh(fe, p, content).value; e.hash == fe.hash(content) && e.lang == fe.name
  {
  }

  /** Row and tree disagree exactly where a full build changes the row. */
  lemma DisagreeIff(fe: Frontend, allowed: seq<string>, fs: Files, ix: Index, p: string)
    ensures Disagrees(fe, allowed, fs, ix, p) <==> At(ix, p) != AfterBuild(fe, allowed, fs, ix, p)
  {
    if p in fs {
      FreshIsUpToDate(fe, p, fs[p].content);
    }
    hide Fresh;
  }

  /** The row of a vanished file goes in a full build exactly when it does not outlast it. */
  lemma VanishedRows(fe: Frontend, allowed: seq<string>, fs: Files, ix: Index, p: string)
    requires !Walked(fe, fs, p)
    ensures AfterBuild(fe, allowed, fs, ix, p).None? <==> !Outlasts(allowed, ix, p)
  {
  }

  /** One path: whether an incremental build does with it what a full one does. */
  lemma SamePath(fe: Frontend, allowed: seq<string>, fs: Files, ix: Index, paths: set<string>, p: string)
    requires HashesSet(ix) && Keeps(fe, allowed) && forall q :: q in paths ==> Admitted(fe, q)
    ensures AfterIncremental(fe, fs, ix, paths, p) == AfterBuild(fe, allowed, fs, ix, p) <==>
            if p !in paths then !Disagrees(fe, allowed, fs, ix, p)
            else if p in fs then !Disagrees(fe, allowed, fs, ix, p) || CanParse(fe, fs, p)
            else !Outlasts(allowed, ix, p)
  {
    if p in fs {
      FreshIsUpToDate(fe, p, fs[p].content);
    }
    hide Fresh;
  }

  /**
   An incremental build of a set of indexable paths leaves the same index as a full build exactly when the set names
   no vanished file whose row a full build keeps, and every path on which rows and tree disagree, with a file that
   parses if there is one.
   */
  lemma IncrementalAgreesWithFull(fe: Frontend, allowed: seq<string>, fs: Files, ix: Index, paths: set<string>)
    requires HashesSet(ix) && Keeps(fe, allowed) && forall q :: q in paths ==> Admitted(fe, q)
    ensures (forall p :: AfterIncremental(fe, fs, ix, paths, p) == AfterBuild(fe, allowed, fs, ix, p)) <==>
            && (forall p :: p in paths && p !in fs ==> !Outlasts(allowed, ix, p))
            && (forall p :: Disagrees(fe, allowed, fs, ix, p) ==> p in paths && (p in fs ==> CanParse(fe, fs, p)))
  {
    hide AfterIncremental, AfterBuild, Disagrees, CanParse, Outlasts;
    forall p
      ensures AfterIncremental(fe, fs, ix, paths, p) == AfterBuild(fe, allowed, fs, ix, p) <==>
              && (p in paths && p !in fs ==> !Outlasts(allowed, ix, p))
              && (Disagrees(fe, allowed, fs, ix, p) ==> p in paths && (p in fs ==> CanParse(fe, fs, p)))
    {
      SamePath(fe, allowed, fs, ix, paths, p);
    }
  }

  // ---- hash skipping ----

  /** Every row of this language is the parse of the content its hash stands for. */
  ghost predicate Faithful(fe: Frontend, ix: Index) {
    forall p :: p in ix && ix[p].lang == fe.name ==> FaithfulRow(fe, p, ix[p])
  }

  ghost predicate FaithfulRow(fe: Frontend, p: string, e: Entry) {
    exists content :: fe.hash(content) == e.hash && Fresh(fe, p, content) == Some(e)
  }

  /** A skipped file's row is what parsing it now would give. */
  lemma SkipIsFaithful(fe: Frontend, fs: Files, ix: Index, p: string)
    requires Lawful(fe) && Faithful(fe, ix) && p in fs && UpToDate(fe, ix, p, fs[p])
    ensures Fresh(fe, p, fs[p].content) == Some(ix[p])
  {
    assert FaithfulRow(fe, p, ix[p]);
    var content :| fe.hash(content) == ix[p].hash && Fresh(fe, p, content) == Some(ix[p]);
    assert content == fs[p].content;
  }

  /** A full build equals parsing every walked file from scratch; a file that cannot be parsed keeps its row. */
  lemma BuildEqualsFromScratch(fe: Frontend, fs: Files, ix: Index, p: string)
    requires Lawful(fe) && Faithful(fe, ix)
    ensures AfterBuild(fe, [], fs, ix, p) ==
            if !Walked(fe, fs, p) then None
            else if Fresh(fe, p, fs[p].content).Some? then Fresh(fe, p, fs[p].content)
            else At(ix, p)
  {
    if Walked(fe, fs, p) && UpToDate(fe, ix, p, fs[p]) {
      SkipIsFaithful(fe, fs, ix, p);
    }
  }

  /** A second build over the same tree finds nothing to do. */
  lemma SecondBuildIsIdle(fe: Frontend, allowed: seq<string>, fs: Files, ix: Index, ix': Index, p: string)
    requires Keeps(fe, allowed)
    requires forall q :: At(ix', q) == AfterBuild(fe, allowed, fs, ix, q)
    ensures AfterBuild(fe, allowed, fs, ix', p) == At(ix', p)
    ensures Walked(fe, fs, p) && Fresh(fe, p, fs[p].content).Some? ==> UpToDate(fe, ix', p, fs[p])
    ensures p in ix' ==> (allowed == [] && Walked(fe, fs, p)) || (allowed != [] && ix'[p].lang in allowed)
  {
    assert At(ix', p) == AfterBuild(fe, allowed, fs, ix, p);
    if p in fs {
      FreshIsUpToDate(fe, p, fs[p].content);
    }
  }

  lemma IngestKeepsFaithful(fe: Frontend, fs: Files, snapshot: Index, cur: Option<Entry>, p: string)
    requires p in fs
    requires cur.Some? && cur.value.lang == fe.name ==> FaithfulRow(fe, p, cur.value)
    ensures var e := Ingested(fe, fs, snapshot, cur, p);
            e.Some? && e.value.lang == fe.name ==> FaithfulRow(fe, p, e.value)
  {
    FreshIsUpToDate(fe, p, fs[p].content);
    var e := Fresh(fe, p, fs[p].content);
    if e.Some? {
      assert FaithfulRow(fe, p, e.value);
    }
  }

  // ---- whole runs ----

  /** One build over the index, over the tree as it then is. */
  datatype Pass = FullBuild(files: Files) | IncrementalBuild(files: Files, paths: set<string>)

  ghost predicate StepTo(fe: Frontend, allowed: seq<string>, ev: Pass, ix: Index, ix': Index) {
    match ev
    case FullBuild(fs) => forall p :: At(ix', p) == AfterBuild(fe, allowed, fs, ix, p)
    case IncrementalBuild(fs, paths) => forall p :: At(ix', p) == AfterIncremental(fe, fs, ix, paths, p)
  }

  ghost predicate IsHistory(fe: Frontend, allowed: seq<string>, evs: seq<Pass>, ixs: seq<Index>) {
    && |ixs| == |evs| + 1
    && ixs[0] == map[]
    && (forall k :: 0 <= k < |evs| ==> StepTo(fe, allowed, evs[k], ixs[k], ixs[k + 1]))
  }

  lemma StepKeepsFaithful(fe: Frontend, allowed: seq<string>, ev: Pass, ix: Index, ix': Index)
    requires Faithful(fe, ix) && StepTo(fe, allowed, ev, ix, ix')
    ensures Faithful(fe, ix')
  {
    hide FaithfulRow;
    forall p | p in ix' && ix'[p].lang == fe.name
      ensures FaithfulRow(fe, p, ix'[p])
    {
      assert At(ix', p) == Some(ix'[p]);
      if p in ev.files {
        IngestKeepsFaithful(fe, ev.files, ix, At(ix, p), p);
        IngestKeepsFaithful(fe, ev.files, ix, Pruned(allowed, ix, p), p);
      }
    }
  }

  /** Whatever builds have run over whatever trees, every row is the parse of the content its hash stands for. */
  lemma {:induction false} AlwaysFaithful(fe: Frontend, allowed: seq<string>, evs: seq<Pass>, ixs: seq<Index>, k: nat)
    requires IsHistory(fe, allowed, evs, ixs) && k < |ixs|
    ensures Faithful(fe, ixs[k])
  {
    if k > 0 {
      AlwaysFaithful(fe, allowed, evs, ixs, k - 1);
      StepKeepsFaithful(fe, allowed, evs[k - 1], ixs[k - 1], ixs[k]);
    }
  }

  /** A build never stores an empty hash, so the rows of any run all have one. */
  lemma StepKeepsHashes(fe: Frontend, allowed: seq<string>, ev: Pass, ix: Index, ix': Index)
    requires Lawful(fe) && HashesSet(ix) && StepTo(fe, allowed, ev, ix, ix')
    ensures HashesSet(ix')
  {
    forall p | p in ix'
      ensures ix'[p].hash != ""
    {
      assert At(ix', p) == Some(ix'[p]);
      if p in ev.files {
        FreshIsUpToDate(fe, p, ev.files[p].content);
      }
    }
  }

  lemma {:induction false} AlwaysHashed(fe: Frontend, allowed: seq<string>, evs: seq<Pass>, ixs: seq<Index>, k: nat)
    requires Lawful(fe) && IsHistory(fe, allowed, evs, ixs) && k < |ixs|
    ensures HashesSet(ixs[k])
  {
    if k > 0 {
      AlwaysHashed(fe, allowed, evs, ixs, k - 1);
      StepKeepsHashes(fe, allowed, evs[k - 1], ixs[k - 1], ixs[k]);
    }
  }

  // ---- the snapshot taken before the cleanup ----

  ghost predicate NoneDisallowed(allowed: seq<string>, ix: Index) {
    forall p :: p in ix ==> ix[p].lang in allowed
  }

  ghost predicate AllCurrent(fe: Frontend, fs: Files, ix: Index) {
    forall p :: Walked(fe, fs, p) && Fresh(fe, p, fs[p].content).Some? ==> UpToDate(fe, ix, p, fs[p])
  }

  /**
   With a cleanup, the build leaves no row of a disallowed language and a current row for every parsable file
   exactly when its own language is allowed, or there is no parsable file at all.
   */
  lemma StaleSnapshotIsHarmless(fe: Frontend, allowed: seq<string>, fs: Files, ix: Index, ix': Index)
    requires allowed != [] && StepTo(fe, allowed, FullBuild(fs), ix, ix')
    ensures NoneDisallowed(allowed, ix') && AllCurrent(fe, fs, ix') <==>
            (fe.name in allowed || forall p :: Walked(fe, fs, p) ==> Fresh(fe, p, fs[p].content).None?)
  {
    hide Fresh, AfterBuild;
    if fe.name in allowed || forall p :: Walked(fe, fs, p) ==> Fresh(fe, p, fs[p].content).None? {
      forall p
        ensures p in ix' ==> ix'[p].lang in allowed
        ensures Walked(fe, fs, p) && Fresh(fe, p, fs[p].content).Some? ==> UpToDate(fe, ix', p, fs[p])
      {
        assert At(ix', p) == AfterBuild(fe, allowed, fs, ix, p);
        CleanedPath(fe, allowed, fs, ix, ix', p);
      }
    } else {
      var p :| Walked(fe, fs, p) && Fresh(fe, p, fs[p].content).Some?;
      DisallowedPath(fe, allowed, fs, ix', p);
    }
  }

  lemma CleanedPath(fe: Frontend, allowed: seq<string>, fs: Files, ix: Index, ix': Index, p: string)
    requires allowed != [] && At(ix', p) == AfterBuild(fe, allowed, fs, ix, p)
    requires fe.name in allowed || (Walked(fe, fs, p) ==> Fresh(fe, p, fs[p].content).None?)
    ensures p in ix' ==> ix'[p].lang in allowed
    ensures Walked(fe, fs, p) && Fresh(fe, p, fs[p].content).Some? ==> UpToDate(fe, ix', p, fs[p])
  {
    if p in fs {
      FreshIsUpToDate(fe, p, fs[p].content);
    }
    hide Fresh;
  }

  lemma DisallowedPath(fe: Frontend, allowed: seq<string>, fs: Files, ix': Index, p: string)
    requires fe.name !in allowed && Walked(fe, fs, p) && Fresh(fe, p, fs[p].content).Some?
    ensures !(NoneDisallowed(allowed, ix') && AllCurrent(fe, fs, ix'))
  {
    if AllCurrent(fe, fs, ix') {
      assert UpToDate(fe, ix', p, fs[p]);
    }
  }

  ghost predicate NothingParses(fe: Frontend, fs: Files) {
    forall p :: Walked(fe, fs, p) ==> Fresh(fe, p, fs[p].content).None?
  }

  /** With its own language cleaned up a build takes away what it has just written, the next one brings it back. */
  lemma Flips(fe: Frontend, allowed: seq<string>, fs: Files, ix: Index, p: string)
    requires !Keeps(fe, allowed) && Walked(fe, fs, p) && Fresh(fe, p, fs[p].content).Some?
    ensures AfterBuild(fe, allowed, fs, ix, p)
            == if UpToDate(fe, ix, p, fs[p]) then None else Fresh(fe, p, fs[p].content)
  {
  }

  /** A full build always leaves a fixed point exactly when its own language is kept or no file parses. */
  lemma FixedPointIff(fe: Frontend, allowed: seq<string>, fs: Files)
    ensures (forall ix, ix' :: StepTo(fe, allowed, FullBuild(fs), ix, ix') ==>
                StepTo(fe, allowed, FullBuild(fs), ix', ix')) <==>
            Keeps(fe, allowed) || NothingParses(fe, fs)
  {
    hide Fresh, AfterBuild;
    if Keeps(fe, allowed) || NothingParses(fe, fs) {
      forall ix, ix' | StepTo(fe, allowed, FullBuild(fs), ix, ix')
        ensures StepTo(fe, allowed, FullBuild(fs), ix', ix')
      {
        forall p
          ensures At(ix', p) == AfterBuild(fe, allowed, fs, ix', p)
        {
          IdlePath(fe, allowed, fs, ix, ix', p);
        }
      }
    } else {
      var p :| Walked(fe, fs, p) && Fresh(fe, p, fs[p].content).Some?;
      var ix': Index := map q | q in fs && AfterBuild(fe, allowed, fs, map[], q).Some?
                         :: AfterBuild(fe, allowed, fs, map[], q).value;
      forall q
        ensures At(ix', q) == AfterBuild(fe, allowed, fs, map[], q)
      {
        NewPath(fe, allowed, fs, q);
      }
      assert StepTo(fe, allowed, FullBuild(fs), map[], ix');
      Flips(fe, allowed, fs, map[], p);
      FreshIsUpToDate(fe, p, fs[p].content);
      Flips(fe, allowed, fs, ix', p);
      assert At(ix', p) != AfterBuild(fe, allowed, fs, ix', p);
    }
  }

  lemma IdlePath(fe: Frontend, allowed: seq<string>, fs: Files, ix: Index, ix': Index, p: string)
    requires Keeps(fe, allowed) || NothingParses(fe, fs)
    requires StepTo(fe, allowed, FullBuild(fs), ix, ix')
    ensures AfterBuild(fe, allowed, fs, ix', p) == At(ix', p)
  {
    assert At(ix', p) == AfterBuild(fe, allowed, fs, ix, p);
    if p in fs {
      FreshIsUpToDate(fe, p, fs[p].content);
    }
    hide Fresh;
  }

  lemma NewPath(fe: Frontend, allowed: seq<string>, fs: Files, p: string)
    ensures p !in fs ==> AfterBuild(fe, allowed, fs, map[], p).None?
  {
  }

  /** Rows of other allowed languages that are not ingested again stay as they were, vanished or not. */
  lemma OtherLanguagesStay(fe: Frontend, allowed: seq<string>, fs: Files, ix: Index, p: string)
    requires allowed != [] && p in ix && ix[p].lang in allowed && ix[p].lang != fe.name
    ensures AfterBuild(fe, allowed, fs, ix, p) != Some(ix[p]) ==> Walked(fe, fs, p) && Fresh(fe, p, fs[p].content).Some?
    ensures !Walked(fe, fs, p) ==> AfterBuild(fe, allowed, fs, ix, p) == Some(ix[p])
  {
  }
}
