/** The polling source: snapshots of sizes and times, and the events between two of them. */
module Polling {
  import opened Prelude
  import opened Ingest
  import opened Coalescing
  import opened Walk
  import opened Filtering

  datatype FileStat = FileStat(size: int, mtime: int)

  function StatOf(d: FileData): FileStat {
    FileStat(d.size, d.mtime)
  }

  predicate NotSkipped(dir: Path) {
    dir == [] || dir[|dir| - 1] !in EXCLUDED
  }

  /** The polling walk enters no directory with an excluded name, and unlike the build's walk tests the root as well. */
  predicate Polled(root: Path, p: string) {
    NotSkipped(root) && var parts := Split(p); forall i :: 0 <= i < |parts| - 1 ==> parts[i] !in EXCLUDED
  }

  type Snapshot = map<string, FileStat>

  function TakeSnapshot(root: Path, fs: Files): Snapshot {
    map p | p in fs && Polled(root, p) :: StatOf(fs[p])
  }

  /** What one tick has to report about a path. */
  function Difference(prev: Snapshot, cur: Snapshot, p: string): Option<Kind> {
    if p in cur && p !in prev then Some(Create)
    else if p in cur && cur[p] != prev[p] then Some(Write)
    else if p !in cur && p in prev then Some(Remove)
    else None
  }

  /** In terms of the two trees: a polled file that is new, whose size or time changed, or that is gone. */
  lemma DifferenceIs(root: Path, fs: Files, fs': Files, p: string)
    ensures Difference(TakeSnapshot(root, fs), TakeSnapshot(root, fs'), p) ==
            if !Polled(root, p) || (p !in fs && p !in fs') then None
            else if p !in fs then Some(Create)
            else if p !in fs' then Some(Remove)
            else if fs[p].size != fs'[p].size || fs[p].mtime != fs'[p].mtime then Some(Write)
            else None
  {
    hide Polled;
  }

  ghost function Differing(prev: Snapshot, cur: Snapshot): set<string> {
    set p | p in prev.Keys + cur.Keys && Difference(prev, cur, p).Some?
  }

  ghost predicate Mentions(events: seq<Event>, p: string) {
    exists e :: e in events && e.path == p
  }

  /** The events so far: differences of the paths in done, each path at most once; without a drop, all of them. */
  ghost predicate Emitted(prev: Snapshot, cur: Snapshot, done: set<string>, out: seq<Event>, dropped: nat) {
    && (forall e :: e in out ==> e.path in done && Difference(prev, cur, e.path) == Some(e.kind))
    && (forall i, j :: 0 <= i < j < |out| ==> out[i].path != out[j].path)
    && |out| + dropped == |done|
    && (dropped == 0 ==> forall p :: p in done ==> Mentions(out, p))
  }

  class Poller {
    const root: Path
    var seen: Snapshot

    constructor (root: Path, fs: Files)
      ensures this.root == root && seen == TakeSnapshot(root, fs)
    {
      this.root := root;
      seen := TakeSnapshot(root, fs);
    }

    /**
       Compares the tree with the last snapshot and replaces the snapshot. The channel takes the k-th event when it has
       room just then; an event it does not take is dropped, and since the snapshot moves on it is not reported again.
     */
    method DiffAndEmit(fs: Files, takes: nat -> bool) returns (out: seq<Event>, dropped: nat)
      modifies this`seen
      ensures seen == TakeSnapshot(root, fs)
      ensures Emitted(old(seen), seen, Differing(old(seen), seen), out, dropped)
      ensures AllTaken(takes, |Differing(old(seen), seen)|) ==> dropped == 0
    {
      hide Emitted, TakeSnapshot, AllTaken;
      var cur := TakeSnapshot(root, fs);
      var prev := seen;
      seen := cur;
      var tried;
      out, dropped, tried := EmitChanged(prev, cur, takes);
      out, dropped := EmitRemoved(prev, cur, takes, out, dropped, tried);
    }
  }

  predicate AllTaken(takes: nat -> bool, n: nat) {
    forall k: nat :: k < n ==> takes(k)
  }

  ghost function Changed(prev: Snapshot, cur: Snapshot, looked: set<string>): set<string> {
    set p | p in looked && p in cur && Difference(prev, cur, p).Some?
  }

  method EmitChanged(prev: Snapshot, cur: Snapshot, takes: nat -> bool)
    returns (out: seq<Event>, dropped: nat, tried: nat)
    ensures Emitted(prev, cur, Changed(prev, cur, cur.Keys), out, dropped) && tried == |out| + dropped
    ensures AllTaken(takes, tried) ==> dropped == 0
  {
    hide *;
    out, dropped, tried := [], 0, 0;
    var todo := cur.Keys;
    ghost var looked: set<string> := {};
    ghost var done := Changed(prev, cur, looked);
    NothingEmitted(prev, cur);
    TakenUpTo(takes, 0);
    while todo != {}
      invariant todo <= cur.Keys && looked == cur.Keys - todo && tried == |out| + dropped
      invariant done == Changed(prev, cur, looked) && Emitted(prev, cur, done, out, dropped)
      invariant AllTaken(takes, tried) ==> dropped == 0
      decreases todo
    {
      var p :| p in todo;
      LookedAt(prev, cur, looked, p);
      ghost var before := looked;
      todo, looked := todo - {p}, looked + {p};
      assert looked == cur.Keys - todo;
      if p !in prev || cur[p] != prev[p] {
        var e := Event(p, if p !in prev then Create else Write);
        out, dropped, tried := Try(prev, cur, done, takes, out, dropped, tried, e);
        done := done + {p};
      }
    }
    assert looked == cur.Keys;
  }

  ghost function Gone(prev: Snapshot, cur: Snapshot, looked: set<string>): set<string> {
    set p | p in looked && p in prev && p !in cur
  }

  method EmitRemoved(prev: Snapshot, cur: Snapshot, takes: nat -> bool, out0: seq<Event>, dropped0: nat, tried0: nat)
    returns (out: seq<Event>, dropped: nat)
    requires Emitted(prev, cur, Changed(prev, cur, cur.Keys), out0, dropped0) && tried0 == |out0| + dropped0
    requires AllTaken(takes, tried0) ==> dropped0 == 0
    ensures Emitted(prev, cur, Differing(prev, cur), out, dropped)
    ensures AllTaken(takes, |Differing(prev, cur)|) ==> dropped == 0
  {
    hide *;
    out, dropped := out0, dropped0;
    var tried := tried0;
    var todo := prev.Keys;
    ghost var looked: set<string> := {};
    ghost var done := Changed(prev, cur, cur.Keys);
    NothingGone(prev, cur, done);
    while todo != {}
      invariant todo <= prev.Keys && looked == prev.Keys - todo && tried == |out| + dropped
      invariant done == Changed(prev, cur, cur.Keys) + Gone(prev, cur, looked) && Emitted(prev, cur, done, out, dropped)
      invariant AllTaken(takes, tried) ==> dropped == 0
      decreases todo
    {
      var p :| p in todo;
      todo := todo - {p};
      GoneAt(prev, cur, looked, p);
      if p !in cur {
        out, dropped, tried := Try(prev, cur, done, takes, out, dropped, tried, Event(p, Remove));
        done := done + {p};
      }
      looked := looked + {p};
      assert looked == prev.Keys - todo;
    }
    assert looked == prev.Keys;
    AllLookedAt(prev, cur);
    EmittedCount(prev, cur, Differing(prev, cur), out, dropped);
  }

  lemma NothingGone(prev: Snapshot, cur: Snapshot, changed: set<string>)
    ensures changed + Gone(prev, cur, {}) == changed
  {
  }

  lemma GoneAt(prev: Snapshot, cur: Snapshot, looked: set<string>, p: string)
    requires p in prev && p !in looked
    ensures var done := Changed(prev, cur, cur.Keys) + Gone(prev, cur, looked);
            var done' := Changed(prev, cur, cur.Keys) + Gone(prev, cur, looked + {p});
            if p !in cur then p !in done && done' == done + {p} && Difference(prev, cur, p) == Some(Remove)
            else done' == done
  {
    var more := if p !in cur then {p} else {};
    assert Gone(prev, cur, looked + {p}) == Gone(prev, cur, looked) + more;
  }

  lemma AllLookedAt(prev: Snapshot, cur: Snapshot)
    ensures Changed(prev, cur, cur.Keys) + Gone(prev, cur, prev.Keys) == Differing(prev, cur)
  {
  }

  lemma TakenUpTo(takes: nat -> bool, n: nat)
    ensures AllTaken(takes, n + 1) <==> AllTaken(takes, n) && takes(n)
  {
  }

  lemma EmittedCount(prev: Snapshot, cur: Snapshot, done: set<string>, out: seq<Event>, dropped: nat)
    requires Emitted(prev, cur, done, out, dropped)
    ensures |out| + dropped == |done|
  {
  }

  lemma LookedAt(prev: Snapshot, cur: Snapshot, looked: set<string>, p: string)
    requires p in cur && p !in looked
    ensures p !in Changed(prev, cur, looked)
    ensures p !in prev || cur[p] != prev[p] ==> Difference(prev, cur, p) == Some(if p !in prev then Create else Write)
    ensures Changed(prev, cur, looked + {p}) ==
            if p !in prev || cur[p] != prev[p] then Changed(prev, cur, looked) + {p} else Changed(prev, cur, looked)
  {
    var more := if p !in prev || cur[p] != prev[p] then {p} else {};
    assert Changed(prev, cur, looked + {p}) == Changed(prev, cur, looked) + more;
  }

  lemma NothingEmitted(prev: Snapshot, cur: Snapshot)
    ensures Emitted(prev, cur, Changed(prev, cur, {}), [], 0)
  {
    assert Changed(prev, cur, {}) == {};
  }

  method Try(ghost prev: Snapshot, ghost cur: Snapshot, ghost done: set<string>, takes: nat -> bool, out: seq<Event>,
             dropped: nat, tried: nat, e: Event) returns (out': seq<Event>, dropped': nat, tried': nat)
    requires Emitted(prev, cur, done, out, dropped) && Difference(prev, cur, e.path) == Some(e.kind) && e.path !in done
    requires tried == |out| + dropped && (AllTaken(takes, tried) ==> dropped == 0)
    ensures Emitted(prev, cur, done + {e.path}, out', dropped')
    ensures tried' == tried + 1 == |out'| + dropped' && (AllTaken(takes, tried') ==> dropped' == 0)
  {
    hide *;
    TakenUpTo(takes, tried);
    out', dropped' := TryEmit(prev, cur, done, out, dropped, e, takes(tried));
    tried' := tried + 1;
  }

  /** A channel without room drops the event. */
  method TryEmit(ghost prev: Snapshot, ghost cur: Snapshot, ghost done: set<string>, out: seq<Event>, dropped: nat,
                 e: Event, takes: bool) returns (out': seq<Event>, dropped': nat)
    requires Emitted(prev, cur, done, out, dropped) && Difference(prev, cur, e.path) == Some(e.kind) && e.path !in done
    ensures out' == if takes then out + [e] else out
    ensures dropped' == if takes then dropped else dropped + 1
    ensures Emitted(prev, cur, done + {e.path}, out', dropped')
  {
    if takes {
      out', dropped' := out + [e], dropped;
    } else {
      out', dropped' := out, dropped + 1;
    }
    if dropped' == 0 {
      forall p | p in done + {e.path}
        ensures Mentions(out', p)
      {
        if p != e.path {
          assert Mentions(out, p);
          var x :| x in out && x.path == p;
          assert x in out';
        } else {
          assert e in out';
        }
      }
    }
  }

  /** A root directory with an excluded name of its own is never reported about. */
  lemma ExcludedRootIsBlind(root: Path, fs: Files)
    requires root != [] && root[|root| - 1] in EXCLUDED
    ensures TakeSnapshot(root, fs) == map[]
  {
  }
}
