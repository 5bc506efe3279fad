/**
 The event buffer between the file system source and the build: events on one path collapse into the strongest,
 and a one-slot channel wakes the consumer. First the object, then its use by producers, timers and one consumer.
 */
module Coalescing {

  datatype Kind = Create | Write | Remove | Rename | Chmod

  datatype Event = Event(path: string, kind: Kind)

  function Rank(k: Kind): nat {
    match k
    case Remove => 5
    case Rename => 4
    case Create => 3
    case Write => 2
    case Chmod => 1
  }

  predicate Beats(a: Kind, b: Kind) {
    Rank(a) > Rank(b)
  }

  /** One event per path. */
  type Pending = map<string, Kind>

  function Merge(events: Pending, e: Event): Pending {
    if e.path !in events || Beats(e.kind, events[e.path]) then events[e.path := e.kind] else events
  }

  /** What is pending after a list of accepted events. */
  ghost function Merged(es: seq<Event>): Pending {
    if es == [] then map[] else Merge(Merged(es[..|es| - 1]), es[|es| - 1])
  }

  /** kind is the strongest kind of the events on that path. */
  ghost predicate Strongest(es: seq<Event>, path: string, kind: Kind) {
    Event(path, kind) in es && forall e :: e in es && e.path == path ==> Rank(e.kind) <= Rank(kind)
  }

  /** The merge holds every path once, with its strongest kind, and no other path. */
  lemma {:induction false} MergedIsStrongest(es: seq<Event>)
    ensures forall p :: p in Merged(es) <==> exists e :: e in es && e.path == p
    ensures forall p :: p in Merged(es) ==> Strongest(es, p, Merged(es)[p])
  {
    if es != [] {
      var front, last := es[..|es| - 1], es[|es| - 1];
      MergedIsStrongest(front);
      assert es == front + [last];
      forall p
        ensures p in Merged(es) <==> exists e :: e in es && e.path == p
        ensures p in Merged(es) ==> Strongest(es, p, Merged(es)[p])
      {
        StrongestNext(front, last, p);
      }
    }
  }

  lemma {:induction false} StrongestNext(front: seq<Event>, last: Event, p: string)
    requires p in Merged(front) <==> exists e :: e in front && e.path == p
    requires p in Merged(front) ==> Strongest(front, p, Merged(front)[p])
    ensures var m := Merge(Merged(front), last);
            && (p in m <==> exists e :: e in front + [last] && e.path == p)
            && (p in m ==> Strongest(front + [last], p, m[p]))
  {
    var m := Merge(Merged(front), last);
    hide Merged;
    assert last in front + [last];
    if p in Merged(front) {
      var e :| e in front && e.path == p;
      assert e in front + [last];
    }
  }

  /** A removal beats everything, then a renaming, a creation, a write; a mode change beats nothing. */
  lemma {:induction false} MergedKind(es: seq<Event>, p: string)
    requires p in Merged(es)
    ensures Merged(es)[p] ==
            if Event(p, Remove) in es then Remove
            else if Event(p, Rename) in es then Rename
            else if Event(p, Create) in es then Create
            else if Event(p, Write) in es then Write
            else Chmod
  {
    MergedIsStrongest(es);
    hide Merged;
    assert Strongest(es, p, Merged(es)[p]);
    forall k: Kind
      ensures Event(p, k) in es ==> Rank(k) <= Rank(Merged(es)[p])
    {
      assert Event(p, k).path == p;
    }
  }

  /** Two kinds of one rank are one kind, so the strongest is unique. */
  lemma RankInjective(a: Kind, b: Kind)
    requires Rank(a) == Rank(b)
    ensures a == b
  {
  }

  /** Only which events were accepted matters, not in what order or how often. */
  lemma {:induction false} MergedIgnoresOrder(es: seq<Event>, fs: seq<Event>)
    requires forall e :: e in es <==> e in fs
    ensures Merged(es) == Merged(fs)
  {
    hide Merged;
    MergedIsStrongest(es);
    MergedIsStrongest(fs);
    forall p
      ensures p in Merged(es) <==> p in Merged(fs)
      ensures p in Merged(es) ==> p in Merged(fs) && Merged(es)[p] == Merged(fs)[p]
    {
      if p in Merged(es) && p in Merged(fs) {
        assert Strongest(es, p, Merged(es)[p]) && Strongest(fs, p, Merged(fs)[p]);
        RankInjective(Merged(es)[p], Merged(fs)[p]);
      }
    }
  }

  class Coalescer {
    const buffered: nat
    var events: Pending
    var wakeup: bool

    ghost predicate Valid()
      reads this
    {
      0 < buffered && |events| <= buffered
    }

    constructor (wanted: int)
      ensures Valid() && events == map[] && !wakeup
      ensures buffered == if wanted <= 0 then 1024 else wanted
    {
      buffered := if wanted <= 0 then 1024 else wanted;
      events, wakeup := map[], false;
    }

    /** Posts to the one-slot channel; a second post is absorbed. */
    method Signal()
      modifies this`wakeup
      ensures wakeup
    {
      if !wakeup {
        wakeup := true;
      }
    }

    /** The locked part of Add. A full buffer refuses every event, also on a path it holds. */
    method Record(e: Event) returns (ok: bool)
      requires Valid() && e.path != ""
      modifies this`events
      ensures Valid()
      ensures ok <==> |old(events)| < buffered
      ensures events == if ok then Merge(old(events), e) else old(events)
    {
      if |events| >= buffered {
        return false;
      }
      if e.path !in events || Beats(e.kind, events[e.path]) {
        GrowsByOne(events, e.path, e.kind);
        events := events[e.path := e.kind];
      }
      ok := true;
    }

    method Add(e: Event) returns (ok: bool)
      requires Valid()
      modifies this
      ensures Valid()
      ensures e.path == "" ==> ok && events == old(events) && wakeup == old(wakeup)
      ensures e.path != "" ==> (ok <==> |old(events)| < buffered)
      ensures e.path != "" && ok ==> events == Merge(old(events), e) && wakeup
      ensures !ok ==> events == old(events) && wakeup == old(wakeup)
    {
      if e.path == "" {
        return true;
      }
      ok := Record(e);
      if ok {
        Signal();
      }
    }

    /** The timer callback. */
    method Flush()
      modifies this`wakeup
      ensures wakeup <==> old(wakeup) || events != map[]
    {
      var hasEvents := |events| > 0;
      if hasEvents {
        Signal();
      }
      assert events == map[] <==> events.Keys == {};
    }

    /** Empties the buffer into a list with one event per path. */
    method DrainLocked() returns (out: seq<Event>)
      requires Valid()
      modifies this`events
      ensures Valid() && events == map[]
      ensures |out| == |old(events)| <= buffered
      ensures forall i, j :: 0 <= i < j < |out| ==> out[i].path != out[j].path
      ensures forall e :: e in out <==> e.path in old(events) && old(events)[e.path] == e.kind
    {
      out := [];
      var todo := events.Keys;
      while todo != {}
        invariant todo <= events.Keys && |out| + |todo| == |events|
        invariant forall e :: e in out <==> e.path in events && e.path !in todo && events[e.path] == e.kind
        invariant forall i, j :: 0 <= i < j < |out| ==> out[i].path != out[j].path
        decreases todo
      {
        var p :| p in todo;
        assert forall e :: e in out ==> e.path != p;
        out := out + [Event(p, events[p])];
        todo := todo - {p};
      }
      events := map[];
    }
  }

  lemma GrowsByOne(events: Pending, p: string, k: Kind)
    ensures |events[p := k]| <= |events| + 1
  {
    assert events[p := k].Keys == events.Keys + {p};
  }
}
