/**
 The coalescer in use: any number of producers and timer callbacks, one consumer, and a stop signal.
 Each step is what one goroutine does between two points where another can run.
 */
module Wakeup {
  import opened Coalescing

  datatype Consumer =
    | Peeking                      // at the top of Drain, about to look at stop
    | Waiting                      // blocked on stop or a wakeup
    | Woken                        // took the wakeup, about to drain
    | Holding(batch: Pending)      // drained, about to look at stop again
    | Handling(batch: Pending)     // Drain returned this batch, the loop works on it
    | Leaving                      // saw stop, about to drain what is left
    | Gone(lost: Pending)          // Drain reported stop; the loop drops what it returned
    | Ended(lost: Pending, last: Pending)   // the loop flushed what came in since, and handles that

  /** signals, timers, callbacks: producers about to signal, timers not yet fired, callbacks about to signal. */
  datatype State = State(events: Pending, token: bool, signals: nat, timers: nat, callbacks: nat,
                         consumer: Consumer, stopped: bool)

  datatype Step =
    | Accept(e: Event, timerStopped: bool)   // the locked part of Add; the previous timer may be stopped in time
    | Refuse(e: Event)
    | Signal | Fire | CallbackSignal
    | Peek | Take | Drain | Recheck | Finish
    | Stop | SeeStop | Leave | Flush

  const START: State := State(map[], false, 0, 0, 0, Peeking, false)

  ghost predicate Enabled(buffered: nat, s: State, step: Step) {
    match step
    case Accept(e, timerStopped) => e.path != "" && |s.events| < buffered && (timerStopped ==> s.timers > 0)
    case Refuse(e) => e.path != "" && |s.events| >= buffered
    case Signal => s.signals > 0
    case Fire => s.timers > 0
    case CallbackSignal => s.callbacks > 0
    case Peek => s.consumer.Peeking?
    case Take => s.consumer.Waiting? && s.token
    case Drain => s.consumer.Woken?
    case Recheck => s.consumer.Holding?
    case Finish => s.consumer.Handling?
    case Stop => !s.stopped
    case SeeStop => s.consumer.Waiting? && s.stopped
    case Leave => s.consumer.Leaving?
    case Flush => s.consumer.Gone?
  }

  ghost function Apply(buffered: nat, s: State, step: Step): State
    requires Enabled(buffered, s, step)
  {
    match step
    case Accept(e, timerStopped) =>
      s.(events := Merge(s.events, e), signals := s.signals + 1,
         timers := if timerStopped then s.timers else s.timers + 1)
    case Refuse(_) => s
    case Signal => s.(signals := s.signals - 1, token := true)
    case Fire => s.(timers := s.timers - 1, callbacks := if s.events != map[] then s.callbacks + 1 else s.callbacks)
    case CallbackSignal => s.(callbacks := s.callbacks - 1, token := true)
    case Peek => s.(consumer := if s.stopped then Leaving else Waiting)
    case Take => s.(consumer := Woken, token := false)
    case Drain => s.(consumer := Holding(s.events), events := map[])
    case Recheck =>
      var batch := s.consumer.batch;
      s.(consumer := if s.stopped then Gone(batch) else if batch == map[] then Peeking else Handling(batch))
    case Finish => s.(consumer := Peeking)
    case Stop => s.(stopped := true)
    case SeeStop => s.(consumer := Leaving)
    case Leave => s.(consumer := Gone(s.events), events := map[])
    case Flush => s.(consumer := Ended(s.consumer.lost, s.events), events := map[])
  }

  /**
   What has happened so far: the accepted events since the last drain, those of every earlier drain that found some,
   the batches those drains made, the batches the loop is done with, and whether an event came after stop.
   */
  datatype History = History(open: seq<Event>, closed: seq<seq<Event>>, batches: seq<Pending>, given: seq<Pending>,
                             late: bool)

  const NOTHING: History := History([], [], [], [], false)

  ghost function Drained(h: History, events: Pending): History {
    if events == map[] then h else h.(open := [], closed := h.closed + [h.open], batches := h.batches + [events])
  }

  ghost function HistoryAfter(h: History, s: State, step: Step): History {
    match step
    case Accept(e, _) => h.(open := h.open + [e], late := h.late || s.stopped)
    case Drain => Drained(h, s.events)
    case Leave => Drained(h, s.events)
    case Flush => Drained(h, s.events)
    case Finish => if s.consumer.Handling? then h.(given := h.given + [s.consumer.batch]) else h
    case _ => h
  }

  ghost function One(batch: Pending): seq<Pending> {
    if batch == map[] then [] else [batch]
  }

  /** The batches made that the loop is not done with, oldest first. */
  ghost function InHand(c: Consumer): seq<Pending> {
    match c
    case Holding(b) => One(b)
    case Handling(b) => [b]
    case Gone(b) => One(b)
    case Ended(b, last) => One(b) + One(last)
    case _ => []
  }

  // ---- the invariant ----

  /** Pending events are never forgotten: somebody will wake the consumer, or it is about to drain. */
  ghost predicate WakeupComing(s: State) {
    s.token || s.signals > 0 || s.callbacks > 0 || s.consumer.Woken? || s.consumer.Leaving?
  }

  ghost predicate NoLostWakeup(s: State) {
    s.events != map[] ==> WakeupComing(s) || s.consumer.Gone? || s.consumer.Ended?
  }

  /** Every batch is the merge of the events accepted since the drain before it, and fits the buffer. */
  ghost predicate BatchOk(buffered: nat, h: History, k: nat)
    requires k < |h.closed| == |h.batches|
  {
    h.batches[k] == Merged(h.closed[k]) && h.batches[k] != map[] && |h.batches[k]| <= buffered
  }

  ghost predicate Inv(buffered: nat, s: State, h: History) {
    && |s.events| <= buffered
    && s.events == Merged(h.open) && (s.events == map[] ==> h.open == [])
    && NoLostWakeup(s)
    && |h.closed| == |h.batches|
    && (forall k {:trigger BatchOk(buffered, h, k)} :: 0 <= k < |h.batches| ==> BatchOk(buffered, h, k))
    && h.batches == h.given + InHand(s.consumer)
    && (s.consumer.Handling? ==> s.consumer.batch != map[])
    && (s.consumer.Leaving? || s.consumer.Gone? || s.consumer.Ended? ==> s.stopped)
    && (s.consumer.Ended? && !h.late ==> s.events == map[])
  }

  lemma StartInv(buffered: nat)
    ensures Inv(buffered, START, NOTHING)
  {
  }

  lemma AcceptKeepsInv(buffered: nat, s: State, h: History, step: Step)
    requires Inv(buffered, s, h) && Enabled(buffered, s, step) && step.Accept?
    ensures Inv(buffered, Apply(buffered, s, step), HistoryAfter(h, s, step))
  {
    var s', h' := Apply(buffered, s, step), HistoryAfter(h, s, step);
    GrowsByOne(s.events, step.e.path, step.e.kind);
    assert h'.open[..|h.open|] == h.open;
    assert step.e.path in s'.events;
    forall k | 0 <= k < |h'.batches|
      ensures BatchOk(buffered, h', k)
    {
      assert BatchOk(buffered, h, k);
    }
  }

  lemma DrainKeepsInv(buffered: nat, s: State, h: History, step: Step)
    requires Inv(buffered, s, h) && Enabled(buffered, s, step) && (step.Drain? || step.Leave? || step.Flush?)
    ensures Inv(buffered, Apply(buffered, s, step), HistoryAfter(h, s, step))
  {
    var s', h' := Apply(buffered, s, step), HistoryAfter(h, s, step);
    assert Merged([]) == map[];
    forall k | 0 <= k < |h'.batches|
      ensures BatchOk(buffered, h', k)
    {
      if k < |h.batches| {
        assert BatchOk(buffered, h, k);
      }
    }
  }

  lemma OtherKeepsInv(buffered: nat, s: State, h: History, step: Step)
    requires Inv(buffered, s, h) && Enabled(buffered, s, step) && !step.Accept? && !step.Drain? && !step.Leave?
             && !step.Flush?
    ensures Inv(buffered, Apply(buffered, s, step), HistoryAfter(h, s, step))
  {
    var h' := HistoryAfter(h, s, step);
    hide Merged;
    forall k | 0 <= k < |h'.batches|
      ensures BatchOk(buffered, h', k)
    {
      assert BatchOk(buffered, h, k);
    }
  }

  /** Every step of every goroutine keeps the invariant. */
  lemma StepKeepsInv(buffered: nat, s: State, h: History, step: Step)
    requires Inv(buffered, s, h) && Enabled(buffered, s, step)
    ensures Inv(buffered, Apply(buffered, s, step), HistoryAfter(h, s, step))
  {
    hide Inv, Apply, HistoryAfter;
    if step.Accept? {
      AcceptKeepsInv(buffered, s, h, step);
    } else if step.Drain? || step.Leave? || step.Flush? {
      DrainKeepsInv(buffered, s, h, step);
    } else {
      OtherKeepsInv(buffered, s, h, step);
    }
  }

  // ---- what the invariant says ----

  /** The accepted events, in order. */
  ghost function Accepted(h: History): seq<Event> {
    Flat(h.closed) + h.open
  }

  ghost function Flat(xs: seq<seq<Event>>): seq<Event> {
    if xs == [] then [] else Flat(xs[..|xs| - 1]) + xs[|xs| - 1]
  }

  /** A step adds at most its own event to the accepted ones; a drain moves them, and never drops or repeats one. */
  lemma AcceptedGrows(buffered: nat, s: State, h: History, step: Step)
    requires Inv(buffered, s, h) && Enabled(buffered, s, step)
    ensures Accepted(HistoryAfter(h, s, step)) == Accepted(h) + if step.Accept? then [step.e] else []
  {
    var h' := HistoryAfter(h, s, step);
    hide Merged;
    if h'.closed != h.closed {
      assert h'.closed[..|h'.closed| - 1] == h.closed;
    }
  }

  /** An event accepted before some drain is covered by that drain's batch: its path, at its strength or more. */
  lemma AcceptedIsCovered(buffered: nat, s: State, h: History, k: nat, e: Event)
    requires Inv(buffered, s, h) && k < |h.closed| && e in h.closed[k]
    ensures e.path in h.batches[k] && Rank(h.batches[k][e.path]) >= Rank(e.kind)
  {
    assert BatchOk(buffered, h, k);
    MergedIsStrongest(h.closed[k]);
    hide Merged;
    assert Strongest(h.closed[k], e.path, h.batches[k][e.path]);
  }

  /** A batch holds nothing that was not accepted for it. */
  lemma BatchIsAccepted(buffered: nat, s: State, h: History, k: nat, p: string)
    requires Inv(buffered, s, h) && k < |h.closed| && p in h.batches[k]
    ensures Event(p, h.batches[k][p]) in h.closed[k]
  {
    assert BatchOk(buffered, h, k);
    MergedIsStrongest(h.closed[k]);
    hide Merged;
    assert Strongest(h.closed[k], p, h.batches[k][p]);
  }

  /** The batches the loop gets to handle: those it is done with, the one at work, and the one it flushes at the end. */
  ghost function Handled(s: State, h: History): seq<Pending> {
    h.given + match s.consumer case Handling(batch) => [batch] case Ended(_, last) => One(last) case _ => []
  }

  ghost predicate AllHandled(s: State, h: History) {
    h.batches == Handled(s, h) && h.open == []
  }

  lemma {:induction false} InFlat(xs: seq<seq<Event>>, e: Event)
    ensures e in Flat(xs) <==> exists k :: 0 <= k < |xs| && e in xs[k]
  {
    if xs != [] {
      var front := xs[..|xs| - 1];
      InFlat(front, e);
      assert forall k :: 0 <= k < |front| ==> front[k] == xs[k];
    }
  }

  /** When everything was handled, every accepted event's path was in a batch that was handled. */
  lemma AcceptedIsHandled(buffered: nat, s: State, h: History, e: Event)
    requires Inv(buffered, s, h) && AllHandled(s, h) && e in Accepted(h)
    ensures exists k :: 0 <= k < |Handled(s, h)| && e.path in Handled(s, h)[k]
  {
    InFlat(h.closed, e);
    var k :| 0 <= k < |h.closed| && e in h.closed[k];
    AcceptedIsCovered(buffered, s, h, k, e);
    hide Merged, BatchOk;
    assert e.path in Handled(s, h)[k];
  }

  // ---- what stop costs ----

  /** What is pending, or drained but not yet looked at, in a state: the events a stop would cost. */
  ghost function AtStake(s: State): Pending {
    match s.consumer
    case Holding(batch) => batch
    case Gone(lost) => lost
    case Ended(lost, _) => lost
    case _ => s.events
  }

  predicate Silent(steps: seq<Step>) {
    forall k {:trigger steps[k]} :: 0 <= k < |steps| ==> !steps[k].Accept?
  }

  /** Once stop is closed and no event comes any more, nothing changes what is at stake. */
  lemma StakeStays(buffered: nat, s: State, step: Step)
    requires s.stopped && Enabled(buffered, s, step) && !step.Accept? && (s.consumer.Ended? ==> s.events == map[])
    ensures var s' := Apply(buffered, s, step);
            s'.stopped && AtStake(s') == AtStake(s) && (s'.consumer.Ended? ==> s'.events == map[])
  {
  }

  lemma {:induction false} LostIsAtStake(buffered: nat, s: State, steps: seq<Step>)
    requires s.stopped && IsRun(buffered, s, steps) && Silent(steps) && (s.consumer.Ended? ==> s.events == map[])
    ensures AtStake(After(buffered, s, steps)) == AtStake(s)
    decreases |steps|
  {
    if steps != [] {
      StakeStays(buffered, s, steps[0]);
      assert Silent(steps[1..]) by { assert forall k :: 0 <= k < |steps[1..]| ==> steps[1..][k] == steps[k + 1]; }
      hide Apply, Enabled, AtStake;
      LostIsAtStake(buffered, Apply(buffered, s, steps[0]), steps[1..]);
    }
  }

  lemma {:induction false} StaysPunctual(buffered: nat, s: State, h: History, steps: seq<Step>)
    requires IsRun(buffered, s, steps) && Silent(steps) && !h.late
    ensures !HistoryOf(buffered, s, h, steps).late
    decreases |steps|
  {
    if steps != [] {
      assert !steps[0].Accept? && !HistoryAfter(h, s, steps[0]).late;
      assert Silent(steps[1..]) by { assert forall k :: 0 <= k < |steps[1..]| ==> steps[1..][k] == steps[k + 1]; }
      hide Apply, Enabled, HistoryAfter;
      StaysPunctual(buffered, Apply(buffered, s, steps[0]), HistoryAfter(h, s, steps[0]), steps[1..]);
    }
  }

  /**
     A loop that ended with no event after stop handled everything
     exactly when the drain that saw stop found nothing.
  */
  lemma EndIsCompleteIff(buffered: nat, s: State, h: History)
    requires Inv(buffered, s, h) && s.consumer.Ended? && !h.late
    ensures AllHandled(s, h) <==> s.consumer.lost == map[]
  {
    hide Merged, BatchOk;
    if s.consumer.lost != map[] {
      assert |h.batches| == |Handled(s, h)| + 1;
    }
  }

  /**
     Whatever happens after stop is closed, as long as no event comes in, a loop that ends has handled
     every accepted event exactly when nothing was at stake in the state in which stop was closed.
   */
  lemma {:induction false} StopCostsNothingIff(buffered: nat, s: State, h: History, steps: seq<Step>)
    requires Inv(buffered, s, h) && !h.late && Enabled(buffered, s, Stop)
    requires IsRun(buffered, Apply(buffered, s, Stop), steps) && Silent(steps)
    requires After(buffered, Apply(buffered, s, Stop), steps).consumer.Ended?
    ensures var s1 := Apply(buffered, s, Stop);
            AllHandled(After(buffered, s1, steps), HistoryOf(buffered, s1, h, steps)) <==> AtStake(s) == map[]
  {
    var s1 := Apply(buffered, s, Stop);
    assert HistoryAfter(h, s, Stop) == h;
    StepKeepsInv(buffered, s, h, Stop);
    EveryRun(buffered, s1, h, steps);
    StoppedEarlier(buffered, s, h);
    LostIsAtStake(buffered, s1, steps);
    StaysPunctual(buffered, s1, h, steps);
    var s2, h2 := After(buffered, s1, steps), HistoryOf(buffered, s1, h, steps);
    EndIsCompleteIff(buffered, After(buffered, s1, steps), HistoryOf(buffered, s1, h, steps));
  }

  lemma StoppedEarlier(buffered: nat, s: State, h: History)
    requires Inv(buffered, s, h) && !s.stopped
    ensures !s.consumer.Gone? && !s.consumer.Ended? && !s.consumer.Leaving?
  {
  }

  // ---- progress ----

  ghost function Place(c: Consumer): nat {
    match c
    case Ended(_, _) => 0
    case Gone(_) => 1
    case Leaving => 2
    case Waiting => 3
    case Peeking => 4
    case Handling(_) => 5
    case Holding(_) => 6
    case Woken => 7
  }

  /** How many steps can follow at most before another event is added. */
  ghost function Measure(s: State): nat {
    10 * s.timers + 9 * s.callbacks + 9 * s.signals + (if s.token then 8 else 0) + Place(s.consumer)
      + (if s.stopped then 0 else 1)
  }

  predicate Adds(step: Step) {
    step.Accept? || step.Refuse?
  }

  lemma StepDecreases(buffered: nat, s: State, step: Step)
    requires Enabled(buffered, s, step) && !Adds(step)
    ensures Measure(Apply(buffered, s, step)) < Measure(s)
  {
  }

  /** While something is pending, a step other than a new event, a timer or stop can be taken: nobody sleeps on it. */
  ghost function NextStep(buffered: nat, s: State): (step: Step)
    requires NoLostWakeup(s) && s.events != map[] && !s.consumer.Ended?
    ensures Enabled(buffered, s, step) && !Adds(step) && !step.Stop? && !step.Fire?
  {
    match s.consumer
    case Peeking => Peek
    case Waiting => if s.token then Take else if s.signals > 0 then Signal else CallbackSignal
    case Woken => Drain
    case Holding(_) => Recheck
    case Handling(_) => Finish
    case Leaving => Leave
    case Gone(_) => Flush
  }

  // ---- whole runs ----

  ghost predicate IsRun(buffered: nat, s: State, steps: seq<Step>)
    decreases |steps|
  {
    steps == [] || (Enabled(buffered, s, steps[0]) && IsRun(buffered, Apply(buffered, s, steps[0]), steps[1..]))
  }

  ghost function After(buffered: nat, s: State, steps: seq<Step>): State
    requires IsRun(buffered, s, steps)
    decreases |steps|
  {
    if steps == [] then s else After(buffered, Apply(buffered, s, steps[0]), steps[1..])
  }

  ghost function HistoryOf(buffered: nat, s: State, h: History, steps: seq<Step>): History
    requires IsRun(buffered, s, steps)
    decreases |steps|
  {
    if steps == [] then h
    else HistoryOf(buffered, Apply(buffered, s, steps[0]), HistoryAfter(h, s, steps[0]), steps[1..])
  }

  /** The events a run accepts, in order. */
  ghost function AcceptedBy(steps: seq<Step>): seq<Event> {
    if steps == [] then [] else (if steps[0].Accept? then [steps[0].e] else []) + AcceptedBy(steps[1..])
  }

  /** Along every run the invariant holds, and the events accepted are those drained and those pending, each once. */
  lemma {:induction false} EveryRun(buffered: nat, s: State, h: History, steps: seq<Step>)
    requires Inv(buffered, s, h) && IsRun(buffered, s, steps)
    ensures Inv(buffered, After(buffered, s, steps), HistoryOf(buffered, s, h, steps))
    ensures Accepted(HistoryOf(buffered, s, h, steps)) == Accepted(h) + AcceptedBy(steps)
    decreases |steps|
  {
    hide Inv, Apply, Enabled, HistoryAfter, Accepted;
    if steps != [] {
      StepKeepsInv(buffered, s, h, steps[0]);
      AcceptedGrows(buffered, s, h, steps[0]);
      EveryRun(buffered, Apply(buffered, s, steps[0]), HistoryAfter(h, s, steps[0]), steps[1..]);
    }
  }

  /** Nothing is pending, nobody is about to signal, and the consumer waits. */
  ghost predicate Idle(s: State) {
    s.events == map[] && !s.token && s.signals == 0 && s.callbacks == 0 && s.consumer.Waiting? && !s.stopped
  }

  /** Timers left over from earlier events wake nobody: an idle consumer waits until an event or stop comes. */
  lemma {:induction false} IdleSleeps(buffered: nat, s: State, steps: seq<Step>)
    requires Idle(s) && IsRun(buffered, s, steps)
    requires Silent(steps) && forall k :: 0 <= k < |steps| ==> !steps[k].Stop?
    ensures Idle(After(buffered, s, steps))
    decreases |steps|
  {
    if steps != [] {
      assert !steps[0].Accept? && !steps[0].Stop?;
      assert Silent(steps[1..]) by { assert forall k :: 0 <= k < |steps[1..]| ==> steps[1..][k] == steps[k + 1]; }
      assert Idle(Apply(buffered, s, steps[0]));
      hide Apply, Enabled, Idle;
      IdleSleeps(buffered, Apply(buffered, s, steps[0]), steps[1..]);
    }
  }

  /** Once the source is quiet every run is short, and where it can go no further nothing is pending. */
  lemma {:induction false} QuietRunSettles(buffered: nat, s: State, h: History, steps: seq<Step>)
    requires Inv(buffered, s, h) && IsRun(buffered, s, steps) && forall k :: 0 <= k < |steps| ==> !Adds(steps[k])
    ensures |steps| <= Measure(s)
    ensures var s' := After(buffered, s, steps);
            s'.events == map[] || s'.consumer.Ended?
            || exists step :: Enabled(buffered, s', step) && !Adds(step) && !step.Stop? && !step.Fire?
    decreases |steps|
  {
    if steps == [] {
      if s.events != map[] && !s.consumer.Ended? {
        assert Enabled(buffered, s, NextStep(buffered, s));
      }
    } else {
      hide Inv, Apply, Enabled, Measure;
      StepKeepsInv(buffered, s, h, steps[0]);
      StepDecreases(buffered, s, steps[0]);
      QuietRunSettles(buffered, Apply(buffered, s, steps[0]), HistoryAfter(h, s, steps[0]), steps[1..]);
    }
  }

  /** The leftover of stop is dropped: an event accepted before stop, in a run that then ends, and nothing handled. */
  lemma StopLosesLeftover(e: Event) returns (steps: seq<Step>)
    requires e.path != ""
    ensures IsRun(1, START, steps) && AcceptedBy(steps) == [e]
    ensures var s, h := After(1, START, steps), HistoryOf(1, START, NOTHING, steps);
            s.consumer.Ended? && !h.late && Handled(s, h) == [] && h.batches == [map[e.path := e.kind]]
  {
    var s1, h1 := Apply(1, START, Accept(e, false)), HistoryAfter(NOTHING, START, Accept(e, false));
    assert s1 == State(map[e.path := e.kind], false, 1, 1, 0, Peeking, false);
    assert h1 == History([e], [], [], [], false);
    hide *;
    var tail := LeavesWith(e, s1, h1);
    FirstStep(1, START, NOTHING, Accept(e, false), tail);
    steps := [Accept(e, false)] + tail;
  }

  /** Stop is closed after the signal, and the consumer looks at it before the wakeup. */
  lemma LeavesWith(e: Event, s: State, h: History) returns (steps: seq<Step>)
    requires s == State(map[e.path := e.kind], false, 1, 1, 0, Peeking, false) && h == History([e], [], [], [], false)
    ensures IsRun(1, s, steps) && AcceptedBy(steps) == []
    ensures var s', h' := After(1, s, steps), HistoryOf(1, s, h, steps);
            s'.consumer.Ended? && !h'.late && Handled(s', h') == [] && h'.batches == [map[e.path := e.kind]]
  {
    var s2 := Apply(1, s, Signal);
    var s3 := Apply(1, s2, Stop);
    var s4 := State(s.events, true, 0, 1, 0, Leaving, true);
    assert s4 == Apply(1, s3, Peek) && e.path in s.events;
    var tail := LosesAll(e, s4, h);
    hide HistoryOf, After, IsRun, AcceptedBy, Handled;
    FirstStep(1, s3, h, Peek, tail);
    FirstStep(1, s2, h, Stop, [Peek] + tail);
    FirstStep(1, s, h, Signal, [Stop] + ([Peek] + tail));
    steps := [Signal] + ([Stop] + ([Peek] + tail));
  }

  lemma LosesAll(e: Event, s: State, h: History) returns (steps: seq<Step>)
    requires s == State(map[e.path := e.kind], true, 0, 1, 0, Leaving, true) && h == History([e], [], [], [], false)
    ensures IsRun(1, s, steps) && AcceptedBy(steps) == []
    ensures var s', h' := After(1, s, steps), HistoryOf(1, s, h, steps);
            s'.consumer.Ended? && !h'.late && Handled(s', h') == [] && h'.batches == [map[e.path := e.kind]]
  {
    assert e.path in s.events;
    var s5, h5 := Apply(1, s, Leave), HistoryAfter(h, s, Leave);
    assert h5 == History([], [[e]], [map[e.path := e.kind]], [], false);
    FirstStep(1, s5, h5, Flush, []);
    FirstStep(1, s, h, Leave, [Flush]);
    assert [Flush] + [] == [Flush];
    steps := [Leave] + [Flush];
  }

  lemma {:induction false} FirstStep(buffered: nat, s: State, h: History, step: Step, rest: seq<Step>)
    requires Enabled(buffered, s, step) && IsRun(buffered, Apply(buffered, s, step), rest)
    ensures var steps := [step] + rest; var s' := Apply(buffered, s, step);
            && IsRun(buffered, s, steps) && After(buffered, s, steps) == After(buffered, s', rest)
            && HistoryOf(buffered, s, h, steps) == HistoryOf(buffered, s', HistoryAfter(h, s, step), rest)
            && AcceptedBy(steps) == (if step.Accept? then [step.e] else []) + AcceptedBy(rest)
  {
    assert ([step] + rest)[1..] == rest;
  }

  /**
   A stronger event on a path the buffer holds is taken exactly while fewer than buffered paths are pending. When it is
   refused, the batch of the next drain carries the weaker kind.
   */
  lemma FullRefusesPromotion(buffered: nat, s: State, h: History, e: Event)
    requires Inv(buffered, s, h) && e.path != "" && e.path in s.events && Beats(e.kind, s.events[e.path])
    ensures |s.events| < buffered <==> Enabled(buffered, s, Accept(e, false))
    ensures |s.events| == buffered <==> Enabled(buffered, s, Refuse(e))
    ensures s.consumer.Woken? && |s.events| == buffered ==>
              var s1, h1 := Apply(buffered, s, Refuse(e)), HistoryAfter(h, s, Refuse(e));
              var h2 := HistoryAfter(h1, s1, Drain);
              |h2.batches| == |h.batches| + 1 && Rank(h2.batches[|h.batches|][e.path]) < Rank(e.kind)
    ensures s.consumer.Woken? && |s.events| < buffered ==>
              var s1, h1 := Apply(buffered, s, Accept(e, false)), HistoryAfter(h, s, Accept(e, false));
              var h2 := HistoryAfter(h1, s1, Drain);
              |h2.batches| == |h.batches| + 1 && h2.batches[|h.batches|][e.path] == e.kind
  {
    hide Merged, BatchOk, NoLostWakeup;
    assert e.path in Merge(s.events, e);
  }
}
