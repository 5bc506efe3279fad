/**
 The parse worker pool: a feeder, some workers, a closer and a collector joined by two bounded channels.
 One step of one goroutine is atomic; a schedule decides which goroutine moves next.
 */
module Pool {
  import opened Prelude

  datatype Job = Job(order: nat, rel: string)

  /** What a worker sends back; None is the cancellation error. */
  datatype Parsed<R> = Parsed(order: nat, result: Option<R>)

  datatype Worker<R> = Idle | Holding(job: Job) | Sending(parsed: Parsed<R>) | Exited

  datatype State<R> = State(fed: nat, jobs: seq<Job>, jobsClosed: bool, workers: seq<Worker<R>>,
                            results: seq<Parsed<R>>, resultsClosed: bool,
                            ordered: seq<Option<Parsed<R>>>, cancelled: bool, done: bool)

  datatype Step = Cancel | Feed | CloseJobs | Take(w: nat) | Work(w: nat) | Send(w: nat) | Exit(w: nat)
                | CloseResults | Collect | Finish

  /** The number of workers, which is also the capacity of both channels. */
  function WorkerCount(jobs: int, cpus: nat, files: nat): (r: nat)
    ensures r >= 1 && (files > 0 ==> r <= files)
    ensures jobs >= 1 ==> r <= jobs && (r == jobs || r == files || files == 0)
    ensures jobs <= 0 && cpus >= 1 ==> r <= cpus && (r == cpus || r == files || files == 0)
  {
    var wanted := if jobs <= 0 then cpus else jobs;
    var capped := if wanted > files then files else wanted;
    if capped < 1 then 1 else capped
  }

  function Start<R>(files: seq<string>, cap: nat): State<R> {
    State(0, [], false, seq(cap, i => Idle), [], false, seq(|files|, i => None), false, false)
  }

  predicate Enabled<R>(files: seq<string>, cap: nat, s: State<R>, step: Step) {
    match step
    case Cancel => !s.cancelled
    case Feed => s.fed < |files| && |s.jobs| < cap
    case CloseJobs => s.fed == |files| && !s.jobsClosed
    case Take(w) => w < |s.workers| && s.workers[w].Idle? && s.jobs != []
    case Work(w) => w < |s.workers| && s.workers[w].Holding?
    case Send(w) => w < |s.workers| && s.workers[w].Sending? && |s.results| < cap
    case Exit(w) => w < |s.workers| && s.workers[w].Idle? && s.jobs == [] && s.jobsClosed
    case CloseResults => !s.resultsClosed && AllExited(s.workers)
    case Collect => s.results != [] && s.results[0].order < |s.ordered|
    case Finish => s.results == [] && s.resultsClosed && !s.done
  }

  predicate AllExited<R>(workers: seq<Worker<R>>) {
    forall w :: 0 <= w < |workers| ==> workers[w].Exited?
  }

  function Apply<R>(files: seq<string>, cap: nat, work: string -> R, s: State<R>, step: Step): State<R>
    requires Enabled(files, cap, s, step)
  {
    match step
    case Cancel => s.(cancelled := true)
    case Feed => s.(fed := s.fed + 1, jobs := s.jobs + [Job(s.fed, files[s.fed])])
    case CloseJobs => s.(jobsClosed := true)
    case Take(w) => s.(jobs := s.jobs[1..], workers := s.workers[w := Holding(s.jobs[0])])
    case Work(w) =>
      var job := s.workers[w].job;
      var result := if s.cancelled then None else Some(work(job.rel));
      s.(workers := s.workers[w := Sending(Parsed(job.order, result))])
    case Send(w) => s.(results := s.results + [s.workers[w].parsed], workers := s.workers[w := Idle])
    case Exit(w) => s.(workers := s.workers[w := Exited])
    case CloseResults => s.(resultsClosed := true)
    case Collect =>
      s.(results := s.results[1..], ordered := s.ordered[s.results[0].order := Some(s.results[0])])
    case Finish => s.(done := true)
  }

  // ---- the invariant ----

  /** Where the file of an order slot is; a queued result is known by its number since the start. */
  datatype Place = Waiting | AtWorker(w: nat) | InResults(number: nat) | Collected

  /** Bookkeeping of the proof: every slot's place, and how many results were collected. */
  datatype Track = Track(places: seq<Place>, collected: nat)

  ghost function Moved(t: Track, o: nat, place: Place): Track {
    if o < |t.places| then t.(places := t.places[o := place]) else t
  }

  ghost function TrackAfter<R>(t: Track, s: State<R>, step: Step): Track {
    match step
    case Take(w) => if s.jobs != [] then Moved(t, s.jobs[0].order, AtWorker(w)) else t
    case Send(w) =>
      if w < |s.workers| && s.workers[w].Sending?
      then Moved(t, s.workers[w].parsed.order, InResults(t.collected + |s.results|)) else t
    case Collect =>
      if s.results != [] then Moved(t, s.results[0].order, Collected).(collected := t.collected + 1) else t
    case _ => t
  }

  /** A result is the file's own, unless the context was cancelled. */
  ghost predicate OwnResult<R>(files: seq<string>, work: string -> R, cancelled: bool, p: Parsed<R>) {
    && p.order < |files|
    && (p.result == Some(work(files[p.order])) || (p.result == None && cancelled))
  }

  /** Facts about one order slot, one worker, one queued job and one queued result. */
  ghost predicate SlotOk<R>(files: seq<string>, work: string -> R, s: State<R>, t: Track, o: nat)
    requires |t.places| == |s.ordered| == |files| && o < |files|
  {
    && (t.places[o].Waiting? <==> s.fed - |s.jobs| <= o)
    && (t.places[o].Collected? <==> s.ordered[o].Some?)
    && match t.places[o]
       case Waiting => true
       case AtWorker(w) => w < |s.workers| && BusyWith(s.workers[w]) == o
       case InResults(number) => 0 <= number - t.collected < |s.results| && s.results[number - t.collected].order == o
       case Collected => s.ordered[o].value.order == o && OwnResult(files, work, s.cancelled, s.ordered[o].value)
  }

  ghost predicate WorkerOk<R>(files: seq<string>, work: string -> R, s: State<R>, t: Track, w: nat)
    requires |t.places| == |files| && w < |s.workers|
  {
    match s.workers[w]
    case Idle => true
    case Holding(job) => job.order < |files| && job.rel == files[job.order] && t.places[job.order] == AtWorker(w)
    case Sending(p) => OwnResult(files, work, s.cancelled, p) && t.places[p.order] == AtWorker(w)
    case Exited => s.jobsClosed && s.jobs == []
  }

  /** The order a worker is busy with. */
  function BusyWith<R>(worker: Worker<R>): int {
    match worker
    case Holding(job) => job.order
    case Sending(p) => p.order
    case _ => -1
  }

  ghost predicate JobOk<R>(files: seq<string>, s: State<R>, k: nat)
    requires k < |s.jobs| <= s.fed <= |files|
  {
    s.jobs[k] == Job(s.fed - |s.jobs| + k, files[s.fed - |s.jobs| + k])
  }

  ghost predicate ResultOk<R>(files: seq<string>, work: string -> R, s: State<R>, t: Track, k: nat)
    requires |t.places| == |files| && k < |s.results|
  {
    OwnResult(files, work, s.cancelled, s.results[k]) && t.places[s.results[k].order] == InResults(t.collected + k)
  }

  ghost predicate Shape<R>(files: seq<string>, cap: nat, s: State<R>, t: Track) {
    && |t.places| == |s.ordered| == |files| && |s.workers| == cap && 0 < cap
    && |s.jobs| <= s.fed <= |files| && |s.jobs| <= cap && |s.results| <= cap
    && (s.jobsClosed ==> s.fed == |files|)
    && (s.resultsClosed ==> AllExited(s.workers))
    && (s.done ==> s.resultsClosed && s.results == [])
  }

  ghost predicate Inv<R>(files: seq<string>, cap: nat, work: string -> R, s: State<R>, t: Track) {
    && Shape(files, cap, s, t)
    && (forall k {:trigger JobOk(files, s, k)} :: 0 <= k < |s.jobs| ==> JobOk(files, s, k))
    && (forall o {:trigger SlotOk(files, work, s, t, o)} :: 0 <= o < |files| ==> SlotOk(files, work, s, t, o))
    && (forall w {:trigger WorkerOk(files, work, s, t, w)} :: 0 <= w < cap ==> WorkerOk(files, work, s, t, w))
    && (forall k {:trigger ResultOk(files, work, s, t, k)} :: 0 <= k < |s.results| ==> ResultOk(files, work, s, t, k))
  }

  lemma StartInv<R>(files: seq<string>, cap: nat, work: string -> R)
    requires 0 < cap
    ensures Inv(files, cap, work, Start(files, cap), Track(seq(|files|, i => Waiting), 0))
  {
  }

  predicate IsFlagStep(step: Step) {
    step.Cancel? || step.CloseJobs? || step.CloseResults? || step.Finish?
  }

  lemma FlagStepKeepsInv<R>(files: seq<string>, cap: nat, work: string -> R, s: State<R>, t: Track, step: Step)
    requires Inv(files, cap, work, s, t) && Enabled(files, cap, s, step) && IsFlagStep(step)
    ensures Inv(files, cap, work, Apply(files, cap, work, s, step), t)
  {
    var s' := Apply(files, cap, work, s, step);
    forall v | 0 <= v < cap
      ensures WorkerOk(files, work, s', t, v)
    {
      assert WorkerOk(files, work, s, t, v);
    }
    forall o | 0 <= o < |files|
      ensures SlotOk(files, work, s', t, o)
    {
      assert SlotOk(files, work, s, t, o);
    }
    forall k | 0 <= k < |s.jobs|
      ensures JobOk(files, s', k)
    {
      assert JobOk(files, s, k);
    }
    forall k | 0 <= k < |s.results|
      ensures ResultOk(files, work, s', t, k)
    {
      assert ResultOk(files, work, s, t, k);
    }
  }

  lemma ExitKeepsInv<R>(files: seq<string>, cap: nat, work: string -> R, s: State<R>, t: Track, w: nat)
    requires Inv(files, cap, work, s, t) && Enabled(files, cap, s, Exit(w))
    ensures Inv(files, cap, work, Apply(files, cap, work, s, Exit(w)), TrackAfter(t, s, Exit(w)))
  {
    var s', t' := Apply(files, cap, work, s, Exit(w)), TrackAfter(t, s, Exit(w));
    forall v | 0 <= v < cap
      ensures WorkerOk(files, work, s', t', v)
    {
      assert WorkerOk(files, work, s, t, v);
    }
    forall o | 0 <= o < |files|
      ensures SlotOk(files, work, s', t', o)
    {
      assert SlotOk(files, work, s, t, o);
    }
    forall k | 0 <= k < |s'.results|
      ensures ResultOk(files, work, s', t', k)
    {
      assert ResultOk(files, work, s, t, k);
    }
  }

  lemma FeedKeepsInv<R>(files: seq<string>, cap: nat, work: string -> R, s: State<R>, t: Track)
    requires Inv(files, cap, work, s, t) && Enabled(files, cap, s, Feed)
    ensures Inv(files, cap, work, Apply(files, cap, work, s, Feed), TrackAfter(t, s, Feed))
  {
    var s', t' := Apply(files, cap, work, s, Feed), TrackAfter(t, s, Feed);
    forall v | 0 <= v < cap
      ensures WorkerOk(files, work, s', t', v)
    {
      assert WorkerOk(files, work, s, t, v);
    }
    forall o | 0 <= o < |files|
      ensures SlotOk(files, work, s', t', o)
    {
      assert SlotOk(files, work, s, t, o);
    }
    forall k | 0 <= k < |s'.jobs|
      ensures JobOk(files, s', k)
    {
      if k < |s.jobs| {
        assert JobOk(files, s, k);
      }
    }
    forall k | 0 <= k < |s'.results|
      ensures ResultOk(files, work, s', t', k)
    {
      assert ResultOk(files, work, s, t, k);
    }
  }

  lemma TakeKeepsInv<R>(files: seq<string>, cap: nat, work: string -> R, s: State<R>, t: Track, w: nat)
    requires Inv(files, cap, work, s, t) && Enabled(files, cap, s, Take(w))
    ensures Inv(files, cap, work, Apply(files, cap, work, s, Take(w)), TrackAfter(t, s, Take(w)))
  {
    var s', t' := Apply(files, cap, work, s, Take(w)), TrackAfter(t, s, Take(w));
    assert JobOk(files, s, 0);
    assert SlotOk(files, work, s, t, s.jobs[0].order);
    forall v | 0 <= v < cap
      ensures WorkerOk(files, work, s', t', v)
    {
      assert WorkerOk(files, work, s, t, v);
    }
    forall o | 0 <= o < |files|
      ensures SlotOk(files, work, s', t', o)
    {
      assert SlotOk(files, work, s, t, o);
    }
    forall k | 0 <= k < |s'.jobs|
      ensures JobOk(files, s', k)
    {
      assert JobOk(files, s, k + 1);
    }
    forall k | 0 <= k < |s'.results|
      ensures ResultOk(files, work, s', t', k)
    {
      assert ResultOk(files, work, s, t, k);
    }
  }

  lemma WorkKeepsInv<R>(files: seq<string>, cap: nat, work: string -> R, s: State<R>, t: Track, w: nat)
    requires Inv(files, cap, work, s, t) && Enabled(files, cap, s, Work(w))
    ensures Inv(files, cap, work, Apply(files, cap, work, s, Work(w)), TrackAfter(t, s, Work(w)))
  {
    var s', t' := Apply(files, cap, work, s, Work(w)), TrackAfter(t, s, Work(w));
    assert WorkerOk(files, work, s, t, w);
    forall v | 0 <= v < cap
      ensures WorkerOk(files, work, s', t', v)
    {
      assert WorkerOk(files, work, s, t, v);
    }
    forall o | 0 <= o < |files|
      ensures SlotOk(files, work, s', t', o)
    {
      assert SlotOk(files, work, s, t, o);
    }
    forall k | 0 <= k < |s'.jobs|
      ensures JobOk(files, s', k)
    {
      assert JobOk(files, s, k);
    }
    forall k | 0 <= k < |s'.results|
      ensures ResultOk(files, work, s', t', k)
    {
      assert ResultOk(files, work, s, t, k);
    }
  }

  lemma SendKeepsInv<R>(files: seq<string>, cap: nat, work: string -> R, s: State<R>, t: Track, w: nat)
    requires Inv(files, cap, work, s, t) && Enabled(files, cap, s, Send(w))
    ensures Inv(files, cap, work, Apply(files, cap, work, s, Send(w)), TrackAfter(t, s, Send(w)))
  {
    var s', t' := Apply(files, cap, work, s, Send(w)), TrackAfter(t, s, Send(w));
    assert WorkerOk(files, work, s, t, w);
    assert SlotOk(files, work, s, t, s.workers[w].parsed.order);
    forall v | 0 <= v < cap
      ensures WorkerOk(files, work, s', t', v)
    {
      assert WorkerOk(files, work, s, t, v);
    }
    forall o | 0 <= o < |files|
      ensures SlotOk(files, work, s', t', o)
    {
      assert SlotOk(files, work, s, t, o);
    }
    forall k | 0 <= k < |s'.jobs|
      ensures JobOk(files, s', k)
    {
      assert JobOk(files, s, k);
    }
    forall k | 0 <= k < |s'.results|
      ensures ResultOk(files, work, s', t', k)
    {
      if k < |s.results| {
        assert ResultOk(files, work, s, t, k);
      }
    }
  }

  lemma CollectKeepsInv<R>(files: seq<string>, cap: nat, work: string -> R, s: State<R>, t: Track)
    requires Inv(files, cap, work, s, t) && Enabled(files, cap, s, Collect)
    ensures Inv(files, cap, work, Apply(files, cap, work, s, Collect), TrackAfter(t, s, Collect))
  {
    var s', t' := Apply(files, cap, work, s, Collect), TrackAfter(t, s, Collect);
    assert ResultOk(files, work, s, t, 0);
    assert SlotOk(files, work, s, t, s.results[0].order);
    forall v | 0 <= v < cap
      ensures WorkerOk(files, work, s', t', v)
    {
      assert WorkerOk(files, work, s, t, v);
    }
    forall o | 0 <= o < |files|
      ensures SlotOk(files, work, s', t', o)
    {
      assert SlotOk(files, work, s, t, o);
    }
    forall k | 0 <= k < |s'.jobs|
      ensures JobOk(files, s', k)
    {
      assert JobOk(files, s, k);
    }
    forall k | 0 <= k < |s'.results|
      ensures ResultOk(files, work, s', t', k)
    {
      assert ResultOk(files, work, s, t, k + 1);
    }
  }

  /** Every step of every goroutine keeps the invariant. */
  lemma StepKeepsInv<R>(files: seq<string>, cap: nat, work: string -> R, s: State<R>, t: Track, step: Step)
    requires Inv(files, cap, work, s, t) && Enabled(files, cap, s, step)
    ensures Inv(files, cap, work, Apply(files, cap, work, s, step), TrackAfter(t, s, step))
  {
    hide Inv, Enabled, Apply;
    match step
    case Feed => FeedKeepsInv(files, cap, work, s, t);
    case Take(w) => TakeKeepsInv(files, cap, work, s, t, w);
    case Work(w) => WorkKeepsInv(files, cap, work, s, t, w);
    case Send(w) => SendKeepsInv(files, cap, work, s, t, w);
    case Exit(w) => ExitKeepsInv(files, cap, work, s, t, w);
    case Collect => CollectKeepsInv(files, cap, work, s, t);
    case _ => FlagStepKeepsInv(files, cap, work, s, t, step);
  }

  /** A received result always has its slot, and the slot is still empty. */
  lemma CollectFillsOnce<R>(files: seq<string>, cap: nat, work: string -> R, s: State<R>, t: Track)
    requires Inv(files, cap, work, s, t) && s.results != []
    ensures s.results[0].order < |s.ordered| && s.ordered[s.results[0].order].None?
  {
    assert ResultOk(files, work, s, t, 0);
    assert SlotOk(files, work, s, t, s.results[0].order);
  }

  // ---- progress ----

  function Weight<R>(worker: Worker<R>): nat {
    match worker
    case Idle => 1
    case Holding(_) => 4
    case Sending(_) => 3
    case Exited => 0
  }

  function Weights<R>(workers: seq<Worker<R>>): nat {
    if workers == [] then 0 else Weights(workers[..|workers| - 1]) + Weight(workers[|workers| - 1])
  }

  lemma {:induction false} WeightsUpdate<R>(workers: seq<Worker<R>>, w: nat, worker: Worker<R>)
    requires w < |workers|
    ensures Weights(workers[w := worker]) == Weights(workers) - Weight(workers[w]) + Weight(worker)
  {
    var last := |workers| - 1;
    if w < last {
      WeightsUpdate(workers[..last], w, worker);
      assert workers[w := worker][..last] == workers[..last][w := worker];
    } else {
      assert workers[w := worker][..last] == workers[..last];
    }
  }

  function Flag(b: bool): nat {
    if b then 0 else 1
  }

  /** How many steps are left at most. */
  function Measure<R>(files: seq<string>, s: State<R>): nat
    requires s.fed <= |files|
  {
    5 * (|files| - s.fed) + 4 * |s.jobs| + Weights(s.workers) + |s.results|
    + Flag(s.cancelled) + Flag(s.jobsClosed) + Flag(s.resultsClosed) + Flag(s.done)
  }

  lemma StepDecreases<R>(files: seq<string>, cap: nat, work: string -> R, s: State<R>, step: Step)
    requires s.fed <= |files| && Enabled(files, cap, s, step)
    ensures var s' := Apply(files, cap, work, s, step);
            s'.fed <= |files| && Measure(files, s') == Measure(files, s) - 1
  {
    hide Weights;
    match step
    case Take(w) => WeightsUpdate(s.workers, w, Holding(s.jobs[0]));
    case Work(w) => WeightsUpdate(s.workers, w, Apply(files, cap, work, s, step).workers[w]);
    case Send(w) => WeightsUpdate(s.workers, w, Idle);
    case Exit(w) => WeightsUpdate(s.workers, w, Exited);
    case _ =>
  }

  /** The first worker that has not exited. */
  function FirstBusy<R>(workers: seq<Worker<R>>): (w: nat)
    requires !AllExited(workers)
    ensures w < |workers| && !workers[w].Exited?
  {
    if !workers[0].Exited? then 0
    else
      assert workers == [workers[0]] + workers[1..];
      FirstBusy(workers[1..]) + 1
  }

  /** A step that can be taken as long as the collector is not through: no reachable state is stuck. */
  function SomeStep<R>(files: seq<string>, cap: nat, s: State<R>): (step: Step)
    requires Runnable(files, cap, s) && !s.done
    ensures Enabled(files, cap, s, step) && !step.Cancel?
  {
    if s.results != [] then Collect
    else if s.resultsClosed then Finish
    else if AllExited(s.workers) then CloseResults
    else
      var w := FirstBusy(s.workers);
      match s.workers[w]
      case Holding(_) => Work(w)
      case Sending(_) => Send(w)
      case _ =>
        if s.jobs != [] then Take(w)
        else if s.jobsClosed then Exit(w)
        else if s.fed < |files| then Feed else CloseJobs
  }

  /** What a step needs to find the next one. */
  predicate Runnable<R>(files: seq<string>, cap: nat, s: State<R>) {
    && 0 < cap && s.fed <= |files|
    && (s.results != [] ==> s.results[0].order < |s.ordered|)
  }

  // ---- whole runs ----

  /** At the end every slot holds its own file's result. */
  lemma DoneIsComplete<R>(files: seq<string>, cap: nat, work: string -> R, s: State<R>, t: Track)
    requires Inv(files, cap, work, s, t) && s.done
    ensures forall o :: 0 <= o < |files| ==> s.ordered[o].Some? && s.ordered[o].value.order == o
    ensures forall o :: 0 <= o < |files| ==> OwnResult(files, work, s.cancelled, s.ordered[o].value)
  {
    assert s.workers[0].Exited? && WorkerOk(files, work, s, t, 0);
    forall o | 0 <= o < |files|
      ensures s.ordered[o].Some? && s.ordered[o].value.order == o
      ensures OwnResult(files, work, s.cancelled, s.ordered[o].value)
    {
      assert SlotOk(files, work, s, t, o);
    }
  }

  /**
   Runs the pool under any schedule. A schedule names the next step from the current state;
   a step that cannot be taken is replaced by one that can.
   */
  method IngestInParallel<R>(files: seq<string>, jobs: int, cpus: nat, work: string -> R, schedule: State<R> -> Step)
    returns (ordered: seq<Option<R>>, cancelled: bool)
    ensures |ordered| == |files|
    ensures forall i :: 0 <= i < |files| ==> ordered[i] == Some(work(files[i])) || (cancelled && ordered[i] == None)
    ensures cancelled ==> exists s :: schedule(s).Cancel?
  {
    hide Inv, Apply, Enabled, Measure;
    var cap := WorkerCount(jobs, cpus, |files|);
    var s := Start<R>(files, cap);
    ghost var t := Track(seq(|files|, i => Waiting), 0);
    StartInv(files, cap, work);
    InvShape(files, cap, work, s, t);
    while !s.done
      invariant Inv(files, cap, work, s, t) && Runnable(files, cap, s) && |s.ordered| == |files|
      invariant s.cancelled ==> exists s0 :: schedule(s0).Cancel?
      decreases Measure(files, s)
    {
      var step := schedule(s);
      if !Enabled(files, cap, s, step) {
        step := SomeStep(files, cap, s);
      }
      StepKeepsInv(files, cap, work, s, t, step);
      StepDecreases(files, cap, work, s, step);
      OnlyCancelCancels(files, cap, work, s, step);
      t := TrackAfter(t, s, step);
      s := Apply(files, cap, work, s, step);
      InvShape(files, cap, work, s, t);
    }
    DoneIsComplete(files, cap, work, s, t);
    cancelled := s.cancelled;
    ordered := seq(|files|, i requires 0 <= i < |files| => s.ordered[i].value.result);
  }

  lemma OnlyCancelCancels<R>(files: seq<string>, cap: nat, work: string -> R, s: State<R>, step: Step)
    requires Enabled(files, cap, s, step)
    ensures Apply(files, cap, work, s, step).cancelled <==> s.cancelled || step.Cancel?
  {
  }

  lemma InvShape<R>(files: seq<string>, cap: nat, work: string -> R, s: State<R>, t: Track)
    requires Inv(files, cap, work, s, t)
    ensures Runnable(files, cap, s) && |s.ordered| == |files|
  {
    if s.results != [] {
      CollectFillsOnce(files, cap, work, s, t);
    }
  }

  /** A run is a list of steps, each possible when it is taken. */
  ghost predicate IsRun<R>(files: seq<string>, cap: nat, work: string -> R, s: State<R>, steps: seq<Step>)
    decreases |steps|
  {
    steps == [] ||
    (Enabled(files, cap, s, steps[0]) && IsRun(files, cap, work, Apply(files, cap, work, s, steps[0]), steps[1..]))
  }

  ghost function After<R>(files: seq<string>, cap: nat, work: string -> R, s: State<R>, steps: seq<Step>): State<R>
    requires IsRun(files, cap, work, s, steps)
    decreases |steps|
  {
    if steps == [] then s else After(files, cap, work, Apply(files, cap, work, s, steps[0]), steps[1..])
  }

  /** Along every interleaving: the invariant holds, the run is bounded, and it can only stop when all is collected. */
  lemma {:induction false} EveryRun<R>(files: seq<string>, cap: nat, work: string -> R, s: State<R>, t: Track,
                                       steps: seq<Step>) returns (t': Track)
    requires Inv(files, cap, work, s, t) && IsRun(files, cap, work, s, steps)
    ensures var s' := After(files, cap, work, s, steps);
            && Inv(files, cap, work, s', t')
            && s.fed <= |files| && |steps| <= Measure(files, s)
            && (s'.done || exists step :: Enabled(files, cap, s', step) && !step.Cancel?)
    decreases |steps|
  {
    hide Inv, Apply, Enabled, Measure;
    InvShape(files, cap, work, s, t);
    if steps == [] {
      t' := t;
      if !s.done {
        assert Enabled(files, cap, s, SomeStep(files, cap, s));
      }
    } else {
      StepKeepsInv(files, cap, work, s, t, steps[0]);
      StepDecreases(files, cap, work, s, steps[0]);
      t' := EveryRun(files, cap, work, Apply(files, cap, work, s, steps[0]), TrackAfter(t, s, steps[0]), steps[1..]);
    }
  }
}
