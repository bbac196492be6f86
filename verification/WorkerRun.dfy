/** A whole run of `verify_drives_worker` as the GUI sees it: the planner's events,
    then those of the two worker pools (src/worker/mod.rs:145-304). */
module WorkerRun {
  import opened Prelude
  import opened Events
  import opened Planner
  import GuiApp
  import Pool
  import PoolRuns
  import Phases

  // ── The events of the pools ─────────────────────────────────────────────────

  /** The events that carry no bytes and no text: what a run says about its course. */
  datatype Signal = ResultSent | AbortedSent | FatalSent

  /** What a pool's trace puts on the channel. */
  function PoolSignals(trace: seq<Pool.Entry>): seq<Signal> {
    if trace == [] then []
    else
      var last := trace[|trace| - 1];
      PoolSignals(trace[..|trace| - 1]) +
      if last.Sent? then [ResultSent] else if last.AbortSent? then [AbortedSent] else []
  }

  /** What the run itself adds at its end: `Aborted` when it stops between the phases
      on cancel, `Fatal` from the spawning thread when it returns an error. */
  function Closing(p: Phases.Phased): seq<Signal> {
    if !p.stage.Ended? then []
    else if !p.stage.ok then [FatalSent]
    else if p.embedded.None? then [AbortedSent]
    else []
  }

  /** The SHA-256 pool is done before the embedded pool begins. */
  function RunSignals(p: Phases.Phased): seq<Signal> {
    PoolSignals(p.sha.trace)
    + (if p.embedded.Some? then PoolSignals(p.embedded.value.trace) else [])
    + Closing(p)
  }

  function SignalOf(e: Event): seq<Signal> {
    match e
    case Result(_) => [ResultSent]
    case Aborted => [AbortedSent]
    case Fatal => [FatalSent]
    case _ => []
  }

  function Signals(events: seq<Event>): seq<Signal> {
    if events == [] then []
    else Signals(events[..|events| - 1]) + SignalOf(events[|events| - 1])
  }

  /** `execution` is what the run sent after planning: its signals in order, with
      progress and logs anywhere between them. */
  ghost predicate Streams(p: Phases.Phased, execution: seq<Event>) {
    && (forall i :: 0 <= i < |execution| ==> !execution[i].DrivesFound? && !execution[i].JobsReady?)
    && Signals(execution) == RunSignals(p)
  }

  /** A run that nobody cancelled, from its start to its end. */
  ghost predicate UncancelledRun(drives: seq<Drive>, maxWorkers: nat, actions: seq<Phases.Action>,
                                 execution: seq<Event>)
  {
    var c := PhasesOf(drives, maxWorkers);
    && Phases.Runs(c, Phases.Start(c), actions)
    && var p := Phases.Final(c, Phases.Start(c), actions);
       p.stage.Ended? && !p.cancel && Streams(p, execution)
  }

  /** All events of a run. */
  function Stream(drives: seq<Drive>, maxWorkers: nat, execution: seq<Event>): seq<Event> {
    (DrivesEvents(drives) + [Log]) + [ReadyEvent(drives, maxWorkers)] + execution
  }

  // ── Laws of the stream ──────────────────────────────────────────────────────

  ghost predicate OnlyResults(signals: seq<Signal>) {
    forall i :: 0 <= i < |signals| ==> signals[i] == ResultSent
  }

  lemma {:induction false} QuietSignals(trace: seq<Pool.Entry>)
    requires Pool.AbortSent !in trace
    ensures OnlyResults(PoolSignals(trace)) && |PoolSignals(trace)| == PoolRuns.CountSent(trace)
  {
    if trace != [] {
      QuietSignals(trace[..|trace| - 1]);
    }
  }

  /** Events whose only signals are results are planning-like, and counted by them. */
  lemma {:induction false} OnlyResultEvents(events: seq<Event>)
    requires forall i :: 0 <= i < |events| ==> !events[i].DrivesFound? && !events[i].JobsReady?
    requires OnlyResults(Signals(events))
    ensures GuiApp.IsPlanning(events) && CountResults(events) == |Signals(events)|
  {
    if events != [] {
      var front, last := events[..|events| - 1], events[|events| - 1];
      assert Signals(events) == Signals(front) + SignalOf(last);
      forall i | 0 <= i < |Signals(front)| ensures Signals(front)[i] == ResultSent {
        assert Signals(events)[i] == Signals(front)[i];
      }
      forall i | 0 <= i < |SignalOf(last)| ensures SignalOf(last)[i] == ResultSent {
        assert Signals(events)[|Signals(front)| + i] == SignalOf(last)[i];
      }
      OnlyResultEvents(front);
      assert SignalOf(last) != [] ==> SignalOf(last)[0] == ResultSent;
    }
  }

  /** The pools of an uncancelled run send nothing but progress, logs and one result
      for every planned job: no `Aborted`, no `Fatal`. */
  lemma ExecutionOfUncancelledRun(drives: seq<Drive>, maxWorkers: nat, actions: seq<Phases.Action>,
                                  execution: seq<Event>)
    requires maxWorkers > 0 && UncancelledRun(drives, maxWorkers, actions, execution)
    ensures GuiApp.IsPlanning(execution) && CountResults(execution) == CountJobs(Batches(drives))
  {
    hide PoolSignals, Signals, Phases.Runs, Phases.Final, Batches, CountJobs, CountResults;
    var c := PhasesOf(drives, maxWorkers);
    var p := Phases.Final(c, Phases.Start(c), actions);
    Phases.UncancelledRunCompletes(c, actions);
    Phases.StartInv(c);
    Phases.RunsKeepPhasedInv(c, Phases.Start(c), actions);
    PhasesCoverJobs(Batches(drives));
    QuietSignals(p.sha.trace);
    QuietSignals(p.embedded.value.trace);
    var sha, embedded := PoolSignals(p.sha.trace), PoolSignals(p.embedded.value.trace);
    assert RunSignals(p) == sha + embedded;
    OnlyResultEvents(execution);
  }

  // ── No run falls short in silence ───────────────────────────────────────────

  lemma {:induction false} AbortIsSignalled(trace: seq<Pool.Entry>)
    ensures OnlyResults(PoolSignals(trace)) <==> Pool.AbortSent !in trace
  {
    if Pool.AbortSent !in trace {
      QuietSignals(trace);
    } else {
      var front, last := trace[..|trace| - 1], trace[|trace| - 1];
      AbortIsSignalled(front);
      if last.AbortSent? {
        assert PoolSignals(trace)[|PoolSignals(front)|] == AbortedSent;
      } else {
        assert Pool.AbortSent in front;
        var i :| 0 <= i < |PoolSignals(front)| && PoolSignals(front)[i] != ResultSent;
        assert PoolSignals(trace)[i] == PoolSignals(front)[i];
      }
    }
  }

  /** The signals of a run that has ended are only results exactly if it is complete. */
  lemma EndedRunsSaySo(c: Phases.Configs, steps: seq<Phases.FreeStep>)
    requires Phases.FreeRuns(c, Phases.Start(c), steps) && c.sha.maxWorkers > 0 && c.embedded.maxWorkers > 0
    requires forall b :: 0 <= b < |c.sha.jobs| ==> c.sha.jobs[b] > 0
    requires forall b :: 0 <= b < |c.embedded.jobs| ==> c.embedded.jobs[b] > 0
    requires Phases.FreeFinal(c, Phases.Start(c), steps).stage.Ended?
    ensures var p := Phases.FreeFinal(c, Phases.Start(c), steps);
            OnlyResults(RunSignals(p)) <==>
            && p.stage.ok && p.embedded.Some?
            && PoolRuns.Complete(c.sha, p.sha) && PoolRuns.Complete(c.embedded, p.embedded.value)
  {
    hide PoolSignals, PoolRuns.Complete, Phases.FreeRuns, Phases.FreeFinal;
    var p := Phases.FreeFinal(c, Phases.Start(c), steps);
    Phases.EndedCompleteIff(c, steps);
    var sha := PoolSignals(p.sha.trace);
    var embedded := if p.embedded.Some? then PoolSignals(p.embedded.value.trace) else [];
    OnlyResultsConcat(sha, embedded);
    OnlyResultsConcat(sha + embedded, Closing(p));
    assert Closing(p) != [] ==> Closing(p)[0] != ResultSent;
    AbortIsSignalled(p.sha.trace);
    if p.embedded.Some? {
      AbortIsSignalled(p.embedded.value.trace);
    }
  }

  lemma OnlyResultsConcat(a: seq<Signal>, b: seq<Signal>)
    ensures OnlyResults(a + b) <==> OnlyResults(a) && OnlyResults(b)
  {
    if OnlyResults(a + b) {
      assert forall i :: 0 <= i < |a| ==> a[i] == (a + b)[i];
      assert forall i :: 0 <= i < |b| ==> b[i] == (a + b)[|a| + i];
    }
  }

  /** The GUI sees it: the signals are only results exactly if no event of the run is
      `Aborted` or `Fatal`. */
  lemma {:induction false} SignalsTell(events: seq<Event>)
    ensures OnlyResults(Signals(events)) <==>
            forall i :: 0 <= i < |events| ==> events[i] != Event.Aborted && events[i] != Event.Fatal
  {
    if events != [] {
      var front, last := events[..|events| - 1], events[|events| - 1];
      SignalsTell(front);
      OnlyResultsConcat(Signals(front), SignalOf(last));
      assert OnlyResults(SignalOf(last)) <==> last != Event.Aborted && last != Event.Fatal by {
        assert SignalOf(last) != [] ==> (OnlyResults(SignalOf(last)) <==> SignalOf(last)[0] == ResultSent);
      }
    }
  }

  /** Both phases of a run succeeded, with one result for every job, in order. */
  ghost predicate AllDone(drives: seq<Drive>, maxWorkers: nat, p: Phases.Phased) {
    var c := PhasesOf(drives, maxWorkers);
    && p.stage.Ended? && p.stage.ok && p.embedded.Some?
    && PoolRuns.Complete(c.sha, p.sha) && PoolRuns.Complete(c.embedded, p.embedded.value)
  }

  /** Whatever happens to the cancel flag, by aborts and by restarts: a run over the
      drives that has ended sent neither `Aborted` nor `Fatal` if and only if it sent one
      result for every planned job. */
  lemma EndedRunTellsGui(drives: seq<Drive>, maxWorkers: nat, steps: seq<Phases.FreeStep>, execution: seq<Event>)
    requires var c := PhasesOf(drives, maxWorkers);
             maxWorkers > 0 && Phases.FreeRuns(c, Phases.Start(c), steps) &&
             var p := Phases.FreeFinal(c, Phases.Start(c), steps); p.stage.Ended? && Streams(p, execution)
    ensures var c := PhasesOf(drives, maxWorkers);
            (forall i :: 0 <= i < |execution| ==> execution[i] != Event.Aborted && execution[i] != Event.Fatal)
            <==> AllDone(drives, maxWorkers, Phases.FreeFinal(c, Phases.Start(c), steps))
  {
    hide OnlyResults, Signals, RunSignals, PoolRuns.Complete, Batches, ShaPhase, EmbeddedPhase;
    PhasesHoldJobs(Batches(drives));
    EndedRunsSaySo(PhasesOf(drives, maxWorkers), steps);
    SignalsTell(execution);
  }

  // ── Planner, pools and reducer together ─────────────────────────────────────

  /** A run begins on a GUI whose counters were cleared. */
  predicate JustStarted(s: GuiApp.AppState) {
    s.verifying && s.counts == GuiApp.ZERO
  }

  /** A whole uncancelled run, under every schedule: one result for each planned job
      and one for each manifest that failed to load; the GUI counts them all and is no
      longer verifying. */
  lemma RunCompletes(drives: seq<Drive>, maxWorkers: nat, actions: seq<Phases.Action>, execution: seq<Event>,
                     s: GuiApp.AppState)
    requires maxWorkers > 0 && JustStarted(s) && UncancelledRun(drives, maxWorkers, actions, execution)
    ensures var stream := Stream(drives, maxWorkers, execution);
            var t := GuiApp.ReduceAll(s, stream);
            && CountResults(stream) == CountJobs(Batches(drives)) + Failures(drives)
            && t.counts.done == CountResults(stream) && !t.verifying
  {
    hide CountResults, GuiApp.ReduceAll, UncancelledRun;
    ExecutionOfUncancelledRun(drives, maxWorkers, actions, execution);
    PlanningEvents(drives);
    var planning, ready := DrivesEvents(drives) + [Log], ReadyEvent(drives, maxWorkers);
    CountResultsConcat(planning + [ready], execution);
    CountResultsAppend(planning, ready);
    GuiApp.RunProgress(s, planning, ready.count, ready.workers, ready.totalBytes, execution);
  }

  /** Whenever `verifying` is down, nothing the run still sends is a result. */
  ghost predicate NoneLate(s: GuiApp.AppState, stream: seq<Event>) {
    forall n | 0 <= n <= |stream| ::
      !GuiApp.ReduceAll(s, stream[..n]).verifying ==> CountResults(stream[n..]) == 0
  }

  /** Exactly when no result of an uncancelled run is late, so that none can be left for
      the run after it: every manifest loaded, or at most one job was planned. */
  lemma NoneLateIff(drives: seq<Drive>, maxWorkers: nat, actions: seq<Phases.Action>, execution: seq<Event>,
                    s: GuiApp.AppState)
    requires maxWorkers > 0 && JustStarted(s) && UncancelledRun(drives, maxWorkers, actions, execution)
    ensures NoneLate(s, Stream(drives, maxWorkers, execution))
            <==> Failures(drives) == 0 || CountJobs(Batches(drives)) <= 1
  {
    hide CountResults, GuiApp.ReduceAll, UncancelledRun, Failures, CountJobs, Batches, DrivesEvents, GuiApp.IsPlanning;
    ExecutionOfUncancelledRun(drives, maxWorkers, actions, execution);
    PlanningEvents(drives);
    var stream := Stream(drives, maxWorkers, execution);
    var f, count := Failures(drives), CountJobs(Batches(drives));
    forall n | 0 <= n <= |stream|
      ensures f == 0 || count <= 1 ==>
                !GuiApp.ReduceAll(s, stream[..n]).verifying ==> CountResults(stream[n..]) == 0
    {
      if n <= |DrivesEvents(drives)| + 1 {
        DuringPlanning(drives, maxWorkers, execution, s, n);
      } else {
        DuringExecution(drives, maxWorkers, execution, s, n - |DrivesEvents(drives)| - 2);
      }
    }
    if f > 0 && count > 1 {
      var m := PrefixWith(execution, count - 1);
      DuringExecution(drives, maxWorkers, execution, s, m);
      var n := |DrivesEvents(drives)| + 2 + m;
      assert !GuiApp.ReduceAll(s, stream[..n]).verifying && CountResults(stream[n..]) == 1;
    }
  }

  /** While the run is planning, the GUI goes on verifying. */
  lemma DuringPlanning(drives: seq<Drive>, maxWorkers: nat, execution: seq<Event>, s: GuiApp.AppState, n: nat)
    requires JustStarted(s) && n <= |DrivesEvents(drives)| + 1
    requires GuiApp.IsPlanning(DrivesEvents(drives) + [Log])
    ensures GuiApp.ReduceAll(s, Stream(drives, maxWorkers, execution)[..n]).verifying
  {
    hide GuiApp.ReduceAll, CountResults, DrivesEvents;
    var planning := DrivesEvents(drives) + [Log];
    assert Stream(drives, maxWorkers, execution)[..n] == planning[..n];
    GuiApp.PlanningCounts(s, planning[..n]);
  }

  /** After m events of the pools: the flag, and the results still to come. */
  lemma DuringExecution(drives: seq<Drive>, maxWorkers: nat, execution: seq<Event>, s: GuiApp.AppState, m: nat)
    requires JustStarted(s) && m <= |execution|
    requires GuiApp.IsPlanning(DrivesEvents(drives) + [Log]) && GuiApp.IsPlanning(execution)
    requires CountResults(DrivesEvents(drives) + [Log]) == Failures(drives)
    ensures var stream, n := Stream(drives, maxWorkers, execution), |DrivesEvents(drives)| + 2 + m;
            var r, count := CountResults(execution[..m]), CountJobs(Batches(drives));
            && n <= |stream|
            && CountResults(stream[n..]) == CountResults(execution) - r
            && (GuiApp.ReduceAll(s, stream[..n]).verifying <==> count > 0 && (r == 0 || Failures(drives) + r < count))
  {
    hide GuiApp.ReduceAll, CountResults, DrivesEvents, Failures, CountJobs, Batches;
    var planning, ready := DrivesEvents(drives) + [Log], ReadyEvent(drives, maxWorkers);
    var stream, n := Stream(drives, maxWorkers, execution), |DrivesEvents(drives)| + 2 + m;
    assert stream[..n] == planning + [ready] + execution[..m] && stream[n..] == execution[m..];
    assert execution == execution[..m] + execution[m..];
    CountResultsConcat(execution[..m], execution[m..]);
    GuiApp.RunProgress(s, planning, ready.count, ready.workers, ready.totalBytes, execution[..m]);
  }

  lemma {:induction false} PrefixWith(events: seq<Event>, r: nat) returns (m: nat)
    requires r <= CountResults(events)
    ensures m <= |events| && CountResults(events[..m]) == r
  {
    if r == CountResults(events) {
      m := |events|;
      assert events[..m] == events;
    } else {
      var front := events[..|events| - 1];
      m := PrefixWith(front, r);
      assert front[..m] == events[..m];
    }
  }

  // ── Such runs exist ─────────────────────────────────────────────────────────

  /** For every plan there is an uncancelled run, and it may send nothing but results. */
  lemma RunExists(drives: seq<Drive>, maxWorkers: nat) returns (actions: seq<Phases.Action>, execution: seq<Event>)
    requires maxWorkers > 0
    ensures execution == GuiApp.SomeResults(CountJobs(Batches(drives)))
    ensures UncancelledRun(drives, maxWorkers, actions, execution)
  {
    hide PoolSignals, Signals, Phases.Runs, Phases.Final, Batches, CountJobs, CountResults, GuiApp.SomeResults,
         OnlyResults, GuiApp.IsPlanning, Phases.PhasedInv, ShaPhase, EmbeddedPhase;
    var c := PhasesOf(drives, maxWorkers);
    Phases.StartInv(c);
    actions := Phases.Finish(c, Phases.Start(c));
    var p := Phases.Final(c, Phases.Start(c), actions);
    Phases.UncancelledRunCompletes(c, actions);
    Phases.RunsKeepPhasedInv(c, Phases.Start(c), actions);
    PhasesCoverJobs(Batches(drives));
    NoAborts(c, p);
    QuietSignals(p.sha.trace);
    QuietSignals(p.embedded.value.trace);
    var n := CountJobs(Batches(drives));
    execution := GuiApp.SomeResults(n);
    ResultSignals(n);
    Joined(PoolSignals(p.sha.trace), PoolSignals(p.embedded.value.trace));
    var sha, embedded := PoolSignals(p.sha.trace), PoolSignals(p.embedded.value.trace);
    SameResults(sha + embedded, Signals(execution));
    assert RunSignals(p) == (sha + embedded) + [];
  }

  lemma NoAborts(c: Phases.Configs, p: Phases.Phased)
    requires Phases.PhasedInv(c, p) && !p.cancel
    ensures Pool.AbortSent !in p.sha.trace && (p.embedded.Some? ==> Pool.AbortSent !in p.embedded.value.trace)
  {
  }

  lemma Joined(a: seq<Signal>, b: seq<Signal>)
    requires OnlyResults(a) && OnlyResults(b)
    ensures OnlyResults(a + b)
  {
  }

  lemma SameResults(a: seq<Signal>, b: seq<Signal>)
    requires OnlyResults(a) && OnlyResults(b) && |a| == |b|
    ensures a == b
  {
  }

  lemma {:induction false} ResultSignals(n: nat)
    ensures var events := GuiApp.SomeResults(n);
            |events| == n && OnlyResults(Signals(events)) && |Signals(events)| == n
            && forall i :: 0 <= i < n ==> events[i] == Result(VerificationResult(true, 0))
  {
    hide CountResults, GuiApp.IsPlanning, Signals;
    var ok := Result(VerificationResult(true, 0));
    SignalsAppend([], ok);
    if n > 0 {
      ResultSignals(n - 1);
      var front := GuiApp.SomeResults(n - 1);
      SignalsAppend(front, ok);
      assert Signals(front + [ok]) == Signals(front) + [ResultSent];
    }
  }

  lemma SignalsAppend(events: seq<Event>, e: Event)
    ensures Signals([]) == [] && Signals(events + [e]) == Signals(events) + SignalOf(e)
  {
    assert (events + [e])[..|events|] == events;
  }

  lemma {:induction false} SignalsConcat(a: seq<Event>, b: seq<Event>)
    ensures Signals(a + b) == Signals(a) + Signals(b)
  {
    hide Signals, SignalOf;
    if b == [] {
      SignalsAppend([], Log);
      assert a + b == a && Signals(a) + [] == Signals(a);
    } else {
      var front, last := b[..|b| - 1], b[|b| - 1];
      SignalsConcat(a, front);
      SignalsAppend(a + front, last);
      SignalsAppend(front, last);
      assert (a + front) + [last] == a + b && front + [last] == b;
      ConcatAssociates(Signals(a), Signals(front), SignalOf(last));
    }
  }
}
