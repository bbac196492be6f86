/** The GUI together with every worker run it ever started: an abort replaces the
    channel, so each run belongs to the epoch of the channel it was given
    (src/app/actions.rs, src/app/events.rs). */
module Epochs {
  import opened Prelude
  import opened Events
  import opened GuiApp
  import opened Planner
  import Phases
  import WorkerRun

  /** An event and the run that sent it. */
  datatype Stamped = Stamped(run: nat, event: Event)

  /** `queues` holds every channel ever made, the last one being the current one;
      `channelOf[r]` is the channel whose sender run r captured; `processed` is what
      the GUI has taken out so far. */
  datatype System = System(
    app: AppState, queues: seq<seq<Stamped>>, channelOf: seq<nat>, processed: seq<Stamped>)
  {
    function Current(): int {
      |queues| - 1
    }
  }

  /** User actions, one turn of the drain loop, and a send by any run ever started,
      which may send anything at any time. */
  datatype Action =
    | Scan
    | Verify(form: Form)
    | Abort(close: bool)
    | Process
    | Send(run: nat, event: Event)

  function Start(): System {
    System(Fresh(), [[]], [], [])
  }

  predicate CanAct(s: System, a: Action) {
    && s.queues != []
    && (a.Process? ==> s.queues[s.Current()] != [])
    && (a.Send? ==> a.run < |s.channelOf| && s.channelOf[a.run] < |s.queues|)
  }

  /** A new run captures the current sender. */
  function Spawned(s: System, app: AppState, started: bool): System
    requires s.queues != []
  {
    s.(app := app, channelOf := s.channelOf + if started then [s.Current()] else [])
  }

  function Do(s: System, a: Action): System
    requires CanAct(s, a)
  {
    match a
    case Scan => Spawned(s, Scanning(s.app), !s.app.discovering && !s.app.verifying)
    case Verify(form) => Spawned(s, Verifying(s.app, form), CanVerify(s.app, form))
    case Abort(close) =>
      s.(app := Aborting(s.app, close), queues := if s.app.verifying then s.queues + [[]] else s.queues)
    case Process =>
      var queue := s.queues[s.Current()];
      s.(app := Reduce(s.app, queue[0].event),
         queues := s.queues[s.Current() := queue[1..]],
         processed := s.processed + [queue[0]])
    case Send(run, event) =>
      var q := s.channelOf[run];
      s.(queues := s.queues[q := s.queues[q] + [Stamped(run, event)]])
  }

  ghost predicate Runs(s: System, actions: seq<Action>)
    decreases |actions|
  {
    actions == [] || (CanAct(s, actions[0]) && Runs(Do(s, actions[0]), actions[1..]))
  }

  ghost function Final(s: System, actions: seq<Action>): System
    requires Runs(s, actions)
    decreases |actions|
  {
    if actions == [] then s else Final(Do(s, actions[0]), actions[1..])
  }

  // ── Invariant ───────────────────────────────────────────────────────────────

  /** Entry i of channel q was sent by a run that holds this channel. */
  predicate OnOwnChannel(s: System, q: nat, i: nat)
    requires q < |s.queues| && i < |s.queues[q]|
  {
    var run := s.queues[q][i].run;
    run < |s.channelOf| && s.channelOf[run] == q
  }

  ghost predicate Inv(s: System) {
    && s.queues != []
    && Consistent(s.app)
    && (forall r :: 0 <= r < |s.channelOf| ==> s.channelOf[r] < |s.queues|)
    && (forall q, i :: 0 <= q < |s.queues| && 0 <= i < |s.queues[q]| ==> OnOwnChannel(s, q, i))
  }

  lemma StepKeepsInv(s: System, a: Action)
    requires Inv(s) && CanAct(s, a)
    ensures Inv(Do(s, a))
  {
    hide Consistent, Reduce, Scanning, Verifying, Aborting, CanVerify;
    match a {
      case Scan => ActionsKeepConsistent(s.app, Form(false, false, false), false);
      case Verify(form) => ActionsKeepConsistent(s.app, form, false);
      case Abort(close) => ActionsKeepConsistent(s.app, Form(false, false, false), close);
      case Process => EventKeepsConsistent(s.app, s.queues[s.Current()][0].event);
      case Send(run, event) =>
    }
    QueuesStay(s, a);
  }

  lemma QueuesStay(s: System, a: Action)
    requires Inv(s) && CanAct(s, a)
    ensures var t := Do(s, a);
            forall q, i :: 0 <= q < |t.queues| && 0 <= i < |t.queues[q]| ==> OnOwnChannel(t, q, i)
  {
    hide Consistent, Reduce, Scanning, Verifying, Aborting, CanVerify;
    var t := Do(s, a);
    forall q, i | 0 <= q < |t.queues| && 0 <= i < |t.queues[q]| ensures OnOwnChannel(t, q, i) {
      if a.Process? && q == s.Current() {
        assert OnOwnChannel(s, q, i + 1);
      } else if q < |s.queues| && i < |s.queues[q]| {
        assert OnOwnChannel(s, q, i);
      }
    }
  }

  /** The counters and flags stay consistent whatever events arrive, in every
      reachable state of the whole system. */
  lemma {:induction false} AlwaysConsistent(s: System, actions: seq<Action>)
    requires Inv(s) && Runs(s, actions)
    ensures Inv(Final(s, actions))
    decreases |actions|
  {
    if actions != [] {
      StepKeepsInv(s, actions[0]);
      AlwaysConsistent(Do(s, actions[0]), actions[1..]);
    }
  }

  lemma StartInv()
    ensures Inv(Start())
  {
  }

  // ── Epochs ──────────────────────────────────────────────────────────────────

  /** The first `retired` runs hold channels that are no longer read. */
  predicate Retired(s: System, retired: nat) {
    retired <= |s.channelOf| && forall r :: 0 <= r < retired ==> s.channelOf[r] < s.Current()
  }

  /** Everything taken out since the first `from` entries came from later runs. */
  predicate OnlyLaterRuns(s: System, from: nat, retired: nat) {
    from <= |s.processed| && forall i :: from <= i < |s.processed| ==> s.processed[i].run >= retired
  }

  lemma StepKeepsRetired(s: System, a: Action, from: nat, retired: nat)
    requires Inv(s) && CanAct(s, a) && Retired(s, retired) && OnlyLaterRuns(s, from, retired)
    ensures Retired(Do(s, a), retired) && OnlyLaterRuns(Do(s, a), from, retired)
  {
    hide Consistent, Reduce, Scanning, Verifying, Aborting, CanVerify;
    if a.Process? {
      assert OnOwnChannel(s, s.Current(), 0);
    }
  }

  lemma {:induction false} RunsKeepRetired(s: System, actions: seq<Action>, from: nat, retired: nat)
    requires Inv(s) && Runs(s, actions) && Retired(s, retired) && OnlyLaterRuns(s, from, retired)
    ensures OnlyLaterRuns(Final(s, actions), from, retired)
    decreases |actions|
  {
    if actions != [] {
      StepKeepsInv(s, actions[0]);
      StepKeepsRetired(s, actions[0], from, retired);
      RunsKeepRetired(Do(s, actions[0]), actions[1..], from, retired);
    }
  }

  /** Once a verification is aborted, nothing sent by any run started before, at
      whatever time, is ever processed again: neither the shared cancel flag, which
      the next run clears, nor later runs or later aborts change that. */
  lemma AbortedRunsAreSilenced(before: seq<Action>, close: bool, after: seq<Action>)
    requires Runs(Start(), before) && Final(Start(), before).app.verifying
    requires CanAct(Final(Start(), before), Abort(close))
    requires Runs(Do(Final(Start(), before), Abort(close)), after)
    ensures var s := Final(Start(), before);
            var t := Final(Do(s, Abort(close)), after);
            && |s.processed| <= |t.processed|
            && forall i :: |s.processed| <= i < |t.processed| ==> t.processed[i].run >= |s.channelOf|
  {
    hide Consistent, Reduce, Scanning, Verifying, Aborting, CanVerify;
    StartInv();
    AlwaysConsistent(Start(), before);
    var s := Final(Start(), before);
    StepKeepsInv(s, Abort(close));
    RunsKeepRetired(Do(s, Abort(close)), after, |s.processed|, |s.channelOf|);
  }

  /** The flag does not do this by itself: starting again lowers it under a run that
      has not looked yet. */
  lemma RestartLowersFlag(s: System, close: bool, form: Form)
    requires Inv(s) && s.app.verifying && HasSelection(s.app) && form.Sufficient()
    ensures Do(s, Abort(close)).app.cancel
    ensures var t := Do(Do(s, Abort(close)), Verify(form));
            !t.app.cancel && t.app.verifying && t.channelOf == s.channelOf + [|s.queues|]
  {
  }

  // ── Without an abort ────────────────────────────────────────────────────────

  /** What a run puts on its channel. */
  function SentBy(actions: seq<Action>, run: nat): seq<Event> {
    if actions == [] then []
    else
      (if actions[0].Send? && actions[0].run == run then [actions[0].event] else []) + SentBy(actions[1..], run)
  }

  predicate NoAbort(actions: seq<Action>) {
    forall i :: 0 <= i < |actions| ==> !actions[i].Abort?
  }

  /** Exactly the runs of `WorkerRun.NoneLateIff` that can be late are: for every plan
      with a failed manifest and more than one job there is an uncancelled run of the
      worker, and a use of the GUI without any abort in which that run is the first
      verification, sends what it sends and nothing else, and has its last result
      counted for the run started after it. */
  lemma LateResultHappens(drives: seq<Drive>, maxWorkers: nat)
    returns (actions: seq<Action>, phases: seq<Phases.Action>, execution: seq<Event>)
    requires maxWorkers > 0 && Failures(drives) > 0 && CountJobs(Batches(drives)) > 1
    ensures WorkerRun.UncancelledRun(drives, maxWorkers, phases, execution)
    ensures NoAbort(actions) && Runs(Start(), actions)
    ensures SentBy(actions, 1) == WorkerRun.Stream(drives, maxWorkers, execution)
    ensures var t := Final(Start(), actions);
            && t.app.verifying && |t.channelOf| == 3 && t.app.counts.done == 1
            && |t.processed| > 0 && t.processed[|t.processed| - 1] == Stamped(1, Result(VerificationResult(true, 0)))
            && t.app.results == [VerificationResult(true, 0)]
  {
    hide Runs, Final, Do, CanAct, SentBy, NoAbort, Prologue, WorkerRun.UncancelledRun, WorkerRun.Stream, Batches,
         CountJobs, Failures;
    var form := Form(false, false, false);
    phases, execution := WorkerRun.RunExists(drives, maxWorkers);
    var app := DiscoveredAll(drives, form);
    EndsEarly(drives, maxWorkers, phases, execution, app, form);
    var found := DrivesFound(Ids(drives));
    var s := System(Verifying(app, form), [[]], [0, 0], [Stamped(0, found)]);
    var rest := Ending(s, form, WorkerRun.Stream(drives, maxWorkers, execution));
    actions := Prologue(found, form, rest);
    PrologueRuns(found, form, rest);
    PrologueSends(found, form, rest);
  }

  /** Scan, hear of the drives, verify. */
  function Prologue(found: Event, form: Form, rest: seq<Action>): seq<Action> {
    [Scan] + ([Send(0, found), Process] + ([Verify(form)] + rest))
  }

  lemma PrologueRuns(found: Event, form: Form, rest: seq<Action>)
    requires CanVerify(Reduce(Scanning(Fresh()), found), form)
    requires Runs(System(Verifying(Reduce(Scanning(Fresh()), found), form), [[]], [0, 0], [Stamped(0, found)]), rest)
    ensures Runs(Start(), Prologue(found, form, rest))
    ensures Final(Start(), Prologue(found, form, rest)) ==
            Final(System(Verifying(Reduce(Scanning(Fresh()), found), form), [[]], [0, 0], [Stamped(0, found)]), rest)
  {
    hide Runs, Final, Do, CanAct, Reduce, Scanning, Verifying, CanVerify;
    var app := Reduce(Scanning(Fresh()), found);
    var s1 := System(Scanning(Fresh()), [[]], [0], []);
    var s2 := System(app, [[]], [0], [] + [Stamped(0, found)]);
    var s3 := System(Verifying(app, form), [[]], [0, 0], [Stamped(0, found)]);
    assert s2.processed == s3.processed;
    Begins(s2, form);
    RunsOf(s2, Verify(form), s3, rest);
    Delivered(s1, 0, found, [Verify(form)] + rest);
    ScanBegins();
    RunsOf(Start(), Scan, s1, [Send(0, found), Process] + ([Verify(form)] + rest));
  }

  lemma PrologueSends(found: Event, form: Form, rest: seq<Action>)
    ensures SentBy(Prologue(found, form, rest), 1) == SentBy(rest, 1)
    ensures NoAbort(rest) ==> NoAbort(Prologue(found, form, rest))
  {
    SentByParts([Scan], [Send(0, found), Process] + ([Verify(form)] + rest), 1);
    SentByParts([Send(0, found), Process], [Verify(form)] + rest, 1);
    SentByParts([Verify(form)], rest, 1);
    OneAction(Scan, 1);
    OneAction(Verify(form), 1);
    OneAction(Process, 1);
    assert [Send(0, found), Process][1..] == [Process];
  }

  function Ids(drives: seq<Drive>): seq<nat> {
    seq(|drives|, i => i)
  }

  /** After the scan every drive is selected, and a verification may begin. */
  lemma DiscoveredAll(drives: seq<Drive>, form: Form) returns (app: AppState)
    requires Failures(drives) > 0 && form == Form(false, false, false)
    ensures app == Reduce(Scanning(Fresh()), DrivesFound(Ids(drives)))
    ensures CanVerify(app, form) && WorkerRun.JustStarted(Verifying(app, form))
    ensures !Verifying(app, form).discovering && HasSelection(Verifying(app, form))
  {
    app := Reduce(Scanning(Fresh()), DrivesFound(Ids(drives)));
    assert app.drives[0] == (0, true);
    assert Verifying(app, form).drives[0].1;
  }

  /** With one result to come, the GUI already takes the run for over. */
  lemma EndsEarly(drives: seq<Drive>, maxWorkers: nat, phases: seq<Phases.Action>, execution: seq<Event>,
                  app: AppState, form: Form)
    requires maxWorkers > 0 && Failures(drives) > 0 && CountJobs(Batches(drives)) > 1
    requires execution == SomeResults(CountJobs(Batches(drives)))
    requires WorkerRun.UncancelledRun(drives, maxWorkers, phases, execution)
    requires var s := Verifying(app, form);
             WorkerRun.JustStarted(s) && !s.discovering && HasSelection(s) && form.Sufficient()
    ensures var stream := WorkerRun.Stream(drives, maxWorkers, execution);
            && stream != [] && stream[|stream| - 1] == Result(VerificationResult(true, 0))
            && CanVerify(ReduceAll(Verifying(app, form), stream[..|stream| - 1]), form)
  {
    hide ReduceAll, Reduce, CountResults, DrivesEvents, Failures, Batches, CountJobs, IsPlanning,
         WorkerRun.UncancelledRun, Verifying;
    var s, m := Verifying(app, form), |execution| - 1;
    WorkerRun.ResultSignals(CountJobs(Batches(drives)));
    WorkerRun.ExecutionOfUncancelledRun(drives, maxWorkers, phases, execution);
    PlanningEvents(drives);
    WorkerRun.DuringExecution(drives, maxWorkers, execution, s, m);
    OneLess(execution);
    var stream := WorkerRun.Stream(drives, maxWorkers, execution);
    assert stream[|DrivesEvents(drives)| + 2 + m] == execution[m];
    NoDrivesFound(drives, maxWorkers, execution);
    KeepsDrives(s, stream[..|stream| - 1]);
  }

  lemma OneLess(execution: seq<Event>)
    requires execution != [] && execution[|execution| - 1].Result?
    ensures CountResults(execution[..|execution| - 1]) == CountResults(execution) - 1
  {
  }

  lemma NoDrivesFound(drives: seq<Drive>, maxWorkers: nat, execution: seq<Event>)
    requires IsPlanning(DrivesEvents(drives) + [Log]) && IsPlanning(execution)
    ensures var stream := WorkerRun.Stream(drives, maxWorkers, execution);
            forall i :: 0 <= i < |stream| ==> !stream[i].DrivesFound?
  {
    hide DrivesEvents;
  }

  lemma {:induction false} KeepsDrives(s: AppState, events: seq<Event>)
    requires forall i :: 0 <= i < |events| ==> !events[i].DrivesFound?
    ensures ReduceAll(s, events).drives == s.drives && (!s.discovering ==> !ReduceAll(s, events).discovering)
  {
    hide Reduce;
    if events != [] {
      var front := ReduceAll(s, events[..|events| - 1]);
      KeepsDrives(s, events[..|events| - 1]);
      KeepsDrivesOnce(front, events[|events| - 1]);
    }
  }

  lemma KeepsDrivesOnce(s: AppState, e: Event)
    requires !e.DrivesFound?
    ensures Reduce(s, e).drives == s.drives && (!s.discovering ==> !Reduce(s, e).discovering)
  {
  }

  /** All but the last event are sent and processed one by one; the last comes after
      the GUI started again. */
  lemma Ending(s: System, form: Form, stream: seq<Event>) returns (actions: seq<Action>)
    requires s.queues == [[]] && s.channelOf == [0, 0] && stream != [] && stream[|stream| - 1].Result?
    requires CanVerify(ReduceAll(s.app, stream[..|stream| - 1]), form)
    ensures NoAbort(actions) && Runs(s, actions) && SentBy(actions, 1) == stream
    ensures var t := Final(s, actions);
            && t.app.verifying && |t.channelOf| == 3 && t.app.counts.done == 1
            && |t.processed| > 0 && t.processed[|t.processed| - 1] == Stamped(1, stream[|stream| - 1])
            && t.app.results == [stream[|stream| - 1].result]
  {
    hide Runs, Final, Do, CanAct, Reduce, ReduceAll, Verifying, CanVerify;
    var front, last := stream[..|stream| - 1], stream[|stream| - 1];
    var u := s.(app := ReduceAll(s.app, front), processed := s.processed + Stamps(1, front));
    LateResultReachesNextRun(u, form, last.result);
    var end := LastSteps(u, form, last);
    DeliveredAll(s, 1, front, end);
    actions := Deliver(1, front) + end;
    DeliverSends(1, front);
    SentByParts(Deliver(1, front), end, 1);
    EndSends(last, form);
  }

  function Stamps(run: nat, events: seq<Event>): seq<Stamped> {
    seq(|events|, i requires 0 <= i < |events| => Stamped(run, events[i]))
  }

  function Deliver(run: nat, events: seq<Event>): seq<Action> {
    if events == [] then [] else [Send(run, events[0]), Process] + Deliver(run, events[1..])
  }

  lemma {:induction false} DeliverSends(run: nat, events: seq<Event>)
    ensures SentBy(Deliver(run, events), run) == events && NoAbort(Deliver(run, events))
  {
    if events != [] {
      hide SentBy;
      DeliverSends(run, events[1..]);
      PairSends(run, events[0]);
      SentByParts([Send(run, events[0]), Process], Deliver(run, events[1..]), run);
    }
  }

  lemma PairSends(run: nat, e: Event)
    ensures SentBy([Send(run, e), Process], run) == [e]
  {
    assert [Send(run, e), Process][1..] == [Process];
    OneAction(Process, run);
  }

  lemma OneAction(a: Action, run: nat)
    ensures SentBy([a], run) == if a.Send? && a.run == run then [a.event] else []
  {
    assert [a][1..] == [];
  }

  lemma EndSends(last: Event, form: Form)
    ensures SentBy([Send(1, last), Verify(form), Process], 1) == [last]
  {
    OneAction(Send(1, last), 1);
    OneAction(Verify(form), 1);
    OneAction(Process, 1);
    SentByParts([Verify(form)], [Process], 1);
    SentByParts([Send(1, last)], [Verify(form)] + [Process], 1);
    assert [Send(1, last)] + ([Verify(form)] + [Process]) == [Send(1, last), Verify(form), Process];
  }

  lemma {:induction false} SentByParts(a: seq<Action>, b: seq<Action>, run: nat)
    ensures SentBy(a + b, run) == SentBy(a, run) + SentBy(b, run)
  {
    if a == [] {
      assert a + b == b;
    } else {
      SentByParts(a[1..], b, run);
      assert (a + b)[0] == a[0] && (a + b)[1..] == a[1..] + b;
      var first := if a[0].Send? && a[0].run == run then [a[0].event] else [];
      assert first + (SentBy(a[1..], run) + SentBy(b, run)) == (first + SentBy(a[1..], run)) + SentBy(b, run);
    }
  }

  /** On an empty channel, sending and processing events one by one reduces them. */
  lemma {:induction false} DeliveredAll(s: System, run: nat, events: seq<Event>, rest: seq<Action>)
    requires s.queues == [[]] && run < |s.channelOf| && s.channelOf[run] == 0
    requires Runs(s.(app := ReduceAll(s.app, events), processed := s.processed + Stamps(run, events)), rest)
    ensures var t := s.(app := ReduceAll(s.app, events), processed := s.processed + Stamps(run, events));
            Runs(s, Deliver(run, events) + rest) && Final(s, Deliver(run, events) + rest) == Final(t, rest)
    decreases |events|
  {
    hide Runs, Final, Do, CanAct, Reduce;
    if events == [] {
      assert Deliver(run, events) + rest == rest && s.processed + Stamps(run, events) == s.processed;
    } else {
      var e, more := events[0], events[1..];
      assert [e] + more == events;
      ReduceAllConcat(s.app, [e], more);
      assert ReduceAll(s.app, [e]) == Reduce(s.app, e) by { assert [e][..0] == []; }
      var t := s.(app := Reduce(s.app, e), processed := s.processed + [Stamped(run, e)]);
      assert t.processed + Stamps(run, more) == s.processed + Stamps(run, events);
      DeliveredAll(t, run, more, rest);
      Delivered(s, run, e, Deliver(run, more) + rest);
      assert Deliver(run, events) + rest == [Send(run, e), Process] + (Deliver(run, more) + rest);
    }
  }

  /** A result still on its way when a run ends by itself is counted for the next. */
  lemma LateResultReachesNextRun(s: System, form: Form, late: VerificationResult)
    requires s.queues != [] && CanVerify(s.app, form)
    requires s.queues[s.Current()] == [] && |s.channelOf| > 0 && s.channelOf[|s.channelOf| - 1] == s.Current()
    ensures var sent := Do(s, Send(|s.channelOf| - 1, Result(late)));
            var next := Do(sent, Verify(form));
            CanAct(next, Process) &&
            var t := Do(next, Process);
            && t.app.verifying && t.app.counts.done == 1 && t.app.results == [late]
            && t.processed == s.processed + [Stamped(|s.channelOf| - 1, Result(late))]
            && |t.channelOf| == |s.channelOf| + 1
  {
    var sent := Do(s, Send(|s.channelOf| - 1, Result(late)));
    assert sent.queues[sent.Current()] == [Stamped(|s.channelOf| - 1, Result(late))];
  }

  /** On an empty channel, sending and processing one event is one reduction. */
  lemma Delivered(s: System, run: nat, e: Event, rest: seq<Action>)
    requires s.queues == [[]] && run < |s.channelOf| && s.channelOf[run] == 0
    requires Runs(s.(app := Reduce(s.app, e), processed := s.processed + [Stamped(run, e)]), rest)
    ensures var t := s.(app := Reduce(s.app, e), processed := s.processed + [Stamped(run, e)]);
            Runs(s, [Send(run, e), Process] + rest) && Final(s, [Send(run, e), Process] + rest) == Final(t, rest)
  {
    hide Reduce, Runs, Final;
    var sent := Do(s, Send(run, e));
    assert s.queues[0] == [] && [] + [Stamped(run, e)] == [Stamped(run, e)];
    assert sent.queues == [[Stamped(run, e)]];
    assert sent.queues[0][1..] == [];
    var t := Do(sent, Process);
    assert t.queues == [[]];
    RunsOf(sent, Process, t, rest);
    RunsOf(s, Send(run, e), sent, [Process] + rest);
    assert [Send(run, e)] + ([Process] + rest) == [Send(run, e), Process] + rest;
  }

  lemma RunsOf(s: System, a: Action, t: System, rest: seq<Action>)
    requires CanAct(s, a) && t == Do(s, a) && Runs(t, rest)
    ensures Runs(s, [a] + rest) && Final(s, [a] + rest) == Final(t, rest)
  {
    assert ([a] + rest)[1..] == rest;
  }

  lemma NowhereFrom(s: System)
    ensures Runs(s, []) && Final(s, []) == s
  {
  }

  lemma ScanBegins()
    ensures CanAct(Start(), Scan) && Do(Start(), Scan) == System(Scanning(Fresh()), [[]], [0], [])
  {
  }

  lemma Begins(s: System, form: Form)
    requires s.queues == [[]] && s.channelOf == [0] && CanVerify(s.app, form)
    ensures CanAct(s, Verify(form))
    ensures Do(s, Verify(form)) == System(Verifying(s.app, form), [[]], [0, 0], s.processed)
  {
    hide Verifying, CanVerify;
  }

  lemma LastSteps(s: System, form: Form, late: Event) returns (actions: seq<Action>)
    requires s.queues == [[]] && s.channelOf == [0, 0] && CanVerify(s.app, form)
    ensures actions == [Send(1, late), Verify(form), Process] && Runs(s, actions)
    ensures Final(s, actions) == Do(Do(Do(s, Send(1, late)), Verify(form)), Process)
  {
    var s1 := Do(s, Send(1, late));
    var s2 := Do(s1, Verify(form));
    assert s1.queues[0] == [Stamped(1, late)];
    hide Do, Runs, Final, Verifying, CanVerify;
    NowhereFrom(Do(s2, Process));
    RunsOf(s2, Process, Do(s2, Process), []);
    RunsOf(s1, Verify(form), s2, [Process] + []);
    RunsOf(s, Send(1, late), s1, [Verify(form)] + ([Process] + []));
    actions := [Send(1, late)] + ([Verify(form)] + ([Process] + []));
  }
}
