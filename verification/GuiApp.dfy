/** The GUI's state: its reducer over worker events and its user actions
    (src/app/events.rs, src/app/actions.rs). */
module GuiApp {
  import opened Prelude
  import opened Events

  /** The numeric fields of `App`, grouped. */
  datatype Counters = Counters(
    total: nat, done: nat, valid: nat, invalid: nat,
    processedBytes: nat, plannedBytes: nat, workers: nat)

  const ZERO := Counters(0, 0, 0, 0, 0, 0, 0)

  /** The fields events and actions update; texts, timings and dialogs are left out,
      `finished` records that a finish time is set. */
  datatype AppState = AppState(
    discovering: bool, verifying: bool, counts: Counters,
    drives: seq<(nat, bool)>, results: seq<VerificationResult>,
    finished: bool, closeAfterAbort: bool, cancel: bool, promptOpen: bool)

  // ── Meaning ─────────────────────────────────────────────────────────────────

  function Fresh(): AppState {
    AppState(false, false, ZERO, [], [], false, false, false, false)
  }

  function AllSelected(drives: seq<nat>): seq<(nat, bool)> {
    seq(|drives|, i requires 0 <= i < |drives| => (drives[i], true))
  }

  /** One event. */
  function Reduce(s: AppState, e: Event): AppState {
    match e
    case DrivesFound(drives) => s.(discovering := false, drives := AllSelected(drives))
    case JobsReady(count, workers, totalBytes) =>
      s.(counts := s.counts.(total := count, workers := workers, plannedBytes := totalBytes),
         verifying := s.verifying && count > 0, finished := s.finished || count == 0)
    case Progress(delta) => 
      s.(counts := s.counts.(processedBytes := SaturatingAdd(s.counts.processedBytes, delta)))
    case Result(r) =>
      var ended := s.counts.total > 0 && s.counts.done + 1 >= s.counts.total;
      s.(counts := s.counts.(done := s.counts.done + 1,
                             valid := s.counts.valid + if r.ok then 1 else 0,
                             invalid := s.counts.invalid + if r.ok then 0 else 1),
         results := s.results + [r],
         verifying := s.verifying && !ended, finished := s.finished || ended)
    case Aborted => s.(verifying := false, finished := true)
    case Log => s
    case Fatal => s.(discovering := false, verifying := false, finished := true)
  }

  function ReduceAll(s: AppState, events: seq<Event>): AppState {
    if events == [] then s
    else Reduce(ReduceAll(s, events[..|events| - 1]), events[|events| - 1])
  }

  function Cleared(s: AppState): AppState {
    AppState(s.discovering, s.verifying, ZERO, s.drives, [], false, s.closeAfterAbort, false,
             s.promptOpen)
  }

  function Scanning(s: AppState): AppState {
    if s.discovering || s.verifying then s else Cleared(s.(discovering := true, drives := []))
  }

  predicate HasSelection(s: AppState) {
    exists i :: 0 <= i < |s.drives| && s.drives[i].1
  }

  /** The ticked drives, in their order. */
  function Selected(drives: seq<(nat, bool)>): seq<nat> {
    if drives == [] then []
    else
      var last := drives[|drives| - 1];
      Selected(drives[..|drives| - 1]) + if last.1 then [last.0] else []
  }

  lemma {:induction false} SelectedIff(drives: seq<(nat, bool)>)
    ensures Selected(drives) == [] <==> forall i :: 0 <= i < |drives| ==> !drives[i].1
    ensures forall d :: d in Selected(drives) <==> (d, true) in drives
  {
    if drives != [] {
      var front, last := drives[..|drives| - 1], drives[|drives| - 1];
      SelectedIff(front);
      assert drives == front + [last];
    }
  }

  /** Ticking every drive found selects them all, in the order found. */
  lemma {:induction false} AllAreSelected(found: seq<nat>)
    ensures Selected(AllSelected(found)) == found
  {
    if found != [] {
      AllAreSelected(found[..|found| - 1]);
      assert AllSelected(found)[..|found| - 1] == AllSelected(found[..|found| - 1]);
    }
  }

  /** Whether the form has what an encrypted run needs. */
  datatype Form = Form(encrypted: bool, hasKey: bool, hasPassword: bool) {
    predicate Sufficient() {
      encrypted ==> hasKey || hasPassword
    }
  }

  predicate CanVerify(s: AppState, form: Form) {
    !s.discovering && !s.verifying && HasSelection(s) && form.Sufficient()
  }

  function Verifying(s: AppState, form: Form): AppState {
    if CanVerify(s, form) then Cleared(s.(verifying := true))
    else if !s.discovering && !s.verifying && HasSelection(s) then s.(promptOpen := true)
    else s
  }

  function Aborting(s: AppState, close: bool): AppState {
    if !s.verifying then s
    else s.(cancel := true, closeAfterAbort := close, verifying := false,
            counts := s.counts.(workers := 0), finished := true)
  }

  // ── Laws ────────────────────────────────────────────────────────────────────

  function CountOk(results: seq<VerificationResult>): nat {
    if results == [] then 0
    else CountOk(results[..|results| - 1]) + if results[|results| - 1].ok then 1 else 0
  }

  /** What every event and every action keeps. */
  predicate Consistent(s: AppState) {
    && s.counts.done == |s.results| && s.counts.valid == CountOk(s.results)
    && s.counts.invalid == |s.results| - CountOk(s.results)
    && !(s.discovering && s.verifying) && !(s.verifying && s.finished)
  }

  lemma EventKeepsConsistent(s: AppState, e: Event)
    requires Consistent(s)
    ensures Consistent(Reduce(s, e))
  {
    if e.Result? {
      assert (s.results + [e.result])[..|s.results|] == s.results;
    }
  }

  /** The results among the events, in order. */
  function ResultsOf(events: seq<Event>): seq<VerificationResult> {
    if events == [] then []
    else
      var last := events[|events| - 1];
      ResultsOf(events[..|events| - 1]) + if last.Result? then [last.result] else []
  }

  /** Every result is listed, in the order it was sent. */
  lemma {:induction false} ResultsAreListed(s: AppState, events: seq<Event>)
    ensures ReduceAll(s, events).results == s.results + ResultsOf(events)
  {
    hide Reduce;
    if events == [] {
      assert s.results + [] == s.results;
    } else {
      ResultsAreListed(s, events[..|events| - 1]);
      ResultIsListed(ReduceAll(s, events[..|events| - 1]), events[|events| - 1]);
    }
  }

  lemma ResultIsListed(s: AppState, e: Event)
    ensures Reduce(s, e).results == s.results + if e.Result? then [e.result] else []
  {
  }

  lemma ResultsOfAppend(events: seq<Event>, e: Event)
    ensures ResultsOf(events + [e]) == ResultsOf(events) + if e.Result? then [e.result] else []
  {
    assert (events + [e])[..|events|] == events;
  }

  lemma {:induction false} ResultsOfConcat(a: seq<Event>, b: seq<Event>)
    ensures ResultsOf(a + b) == ResultsOf(a) + ResultsOf(b)
  {
    if b == [] {
      assert a + b == a;
    } else {
      var front, last := b[..|b| - 1], b[|b| - 1];
      ResultsOfConcat(a, front);
      assert a + b == (a + front) + [last] && b == front + [last];
      ResultsOfAppend(a + front, last);
      ResultsOfAppend(front, last);
    }
  }

  /** A worker that fails leaves the GUI idle: a scan can start again, and a verification
      of what is selected. */
  lemma FailureFreesGui(s: AppState, form: Form)
    ensures var t := Reduce(s, Fatal);
            && Scanning(t).discovering && Selected(t.drives) == Selected(s.drives)
            && (CanVerify(t, form) <==>
                  Selected(s.drives) != [] && (form.encrypted ==> form.hasKey || form.hasPassword))
  {
    SelectedIff(s.drives);
  }

  /** The answer to a drive scan selects every drive it found, and a verification can
      then start if it found any and the form suffices. */
  lemma FoundDrivesAreSelected(s: AppState, found: seq<nat>, form: Form)
    ensures var t := Reduce(Scanning(s), DrivesFound(found));
            && Selected(t.drives) == found
            && (CanVerify(t, form) <==>
                  !s.verifying && found != [] && (form.encrypted ==> form.hasKey || form.hasPassword))
  {
    AllAreSelected(found);
    SelectedIff(AllSelected(found));
  }

  lemma {:induction false} EventsKeepConsistent(s: AppState, events: seq<Event>)
    requires Consistent(s)
    ensures Consistent(ReduceAll(s, events))
  {
    hide Reduce, Consistent;
    if events != [] {
      EventsKeepConsistent(s, events[..|events| - 1]);
      EventKeepsConsistent(ReduceAll(s, events[..|events| - 1]), events[|events| - 1]);
    }
  }

  lemma ActionsKeepConsistent(s: AppState, form: Form, close: bool)
    requires Consistent(s)
    ensures Consistent(Scanning(s)) && Consistent(Verifying(s, form)) && Consistent(Aborting(s, close))
    ensures s.verifying ==> !Aborting(s, close).verifying && Aborting(s, close).finished && Aborting(s, close).cancel
  {
  }

  /** A scan or a verification that starts, starts from nothing: no results, no counts,
      the flag down; a scan also forgets the drives, a verification keeps them. */
  lemma StartsAreClean(s: AppState, form: Form)
    ensures !s.discovering && !s.verifying ==>
              var t := Scanning(s);
              && t.discovering && !t.verifying && !t.cancel && !t.finished
              && t.results == [] && t.drives == [] && t.counts == Counters(0, 0, 0, 0, 0, 0, 0)
    ensures CanVerify(s, form) ==>
              var t := Verifying(s, form);
              && t.verifying && !t.discovering && !t.cancel && !t.finished
              && t.results == [] && t.drives == s.drives && t.counts == Counters(0, 0, 0, 0, 0, 0, 0)
    ensures CanVerify(s, form) ==> Selected(s.drives) != []
  {
    SelectedIff(s.drives);
  }

  /** A verification that events bring to its end has a finish time, and keeps it. */
  lemma {:induction false} EndIsTimed(s: AppState, events: seq<Event>)
    ensures s.verifying && !ReduceAll(s, events).verifying ==> ReduceAll(s, events).finished
    ensures s.finished ==> ReduceAll(s, events).finished
  {
    hide Reduce;
    if events != [] {
      EndIsTimed(s, events[..|events| - 1]);
      EventEndsTimed(ReduceAll(s, events[..|events| - 1]), events[|events| - 1]);
    }
  }

  lemma EventEndsTimed(s: AppState, e: Event)
    ensures var t := Reduce(s, e);
            (s.verifying && !t.verifying ==> t.finished) && (s.finished ==> t.finished)
            && (t.verifying ==> s.verifying)
  {
  }

  lemma {:induction false} ReduceAllConcat(s: AppState, a: seq<Event>, b: seq<Event>)
    ensures ReduceAll(s, a + b) == ReduceAll(ReduceAll(s, a), b)
  {
    hide Reduce;
    if b == [] {
      assert a + b == a;
    } else {
      var front, last := b[..|b| - 1], b[|b| - 1];
      ReduceAllConcat(s, a, front);
      assert (a + b)[..|a + b| - 1] == a + front;
    }
  }

  /** Nothing in the planning stage of a run but logs, progress and failed manifests. */
  predicate IsPlanning(events: seq<Event>) {
    forall i :: 0 <= i < |events| ==> events[i].Log? || events[i].Progress? || events[i].Result?
  }

  /** Before the totals are known, results are counted but end nothing. */
  lemma {:induction false} PlanningCounts(s: AppState, events: seq<Event>)
    requires IsPlanning(events) && s.counts.total == 0
    ensures var t := ReduceAll(s, events);
            && t.counts.total == 0 && t.verifying == s.verifying
            && t.counts.done == s.counts.done + CountResults(events)
            && t.counts.workers == s.counts.workers && t.counts.plannedBytes == s.counts.plannedBytes
  {
    if events != [] {
      PlanningCounts(s, events[..|events| - 1]);
    }
  }

  /** After the totals are known, `verifying` survives exactly until the count of
      results, failed manifests included, reaches the number of planned jobs. */
  lemma {:induction false} ExecutionCounts(s: AppState, events: seq<Event>)
    requires IsPlanning(events) && s.counts.total > 0
    ensures var t := ReduceAll(s, events);
            && t.counts.total == s.counts.total && t.counts.done == s.counts.done + CountResults(events)
            && (t.verifying <==> s.verifying && (CountResults(events) == 0 || t.counts.done < t.counts.total))
            && t.counts.workers == s.counts.workers && t.counts.plannedBytes == s.counts.plannedBytes
  {
    if events != [] {
      ExecutionCounts(s, events[..|events| - 1]);
    }
  }

  /** A run that planned `count` jobs after f failed manifests and has since sent r
      results: where its counters and its `verifying` flag stand. */
  lemma RunProgress(s: AppState, planning: seq<Event>, count: nat, workers: nat, totalBytes: nat, execution: seq<Event>)
    requires s.verifying && s.counts.total == 0 && s.counts.done == 0
    requires IsPlanning(planning) && IsPlanning(execution)
    ensures var t := ReduceAll(s, planning + [JobsReady(count, workers, totalBytes)] + execution);
            var f, r := CountResults(planning), CountResults(execution);
            && t.counts.done == f + r && t.counts.workers == workers && t.counts.plannedBytes == totalBytes
            && (count > 0 ==> t.counts.total == count)
            && (count > 0 ==> (t.verifying <==> r == 0 || f + r < count))
            && (count == 0 ==> !t.verifying)
  {
    var ready := JobsReady(count, workers, totalBytes);
    PlanningCounts(s, planning);
    assert (planning + [ready])[..|planning|] == planning;
    var mid := ReduceAll(s, planning + [ready]);
    ReduceAllConcat(s, planning + [ready], execution);
    if count > 0 {
      ExecutionCounts(mid, execution);
    } else {
      PlanningCounts(mid, execution);
    }
  }

  /** `verifying` falls exactly at the last of the planned jobs' results: it stands
      while results are missing and is down once all have come. */
  ghost predicate FallsAtLast(s: AppState, planning: seq<Event>, count: nat, workers: nat, totalBytes: nat) {
    forall execution | IsPlanning(execution) && CountResults(execution) <= count ::
      ReduceAll(s, planning + [JobsReady(count, workers, totalBytes)] + execution).verifying
      <==> CountResults(execution) < count
  }

  function SomeResults(n: nat): (events: seq<Event>)
    ensures IsPlanning(events) && CountResults(events) == n
  {
    if n == 0 then []
    else
      CountResultsAppend(SomeResults(n - 1), Result(VerificationResult(true, 0)));
      SomeResults(n - 1) + [Result(VerificationResult(true, 0))]
  }

  /** It does exactly when no manifest failed to load, or there is at most one job. */
  lemma FallsAtLastIff(s: AppState, planning: seq<Event>, count: nat, workers: nat, totalBytes: nat)
    requires s.verifying && s.counts.total == 0 && s.counts.done == 0 && IsPlanning(planning)
    ensures FallsAtLast(s, planning, count, workers, totalBytes) <==> CountResults(planning) == 0 || count <= 1
  {
    hide ReduceAll, CountResults;
    forall execution | IsPlanning(execution)
      ensures ReduceAll(s, planning + [JobsReady(count, workers, totalBytes)] + execution).verifying
              <==> count > 0 &&
                   (CountResults(execution) == 0 || CountResults(planning) + CountResults(execution) < count)
    {
      RunProgress(s, planning, count, workers, totalBytes, execution);
    }
    if CountResults(planning) > 0 && count > 1 {
      var late := SomeResults(count - 1);
      assert !ReduceAll(s, planning + [JobsReady(count, workers, totalBytes)] + late).verifying;
    }
  }

  // ── The code ────────────────────────────────────────────────────────────────

  /** Both ends of an `mpsc` channel. */
  class Channel {
    var queue: seq<Event>

    constructor ()
      ensures queue == []
    {
      queue := [];
    }
  }

  class Flag {
    var value: bool

    constructor (value: bool)
      ensures this.value == value
    {
      this.value := value;
    }
  }

  /** What a spawned worker thread captures. */
  datatype Spawned = NoThread | ScanThread(tx: Channel) | VerifyThread(tx: Channel, selected: seq<nat>, cancel: Flag)

  class App {
    var channel: Channel
    const abortRequested: Flag
    var discovering: bool
    var verifying: bool
    var counts: Counters
    var drives: seq<(nat, bool)>
    var results: seq<VerificationResult>
    var finished: bool
    var closeAfterAbort: bool
    var promptOpen: bool

    constructor ()
      ensures State() == Fresh() && channel.queue == [] && fresh(channel) && fresh(abortRequested)
    {
      channel := new Channel();
      abortRequested := new Flag(false);
      discovering, verifying, finished, closeAfterAbort, promptOpen := false, false, false, false, false;
      counts := ZERO;
      drives, results := [], [];
    }

    ghost function State(): AppState
      reads this, abortRequested
    {
      AppState(discovering, verifying, counts, drives, results, finished, closeAfterAbort, abortRequested.value,
               promptOpen)
    }

    /** `process_events`: drains the channel. */
    method ProcessEvents()
      modifies this, channel
      ensures channel == old(channel) && channel.queue == []
      ensures State() == ReduceAll(old(State()), old(channel.queue))
    {
      ghost var seen: seq<Event> := [];
      while channel.queue != []
        invariant channel == old(channel) && abortRequested.value == old(abortRequested.value)
        invariant seen + channel.queue == old(channel.queue)
        invariant State() == ReduceAll(old(State()), seen)
        decreases |channel.queue|
      {
        var event := channel.queue[0];
        assert seen + channel.queue == (seen + [event]) + channel.queue[1..];
        assert (seen + [event])[..|seen|] == seen;
        channel.queue := channel.queue[1..];
        Handle(event);
        seen := seen + [event];
      }
      assert seen == old(channel.queue);
    }

    /** The body of the drain loop. */
    method Handle(event: Event)
      modifies this
      ensures channel == old(channel) && State() == Reduce(old(State()), event)
    {
      match event {
        case DrivesFound(found) =>
          discovering := false;
          drives := AllSelected(found);
        case JobsReady(count, workers, totalBytes) =>
          counts := counts.(total := count, workers := workers, plannedBytes := totalBytes);
          if count == 0 {
            verifying, finished := false, true;
          }
        case Progress(delta) =>
          counts := counts.(processedBytes := SaturatingAdd(counts.processedBytes, delta));
        case Result(result) =>
          counts := counts.(done := counts.done + 1);
          if result.ok {
            counts := counts.(valid := counts.valid + 1);
          } else {
            counts := counts.(invalid := counts.invalid + 1);
          }
          results := results + [result];
          if counts.total > 0 && counts.done >= counts.total {
            verifying, finished := false, true;
          }
        case Aborted =>
          verifying, finished := false, true;
        case Log =>
        case Fatal =>
          discovering, verifying, finished := false, false, true;
      }
    }

    method ResetResults()
      modifies this, abortRequested
      ensures channel == old(channel) && State() == Cleared(old(State()))
    {
      counts := ZERO;
      results := [];
      abortRequested.value := false;
      finished := false;
    }

    method ResetEventChannel()
      modifies this
      ensures State() == old(State()) && fresh(channel) && channel.queue == []
    {
      channel := new Channel();
    }

    method StartDriveScan() returns (thread: Spawned)
      modifies this, abortRequested
      ensures channel == old(channel) && State() == Scanning(old(State()))
      ensures thread == if old(discovering || verifying) then NoThread else ScanThread(channel)
    {
      if discovering || verifying {
        return NoThread;
      }
      discovering := true;
      drives := [];
      ResetResults();
      return ScanThread(channel);
    }

    /** `selected_drives`. */
    method SelectedDrives() returns (selected: seq<nat>)
      ensures selected == Selected(drives)
    {
      selected := [];
      for i := 0 to |drives|
        invariant selected == Selected(drives[..i])
      {
        assert drives[..i + 1][..i] == drives[..i];
        if drives[i].1 {
          selected := selected + [drives[i].0];
        }
      }
      assert drives[..|drives|] == drives;
    }

    method StartVerification(form: Form) returns (thread: Spawned)
      modifies this, abortRequested
      ensures channel == old(channel) && State() == Verifying(old(State()), form)
      ensures thread.VerifyThread? <==> CanVerify(old(State()), form)
      ensures thread.VerifyThread? ==>
                thread == VerifyThread(channel, Selected(old(drives)), abortRequested)
    {
      if discovering || verifying {
        return NoThread;
      }
      var selected := SelectedDrives();
      SelectedIff(drives);
      if selected == [] {
        return NoThread;
      }
      if form.encrypted && !form.hasKey && !form.hasPassword {
        promptOpen := true;
        return NoThread;
      }
      verifying := true;
      ResetResults();
      return VerifyThread(channel, selected, abortRequested);
    }

    /** `request_abort`: a run in progress keeps its sender, but nobody holds the
        receiver of that channel any more. */
    method RequestAbort(close: bool)
      modifies this, abortRequested
      ensures State() == Aborting(old(State()), close)
      ensures if old(verifying) then fresh(channel) && channel.queue == [] else channel == old(channel)
    {
      if !verifying {
        return;
      }
      abortRequested.value := true;
      closeAfterAbort, verifying, finished := close, false, true;
      counts := counts.(workers := 0);
      ResetEventChannel();
    }
  }

  /** A drive scan from idle, its answer, and a start: the drives found are exactly the
      drives handed to the verification thread, with the app's channel and flag. */
  method ScanThenVerify(app: App, found: seq<nat>, form: Form) returns (thread: Spawned)
    requires !app.discovering && !app.verifying && app.channel.queue == []
    modifies app, app.abortRequested, app.channel
    ensures thread.VerifyThread? <==> found != [] && (form.encrypted ==> form.hasKey || form.hasPassword)
    ensures thread.VerifyThread? ==> thread == VerifyThread(app.channel, found, app.abortRequested)
    ensures thread.VerifyThread? ==> app.verifying && !app.abortRequested.value
  {
    ghost var start := app.State();
    var scan := app.StartDriveScan();
    app.channel.queue := app.channel.queue + [DrivesFound(found)];
    ghost var sent := app.channel.queue;
    assert sent[..0] == [];
    app.ProcessEvents();
    FoundDrivesAreSelected(start, found, form);
    assert app.State() == Reduce(Scanning(start), DrivesFound(found));
    thread := app.StartVerification(form);
  }
}
