/** The bytes of a whole run: what the jobs report against what the planner announced
    (src/worker/mod.rs:182-270, src/worker/plan.rs:176-210, src/app/events.rs:45-73). */
module Budget {
  import opened Prelude
  import opened Events
  import opened Planner
  import opened Primitives
  import GuiApp
  import Jobs
  import Phases
  import Plan
  import Pool
  import PoolRuns
  import Sha256sum
  import WorkerRun

  // ── What a run reports ──────────────────────────────────────────────────────

  function SumProgress(events: seq<Event>): nat {
    if events == [] then 0
    else
      var last := events[|events| - 1];
      SumProgress(events[..|events| - 1]) + if last.Progress? then last.delta else 0
  }

  function SumJobs(cost: Job -> nat, jobs: seq<Job>): nat {
    if jobs == [] then 0 else SumJobs(cost, jobs[..|jobs| - 1]) + cost(jobs[|jobs| - 1])
  }

  /** The progress of all jobs planned for the drives. */
  function TotalCost(cost: Job -> nat, drives: seq<Drive>): nat {
    if drives == [] then 0
    else
      var i := |drives| - 1;
      TotalCost(cost, drives[..i]) + SumJobs(cost, ShaJobs(i, drives[i].manifests))
      + if drives[i].embedded.Some? then cost(EmbeddedDrive(i)) else 0
  }

  // ── What each part may cost ─────────────────────────────────────────────────

  /** Loading a manifest reports no more than was estimated for it. */
  predicate ManifestsFit(manifests: seq<Manifest>) {
    forall j :: 0 <= j < |manifests| && manifests[j].progress.Some? ==>
      Saturated(manifests[j].progress.value) <= manifests[j].estimate
  }

  /** No job reports more than was estimated for it. */
  predicate EntriesFit(cost: Job -> nat, drive: nat, manifests: seq<Manifest>) {
    forall j, e {:trigger Entry(drive, j, e)} ::
      0 <= j < |manifests| && manifests[j].targets.Some? && 0 <= e < |manifests[j].targets.value| ==>
        Saturated(cost(Entry(drive, j, e))) <= manifests[j].targets.value[e]
  }

  predicate DriveFits(cost: Job -> nat, drive: nat, d: Drive) {
    && ManifestsFit(d.manifests) && EntriesFit(cost, drive, d.manifests)
    && (d.embedded.Some? ==> Saturated(cost(EmbeddedDrive(drive))) <= d.embedded.value)
  }

  predicate AllFit(cost: Job -> nat, drives: seq<Drive>) {
    forall i :: 0 <= i < |drives| ==> DriveFits(cost, i, drives[i])
  }

  // ── Laws ────────────────────────────────────────────────────────────────────

  lemma FitsAdd(a: nat, x: nat, b: nat, y: nat)
    requires Saturated(a) <= x && Saturated(b) <= y
    ensures Saturated(a + b) <= x + y
  {
  }

  lemma {:induction false} SumJobsConcat(cost: Job -> nat, a: seq<Job>, b: seq<Job>)
    ensures SumJobs(cost, a + b) == SumJobs(cost, a) + SumJobs(cost, b)
  {
    if b == [] {
      assert a + b == a;
    } else {
      SumJobsConcat(cost, a, b[..|b| - 1]);
      assert (a + b)[..|a + b| - 1] == a + b[..|b| - 1];
    }
  }

  lemma {:induction false} EntriesWithinTargets(cost: Job -> nat, drive: nat, manifest: nat, targets: seq<nat>)
    requires forall e :: 0 <= e < |targets| ==> Saturated(cost(Entry(drive, manifest, e))) <= targets[e]
    ensures Saturated(SumJobs(cost, EntryJobs(drive, manifest, |targets|))) <= Total(targets)
  {
    if targets != [] {
      var n := |targets| - 1;
      EntriesWithinTargets(cost, drive, manifest, targets[..n]);
      var jobs := EntryJobs(drive, manifest, |targets|);
      assert jobs[..n] == EntryJobs(drive, manifest, n) && jobs[n] == Entry(drive, manifest, n);
      FitsAdd(SumJobs(cost, jobs[..n]), Total(targets[..n]), cost(jobs[n]), targets[n]);
    }
  }

  lemma {:induction false} ShaJobsWithinTargets(cost: Job -> nat, drive: nat, manifests: seq<Manifest>)
    requires EntriesFit(cost, drive, manifests)
    ensures Saturated(SumJobs(cost, ShaJobs(drive, manifests))) <= OverManifests(TARGETS, manifests)
  {
    if manifests != [] {
      var j := |manifests| - 1;
      assert EntriesFit(cost, drive, manifests[..j]);
      ShaJobsWithinTargets(cost, drive, manifests[..j]);
      if manifests[j].targets.Some? {
        var targets := manifests[j].targets.value;
        forall e | 0 <= e < |targets| ensures Saturated(cost(Entry(drive, j, e))) <= targets[e] {
          assert manifests[j].targets.value[e] == targets[e];
        }
        EntriesWithinTargets(cost, drive, j, targets);
        SumJobsConcat(cost, ShaJobs(drive, manifests[..j]), EntryJobs(drive, j, |targets|));
        FitsAdd(SumJobs(cost, ShaJobs(drive, manifests[..j])), OverManifests(TARGETS, manifests[..j]),
                SumJobs(cost, EntryJobs(drive, j, |targets|)), Total(targets));
      } else {
        assert ShaJobs(drive, manifests[..j]) + [] == ShaJobs(drive, manifests[..j]);
      }
    }
  }

  lemma {:induction false} JobsWithinPlan(cost: Job -> nat, drives: seq<Drive>)
    requires AllFit(cost, drives)
    ensures Saturated(TotalCost(cost, drives)) <= OverDrives(TARGETS, drives) + EmbeddedBytes(drives)
  {
    if drives != [] {
      var i := |drives| - 1;
      var d := drives[i];
      assert DriveFits(cost, i, d);
      hide DriveFits;
      JobsWithinPlan(cost, drives[..i]);
      assert EntriesFit(cost, i, d.manifests) by { DriveFitsParts(cost, i, d); }
      ShaJobsWithinTargets(cost, i, d.manifests);
      FitsAdd(TotalCost(cost, drives[..i]), OverDrives(TARGETS, drives[..i]) + EmbeddedBytes(drives[..i]),
              SumJobs(cost, ShaJobs(i, d.manifests)), OverManifests(TARGETS, d.manifests));
      DriveFitsParts(cost, i, d);
    }
  }

  lemma DriveFitsParts(cost: Job -> nat, drive: nat, d: Drive)
    requires DriveFits(cost, drive, d)
    ensures ManifestsFit(d.manifests) && EntriesFit(cost, drive, d.manifests)
    ensures d.embedded.Some? ==> Saturated(cost(EmbeddedDrive(drive))) <= d.embedded.value
  {
  }

  lemma {:induction false} SumProgressConcat(a: seq<Event>, b: seq<Event>)
    ensures SumProgress(a + b) == SumProgress(a) + SumProgress(b)
  {
    if b == [] {
      assert a + b == a;
    } else {
      SumProgressConcat(a, b[..|b| - 1]);
      assert (a + b)[..|a + b| - 1] == a + b[..|b| - 1];
    }
  }

  lemma SumProgressOne(e: Event)
    ensures SumProgress([e]) == if e.Progress? then e.delta else 0
  {
    assert [e][..0] == [];
  }

  lemma {:induction false} ManifestsWithinEstimates(manifests: seq<Manifest>)
    requires ManifestsFit(manifests)
    ensures Saturated(SumProgress(ManifestsEvents(manifests))) <= OverManifests(ESTIMATES, manifests)
  {
    if manifests != [] {
      var j := |manifests| - 1;
      ManifestsWithinEstimates(manifests[..j]);
      SumProgressConcat(ManifestsEvents(manifests[..j]), ManifestEvents(manifests[j]));
      ManifestProgress(manifests[j]);
      FitsAdd(SumProgress(ManifestsEvents(manifests[..j])), OverManifests(ESTIMATES, manifests[..j]),
              SumProgress(ManifestEvents(manifests[j])), manifests[j].estimate);
    }
  }

  lemma ManifestProgress(m: Manifest)
    ensures SumProgress(ManifestEvents(m)) == if m.progress.Some? then m.progress.value else 0
  {
    var last := if m.targets.Some? then Log else FAILED_MANIFEST;
    SumProgressOne(last);
    if m.progress.Some? {
      SumProgressOne(Progress(m.progress.value));
      SumProgressConcat([Progress(m.progress.value)], [last]);
    } else {
      assert ManifestEvents(m) == [last];
    }
  }

  lemma {:induction false} PlanningWithinEstimates(cost: Job -> nat, drives: seq<Drive>)
    requires AllFit(cost, drives)
    ensures Saturated(SumProgress(DrivesEvents(drives))) <= OverDrives(ESTIMATES, drives)
  {
    if drives != [] {
      var i := |drives| - 1;
      var front, events := DrivesEvents(drives[..i]), ManifestsEvents(drives[i].manifests);
      assert DriveFits(cost, i, drives[i]);
      PlanningWithinEstimates(cost, drives[..i]);
      ManifestsWithinEstimates(drives[i].manifests);
      SumProgressOne(Log);
      assert [Log] + [Log] == [Log, Log];
      SumProgressConcat([Log], [Log]);
      SumProgressConcat(front, [Log, Log]);
      SumProgressConcat(front + [Log, Log], events);
      FitsAdd(SumProgress(front), OverDrives(ESTIMATES, drives[..i]),
              SumProgress(events), OverManifests(ESTIMATES, drives[i].manifests));
    }
  }

  /** The reducer's byte count is the sum of the deltas, up to saturation. */
  lemma {:induction false} ProcessedIsSum(s: GuiApp.AppState, events: seq<Event>)
    requires s.counts.processedBytes <= U64_MAX
    ensures GuiApp.ReduceAll(s, events).counts.processedBytes ==
            Min(s.counts.processedBytes + SumProgress(events), 0xffff_ffff_ffff_ffff)
  {
    hide GuiApp.Reduce;
    if events != [] {
      ProcessedIsSum(s, events[..|events| - 1]);
      ProcessedOnce(GuiApp.ReduceAll(s, events[..|events| - 1]), events[|events| - 1]);
    }
  }

  lemma ProcessedOnce(s: GuiApp.AppState, e: Event)
    ensures GuiApp.Reduce(s, e).counts.processedBytes ==
            if e.Progress? then SaturatingAdd(s.counts.processedBytes, e.delta) else s.counts.processedBytes
    ensures GuiApp.Reduce(s, e).counts.plannedBytes == if e.JobsReady? then e.totalBytes else s.counts.plannedBytes
  {
  }

  // ── What the pools report ───────────────────────────────────────────────────

  /** The jobs handed to the two pools, batch by batch: empty batches are left out. */
  function ShaBatches(batches: seq<DriveJobs>): seq<seq<Job>> {
    if batches == [] then []
    else
      var k := |batches| - 1;
      if batches[k].sha == [] then ShaBatches(batches[..k]) else ShaBatches(batches[..k]) + [batches[k].sha]
  }

  function EmbeddedBatches(batches: seq<DriveJobs>): seq<seq<Job>> {
    if batches == [] then []
    else
      var k := |batches| - 1;
      if batches[k].embedded == [] then EmbeddedBatches(batches[..k])
      else EmbeddedBatches(batches[..k]) + [batches[k].embedded]
  }

  /** The progress of the jobs whose results a trace holds. */
  function TraceCost(cost: Job -> nat, jobs: seq<seq<Job>>, trace: seq<Pool.Entry>): nat {
    if trace == [] then 0
    else TraceCost(cost, jobs, trace[..|trace| - 1]) + EntryCost(cost, jobs, trace[|trace| - 1])
  }

  function EntryCost(cost: Job -> nat, jobs: seq<seq<Job>>, e: Pool.Entry): nat {
    if e.Sent? && e.batch < |jobs| && e.job < |jobs[e.batch]| then cost(jobs[e.batch][e.job]) else 0
  }

  /** The deltas of a run are those of the jobs it ran, in any order and any pieces. */
  ghost predicate Metered(drives: seq<Drive>, cost: Job -> nat, p: Phases.Phased, execution: seq<Event>) {
    SumProgress(execution) ==
      TraceCost(cost, ShaBatches(Batches(drives)), p.sha.trace) +
      if p.embedded.None? then 0 else TraceCost(cost, EmbeddedBatches(Batches(drives)), p.embedded.value.trace)
  }

  /** An uncancelled run whose deltas are those of its jobs. */
  ghost predicate MeteredRun(drives: seq<Drive>, maxWorkers: nat, actions: seq<Phases.Action>, execution: seq<Event>,
                             cost: Job -> nat)
  {
    && WorkerRun.UncancelledRun(drives, maxWorkers, actions, execution)
    && var c := PhasesOf(drives, maxWorkers);
       Metered(drives, cost, Phases.Final(c, Phases.Start(c), actions), execution)
  }

  function NumbersCost(cost: Job -> nat, jobs: seq<Job>, numbers: seq<nat>): nat {
    if numbers == [] then 0
    else
      var n := numbers[|numbers| - 1];
      NumbersCost(cost, jobs, numbers[..|numbers| - 1]) + if n < |jobs| then cost(jobs[n]) else 0
  }

  function CostBelow(cost: Job -> nat, jobs: seq<seq<Job>>, trace: seq<Pool.Entry>, n: nat): nat {
    if n == 0 || n > |jobs| then 0
    else CostBelow(cost, jobs, trace, n - 1) + NumbersCost(cost, jobs[n - 1], PoolRuns.Numbers(trace, n - 1, false))
  }

  function SumBatches(cost: Job -> nat, jobs: seq<seq<Job>>): nat {
    if jobs == [] then 0 else SumBatches(cost, jobs[..|jobs| - 1]) + SumJobs(cost, jobs[|jobs| - 1])
  }

  lemma NumbersCostAppend(cost: Job -> nat, jobs: seq<Job>, numbers: seq<nat>, n: nat)
    ensures NumbersCost(cost, jobs, numbers + [n]) ==
            NumbersCost(cost, jobs, numbers) + if n < |jobs| then cost(jobs[n]) else 0
  {
    assert (numbers + [n])[..|numbers|] == numbers;
  }

  lemma {:induction false} CostBelowAppend(cost: Job -> nat, jobs: seq<seq<Job>>, trace: seq<Pool.Entry>,
                                           e: Pool.Entry, n: nat)
    requires n <= |jobs|
    ensures CostBelow(cost, jobs, trace + [e], n) ==
            CostBelow(cost, jobs, trace, n) + if e.Sent? && e.batch < n then EntryCost(cost, jobs, e) else 0
  {
    hide NumbersCost, PoolRuns.Numbers;
    if n > 0 {
      CostBelowAppend(cost, jobs, trace, e, n - 1);
      NumbersAppend(trace, e, n - 1);
      if e.Sent? && e.batch == n - 1 {
        NumbersCostAppend(cost, jobs[n - 1], PoolRuns.Numbers(trace, n - 1, false), e.job);
      }
    }
  }

  lemma NumbersAppend(trace: seq<Pool.Entry>, e: Pool.Entry, b: nat)
    ensures PoolRuns.Numbers(trace + [e], b, false) ==
            if e.Sent? && e.batch == b then PoolRuns.Numbers(trace, b, false) + [e.job]
            else PoolRuns.Numbers(trace, b, false)
  {
    assert (trace + [e])[..|trace|] == trace;
    assert PoolRuns.Numbers(trace, b, false) + [] == PoolRuns.Numbers(trace, b, false);
  }

  lemma {:induction false} CostBelowNothing(cost: Job -> nat, jobs: seq<seq<Job>>, n: nat)
    requires n <= |jobs|
    ensures CostBelow(cost, jobs, [], n) == 0
  {
    if n > 0 {
      CostBelowNothing(cost, jobs, n - 1);
    }
  }

  lemma {:induction false} TraceCostByBatch(cost: Job -> nat, jobs: seq<seq<Job>>, trace: seq<Pool.Entry>)
    ensures TraceCost(cost, jobs, trace) == CostBelow(cost, jobs, trace, |jobs|)
  {
    if trace == [] {
      CostBelowNothing(cost, jobs, |jobs|);
    } else {
      var front, last := trace[..|trace| - 1], trace[|trace| - 1];
      assert trace == front + [last];
      TraceCostByBatch(cost, jobs, front);
      CostBelowAppend(cost, jobs, front, last, |jobs|);
    }
  }

  lemma {:induction false} UpToCost(cost: Job -> nat, jobs: seq<Job>, n: nat)
    requires n <= |jobs|
    ensures NumbersCost(cost, jobs, PoolRuns.UpTo(n)) == SumJobs(cost, jobs[..n])
  {
    if n > 0 {
      UpToCost(cost, jobs, n - 1);
      assert PoolRuns.UpTo(n)[..n - 1] == PoolRuns.UpTo(n - 1) && jobs[..n][..n - 1] == jobs[..n - 1];
    }
  }

  /** A pool that ran every job reports the cost of every job. */
  lemma {:induction false} CompleteTraceCost(cost: Job -> nat, jobs: seq<seq<Job>>, trace: seq<Pool.Entry>, n: nat)
    requires n <= |jobs| && forall b :: 0 <= b < n ==> PoolRuns.Numbers(trace, b, false) == PoolRuns.UpTo(|jobs[b]|)
    ensures CostBelow(cost, jobs, trace, n) == SumBatches(cost, jobs[..n])
  {
    if n > 0 {
      CompleteTraceCost(cost, jobs, trace, n - 1);
      UpToCost(cost, jobs[n - 1], |jobs[n - 1]|);
      assert jobs[n - 1][..|jobs[n - 1]|] == jobs[n - 1] && jobs[..n][..n - 1] == jobs[..n - 1];
    }
  }

  lemma {:induction false} PhaseLengths(batches: seq<DriveJobs>)
    ensures var sha, embedded := ShaBatches(batches), EmbeddedBatches(batches);
            && |ShaPhase(batches)| == |sha| && |EmbeddedPhase(batches)| == |embedded|
            && (forall b :: 0 <= b < |sha| ==> ShaPhase(batches)[b] == |sha[b]|)
            && (forall b :: 0 <= b < |embedded| ==> EmbeddedPhase(batches)[b] == |embedded[b]|)
  {
    if batches != [] {
      PhaseLengths(batches[..|batches| - 1]);
    }
  }

  lemma SumBatchesAppend(cost: Job -> nat, jobs: seq<seq<Job>>, more: seq<Job>)
    ensures SumBatches(cost, jobs + [more]) == SumBatches(cost, jobs) + SumJobs(cost, more)
  {
    assert (jobs + [more])[..|jobs|] == jobs;
  }

  function BatchesCost(cost: Job -> nat, batches: seq<DriveJobs>): nat {
    if batches == [] then 0
    else
      var k := |batches| - 1;
      BatchesCost(cost, batches[..k]) + SumJobs(cost, batches[k].sha) + SumJobs(cost, batches[k].embedded)
  }

  lemma {:induction false} PhasesCost(cost: Job -> nat, batches: seq<DriveJobs>)
    ensures SumBatches(cost, ShaBatches(batches)) + SumBatches(cost, EmbeddedBatches(batches)) ==
            BatchesCost(cost, batches)
  {
    if batches != [] {
      var k := |batches| - 1;
      PhasesCost(cost, batches[..k]);
      SumBatchesAppend(cost, ShaBatches(batches[..k]), batches[k].sha);
      SumBatchesAppend(cost, EmbeddedBatches(batches[..k]), batches[k].embedded);
    }
  }

  lemma {:induction false} AllBatchesCost(cost: Job -> nat, drives: seq<Drive>)
    ensures BatchesCost(cost, Batches(drives)) == TotalCost(cost, drives)
  {
    if drives != [] {
      var i := |drives| - 1;
      AllBatchesCost(cost, drives[..i]);
      OneJobCost(cost, EmbeddedDrive(i));
      BatchesCostAppend(cost, Batches(drives[..i]), JobsOf(i, drives[i]));
      hide ShaJobs, SumJobs, BatchesCost;
      NothingMore(Batches(drives[..i]));
    }
  }

  lemma NothingMore(batches: seq<DriveJobs>)
    ensures batches + [] == batches
  {
  }

  lemma OneJobCost(cost: Job -> nat, job: Job)
    ensures SumJobs(cost, []) == 0 && SumJobs(cost, [job]) == cost(job)
  {
    assert [job][..0] == [];
  }

  lemma BatchesCostAppend(cost: Job -> nat, batches: seq<DriveJobs>, more: DriveJobs)
    ensures BatchesCost(cost, batches + [more]) ==
            BatchesCost(cost, batches) + SumJobs(cost, more.sha) + SumJobs(cost, more.embedded)
  {
    assert (batches + [more])[..|batches|] == batches;
  }

  /** Over a whole uncancelled run the pools report the cost of every planned job. */
  lemma RunReportsTotal(drives: seq<Drive>, maxWorkers: nat, actions: seq<Phases.Action>, execution: seq<Event>,
                        cost: Job -> nat)
    requires maxWorkers > 0 && MeteredRun(drives, maxWorkers, actions, execution, cost)
    ensures SumProgress(execution) == TotalCost(cost, drives)
  {
    hide Batches, TraceCost, Phases.Runs, Phases.Final, CostBelow, SumProgress, TotalCost, ShaPhase, EmbeddedPhase,
         WorkerRun.Streams;
    var c := PhasesOf(drives, maxWorkers);
    var p := Phases.Final(c, Phases.Start(c), actions);
    var batches := Batches(drives);
    Phases.UncancelledRunIsComplete(c, actions);
    PhaseLengths(batches);
    PoolCost(cost, ShaBatches(batches), c.sha, p.sha);
    PoolCost(cost, EmbeddedBatches(batches), c.embedded, p.embedded.value);
    PhasesCost(cost, batches);
    AllBatchesCost(cost, drives);
  }

  lemma PoolCost(cost: Job -> nat, jobs: seq<seq<Job>>, c: Pool.Config, s: Pool.State)
    requires |jobs| == |c.jobs| && forall b :: 0 <= b < |jobs| ==> c.jobs[b] == |jobs[b]|
    requires PoolRuns.Complete(c, s)
    ensures TraceCost(cost, jobs, s.trace) == SumBatches(cost, jobs)
  {
    hide PoolRuns.Numbers;
    TraceCostByBatch(cost, jobs, s.trace);
    CompleteTraceCost(cost, jobs, s.trace, |jobs|);
    assert jobs[..|jobs|] == jobs;
  }

  /** For every plan and every cost there is such a run. */
  lemma MeteredRunExists(drives: seq<Drive>, maxWorkers: nat, cost: Job -> nat)
    returns (actions: seq<Phases.Action>, execution: seq<Event>)
    requires maxWorkers > 0
    ensures MeteredRun(drives, maxWorkers, actions, execution, cost)
  {
    hide Batches, TraceCost, Phases.Runs, Phases.Final, PhasesOf, WorkerRun.RunSignals, WorkerRun.Signals, SumProgress,
         ShaBatches, EmbeddedBatches, GuiApp.SomeResults, CountJobs;
    var results;
    actions, results := WorkerRun.RunExists(drives, maxWorkers);
    var c := PhasesOf(drives, maxWorkers);
    var p := Phases.Final(c, Phases.Start(c), actions);
    var total := TraceCost(cost, ShaBatches(Batches(drives)), p.sha.trace) +
      if p.embedded.None? then 0 else TraceCost(cost, EmbeddedBatches(Batches(drives)), p.embedded.value.trace);
    execution := [Progress(total)] + results;
    WorkerRun.SignalsConcat([Progress(total)], results);
    WorkerRun.SignalsAppend([], Progress(total));
    assert [] + [Progress(total)] == [Progress(total)];
    assert WorkerRun.Signals([Progress(total)]) == [] + [] == [];
    assert WorkerRun.Signals(execution) == [] + WorkerRun.Signals(results) == WorkerRun.Signals(results);
    SumProgressConcat([Progress(total)], results);
    SumProgressOne(Progress(total));
    NoProgressInResults(CountJobs(Batches(drives)));
  }

  lemma {:induction false} NoProgressInResults(n: nat)
    ensures SumProgress(GuiApp.SomeResults(n)) == 0
  {
    if n > 0 {
      NoProgressInResults(n - 1);
      assert GuiApp.SomeResults(n)[..|GuiApp.SomeResults(n - 1)|] == GuiApp.SomeResults(n - 1);
    }
  }

  // ── Whole runs ──────────────────────────────────────────────────────────────

  /** All bytes a run reports, planning included. */
  function RunBytes(cost: Job -> nat, drives: seq<Drive>): nat {
    SumProgress(DrivesEvents(drives)) + TotalCost(cost, drives)
  }

  /** The GUI's byte count never passes the total the planner announces. */
  ghost predicate NeverPasses(drives: seq<Drive>, maxWorkers: nat, execution: seq<Event>, s: GuiApp.AppState) {
    var stream := WorkerRun.Stream(drives, maxWorkers, execution);
    forall n | 0 <= n <= |stream| ::
      GuiApp.ReduceAll(s, stream[..n]).counts.processedBytes <= ReadyEvent(drives, maxWorkers).totalBytes
  }

  lemma StreamBytes(drives: seq<Drive>, maxWorkers: nat, execution: seq<Event>)
    ensures SumProgress(WorkerRun.Stream(drives, maxWorkers, execution)) ==
            SumProgress(DrivesEvents(drives)) + SumProgress(execution)
  {
    hide SumProgress, DrivesEvents;
    var planning, ready := DrivesEvents(drives) + [Log], ReadyEvent(drives, maxWorkers);
    SumProgressOne(Log);
    SumProgressOne(ready);
    SumProgressConcat(DrivesEvents(drives), [Log]);
    SumProgressConcat(planning, [ready]);
    SumProgressConcat(planning + [ready], execution);
  }

  /** Exactly when the byte count of an uncancelled run stays within the announced total
      throughout: when the exact costs of its manifests and jobs add up to no more than
      its estimates, both up to saturation. */
  lemma RunStaysWithinPlanIff(drives: seq<Drive>, maxWorkers: nat, actions: seq<Phases.Action>,
                              execution: seq<Event>, cost: Job -> nat, s: GuiApp.AppState)
    requires maxWorkers > 0 && WorkerRun.JustStarted(s)
    requires MeteredRun(drives, maxWorkers, actions, execution, cost)
    ensures NeverPasses(drives, maxWorkers, execution, s)
            <==> Saturated(RunBytes(cost, drives)) <= Saturated(PlannedBytes(drives))
  {
    hide GuiApp.ReduceAll, SumProgress, DrivesEvents, TotalCost, MeteredRun, PlannedBytes;
    var stream := WorkerRun.Stream(drives, maxWorkers, execution);
    RunReportsTotal(drives, maxWorkers, actions, execution, cost);
    StreamBytes(drives, maxWorkers, execution);
    forall n | 0 <= n <= |stream|
      ensures GuiApp.ReduceAll(s, stream[..n]).counts.processedBytes <= Saturated(RunBytes(cost, drives))
    {
      ProcessedIsSum(s, stream[..n]);
      SumProgressConcat(stream[..n], stream[n..]);
      assert stream == stream[..n] + stream[n..];
    }
    ProcessedIsSum(s, stream);
    assert stream[..|stream|] == stream;
  }

  /** Once announced, the total stands for the rest of the run. */
  lemma TotalStands(drives: seq<Drive>, maxWorkers: nat, actions: seq<Phases.Action>, execution: seq<Event>,
                    s: GuiApp.AppState, n: nat)
    requires maxWorkers > 0 && WorkerRun.UncancelledRun(drives, maxWorkers, actions, execution)
    requires |DrivesEvents(drives)| + 2 <= n <= |WorkerRun.Stream(drives, maxWorkers, execution)|
    ensures GuiApp.ReduceAll(s, WorkerRun.Stream(drives, maxWorkers, execution)[..n]).counts.plannedBytes
         == ReadyEvent(drives, maxWorkers).totalBytes
  {
    hide GuiApp.ReduceAll, DrivesEvents, WorkerRun.UncancelledRun;
    var planning, ready := DrivesEvents(drives) + [Log], ReadyEvent(drives, maxWorkers);
    WorkerRun.ExecutionOfUncancelledRun(drives, maxWorkers, actions, execution);
    var m := n - |DrivesEvents(drives)| - 2;
    assert WorkerRun.Stream(drives, maxWorkers, execution)[..n] == planning + [ready] + execution[..m];
    PlannedStays(s, planning, ready, execution[..m]);
  }

  lemma {:induction false} PlannedStays(s: GuiApp.AppState, planning: seq<Event>, ready: Event, execution: seq<Event>)
    requires ready.JobsReady? && forall i :: 0 <= i < |execution| ==> !execution[i].JobsReady?
    ensures GuiApp.ReduceAll(s, planning + [ready] + execution).counts.plannedBytes == ready.totalBytes
    decreases |execution|
  {
    hide GuiApp.Reduce;
    var all := planning + [ready] + execution;
    if execution == [] {
      assert all[..|all| - 1] == planning && all[|all| - 1] == ready;
      ProcessedOnce(GuiApp.ReduceAll(s, planning), ready);
    } else {
      var front, last := execution[..|execution| - 1], execution[|execution| - 1];
      assert all[..|all| - 1] == planning + [ready] + front && all[|all| - 1] == last;
      PlannedStays(s, planning, ready, front);
      ProcessedOnce(GuiApp.ReduceAll(s, planning + [ready] + front), last);
    }
  }

  /** It is enough that every manifest and every job keeps to its own estimate. */
  lemma FittingRunStaysWithinPlan(cost: Job -> nat, drives: seq<Drive>)
    requires AllFit(cost, drives)
    ensures Saturated(RunBytes(cost, drives)) <= Saturated(PlannedBytes(drives))
  {
    hide DrivesEvents, AllFit, OverDrives, EmbeddedBytes, TotalCost, SumProgress;
    JobsWithinPlan(cost, drives);
    PlanningWithinEstimates(cost, drives);
    FitsAdd(SumProgress(DrivesEvents(drives)), OverDrives(ESTIMATES, drives),
            TotalCost(cost, drives), OverDrives(TARGETS, drives) + EmbeddedBytes(drives));
  }

  // ── The announced total is the sum of its parts ─────────────────────────────

  /** Every job costs exactly what was estimated for it. */
  predicate AllMeet(cost: Job -> nat, drives: seq<Drive>) {
    forall i :: 0 <= i < |drives| ==> DriveMeets(cost, i, drives[i])
  }

  predicate DriveMeets(cost: Job -> nat, drive: nat, d: Drive) {
    && (d.embedded.Some? ==> cost(EmbeddedDrive(drive)) == d.embedded.value)
    && EntriesMeet(cost, drive, d.manifests)
  }

  predicate EntriesMeet(cost: Job -> nat, drive: nat, manifests: seq<Manifest>) {
    forall j, e {:trigger Entry(drive, j, e)} ::
      0 <= j < |manifests| && manifests[j].targets.Some? && 0 <= e < |manifests[j].targets.value| ==>
        cost(Entry(drive, j, e)) == manifests[j].targets.value[e]
  }

  /** The announced total counts every manifest and every planned job once: jobs that
      meet their estimates report it exactly, but for the manifests' own share. */
  lemma {:induction false} TotalIsMet(cost: Job -> nat, drives: seq<Drive>)
    requires AllMeet(cost, drives)
    ensures PlannedBytes(drives) == OverDrives(ESTIMATES, drives) + TotalCost(cost, drives)
  {
    if drives != [] {
      var i := |drives| - 1;
      assert AllMeet(cost, drives[..i]);
      assert DriveMeets(cost, i, drives[i]);
      TotalIsMet(cost, drives[..i]);
      ShaJobsMeetTargets(cost, i, drives[i].manifests);
    }
  }

  lemma {:induction false} ShaJobsMeetTargets(cost: Job -> nat, drive: nat, manifests: seq<Manifest>)
    requires EntriesMeet(cost, drive, manifests)
    ensures SumJobs(cost, ShaJobs(drive, manifests)) == OverManifests(TARGETS, manifests)
  {
    if manifests != [] {
      var j := |manifests| - 1;
      assert EntriesMeet(cost, drive, manifests[..j]);
      ShaJobsMeetTargets(cost, drive, manifests[..j]);
      if manifests[j].targets.Some? {
        var targets := manifests[j].targets.value;
        forall e | 0 <= e < |targets| ensures cost(Entry(drive, j, e)) == targets[e] {
          assert manifests[j].targets.value[e] == targets[e];
        }
        EntriesMeetTargets(cost, drive, j, targets);
        SumJobsConcat(cost, ShaJobs(drive, manifests[..j]), EntryJobs(drive, j, |targets|));
      } else {
        assert ShaJobs(drive, manifests[..j]) + [] == ShaJobs(drive, manifests[..j]);
      }
    }
  }

  lemma {:induction false} EntriesMeetTargets(cost: Job -> nat, drive: nat, manifest: nat, targets: seq<nat>)
    requires forall e :: 0 <= e < |targets| ==> cost(Entry(drive, manifest, e)) == targets[e]
    ensures SumJobs(cost, EntryJobs(drive, manifest, |targets|)) == Total(targets)
  {
    if targets != [] {
      var n := |targets| - 1;
      EntriesMeetTargets(cost, drive, manifest, targets[..n]);
      var jobs := EntryJobs(drive, manifest, |targets|);
      assert jobs[..n] == EntryJobs(drive, manifest, n) && jobs[n] == Entry(drive, manifest, n);
    }
  }

  // ── What the jobs and manifests of real discs cost ──────────────────────────

  /** A target of a manifest entry: what its path leads to, if anything, and the digest. */
  datatype Target = Target(source: Option<Jobs.Source>, expected: string)

  /** A manifest file, and what the names in it lead to. */
  datatype ManifestFile = ManifestFile(bytes: Bytes, resolve: string -> Option<Jobs.Source>)

  datatype Disc = Disc(manifests: seq<ManifestFile>, embedded: Option<Jobs.Source>)

  /** Everything outside the discs that a run depends on. */
  datatype Setting = Setting(c: Crypto, utf8: Plan.Utf8, encryption: Jobs.EncryptionSettings)

  /** The targets are the entries the manifest loads to, in order. */
  function TargetsIn(w: Setting, m: ManifestFile): seq<Target> {
    match Plan.Loaded(w.c, w.utf8, m.bytes, w.encryption)
    case Err(_) => []
    case Ok(parsed) =>
      seq(|parsed.entries|, e requires 0 <= e < |parsed.entries| =>
        Target(m.resolve(parsed.entries[e].name), parsed.entries[e].hex))
  }

  function TargetEstimate(w: Setting, t: Target): nat {
    if t.source.None? then 0 else Jobs.EstimatedTargetBytes(t.source.value, w.encryption)
  }

  function TargetCost(w: Setting, t: Target): nat {
    if t.source.None? then 0 else Jobs.JobBytes(w.c, t.source.value, t.expected, w.encryption)
  }

  /** What the planner makes of a manifest, and of a disc. */
  function PlannedManifest(w: Setting, m: ManifestFile): Manifest {
    var targets := TargetsIn(w, m);
    Manifest(Plan.EstimatedManifestBytes(m.bytes, w.encryption), Plan.LoadProgress(w.c, m.bytes, w.encryption),
             if Plan.Loaded(w.c, w.utf8, m.bytes, w.encryption).Err? then None
             else Some(seq(|targets|, e requires 0 <= e < |targets| => TargetEstimate(w, targets[e]))))
  }

  function PlannedDrive(w: Setting, d: Disc): Drive {
    Drive(seq(|d.manifests|, j requires 0 <= j < |d.manifests| => PlannedManifest(w, d.manifests[j])),
          if d.embedded.None? then None else Some(Jobs.SourceBytes(d.embedded.value)))
  }

  function PlannedDrives(w: Setting, discs: seq<Disc>): seq<Drive> {
    seq(|discs|, i requires 0 <= i < |discs| => PlannedDrive(w, discs[i]))
  }

  /** What every job reports when nothing stops it. */
  function JobCost(w: Setting, discs: seq<Disc>, job: Job): nat {
    match job
    case Entry(i, j, e) =>
      if i < |discs| && j < |discs[i].manifests| && e < |TargetsIn(w, discs[i].manifests[j])|
      then TargetCost(w, TargetsIn(w, discs[i].manifests[j])[e]) else 0
    case EmbeddedDrive(i) =>
      if i < |discs| && discs[i].embedded.Some? then Jobs.DriveBytes(w.c, discs[i].embedded.value) else 0
  }

  function Costs(w: Setting, discs: seq<Disc>): Job -> nat {
    job => JobCost(w, discs, job)
  }

  /** Targets are files, and devices are read as their paths say. */
  ghost predicate WellKept(w: Setting, discs: seq<Disc>) {
    forall i :: 0 <= i < |discs| ==> DiscWellKept(w, discs[i])
  }

  ghost predicate DiscWellKept(w: Setting, d: Disc) {
    && (d.embedded.Some? ==> d.embedded.value.Valid())
    && forall j, e :: 0 <= j < |d.manifests| && 0 <= e < |TargetsIn(w, d.manifests[j])| ==>
         var t := TargetsIn(w, d.manifests[j])[e]; t.source.Some? ==> t.source.value.IsFile()
  }

  /** What can be seen of a disc before the run: no DBENC005 target that would be
      decrypted unplanned is too long, no embedded drive is longer than its estimate. */
  ghost predicate DiscWithin(w: Setting, d: Disc) {
    && (d.embedded.Some? ==> DriveWithin(d.embedded.value))
    && forall j, e :: 0 <= j < |d.manifests| && 0 <= e < |TargetsIn(w, d.manifests[j])| ==>
         var t := TargetsIn(w, d.manifests[j])[e];
         t.source.Some? ==> Jobs.TargetFits(w.c, t.source.value, t.expected, w.encryption)
  }

  predicate DriveWithin(t: Jobs.Source) {
    Jobs.DriveFits(t) || Jobs.SourceBytes(t) >= U64_MAX
  }

  /** Every manifest and every job of a run keeps to its estimate if and only if every
      disc is within these bounds. */
  lemma DiscsFitIff(w: Setting, discs: seq<Disc>)
    requires WellKept(w, discs)
    ensures AllFit(Costs(w, discs), PlannedDrives(w, discs))
            <==> forall i :: 0 <= i < |discs| ==> DiscWithin(w, discs[i])
  {
    hide DriveFits, DiscWithin, DiscWellKept, PlannedDrive, JobCost;
    forall i | 0 <= i < |discs|
      ensures DriveFits(Costs(w, discs), i, PlannedDrives(w, discs)[i]) <==> DiscWithin(w, discs[i])
    {
      DiscFitsIff(w, discs, i);
    }
  }

  lemma DiscFitsIff(w: Setting, discs: seq<Disc>, i: nat)
    requires i < |discs| && DiscWellKept(w, discs[i])
    ensures DriveFits(Costs(w, discs), i, PlannedDrive(w, discs[i])) <==> DiscWithin(w, discs[i])
  {
    hide TargetsIn, PlannedManifest, TargetEstimate, TargetCost, Jobs.DriveFits, Jobs.TargetFits, Jobs.SourceBytes,
         Jobs.DriveBytes;
    var d, cost := discs[i], Costs(w, discs);
    var p := PlannedDrive(w, d);
    forall j | 0 <= j < |d.manifests|
      ensures p.manifests[j].progress.Some? ==> Saturated(p.manifests[j].progress.value) <= p.manifests[j].estimate
    {
      ManifestFits(w, d.manifests[j]);
    }
    forall j, e | 0 <= j < |d.manifests| && 0 <= e < |TargetsIn(w, d.manifests[j])|
      ensures EntryPlanned(p.manifests[j], e)
      ensures Saturated(cost(Entry(i, j, e))) <= p.manifests[j].targets.value[e]
              <==> (var t := TargetsIn(w, d.manifests[j])[e];
                    t.source.Some? ==> Jobs.TargetFits(w.c, t.source.value, t.expected, w.encryption))
    {
      EntryFitsIff(w, d.manifests[j], e);
    }
    forall j | 0 <= j < |d.manifests| && p.manifests[j].targets.Some?
      ensures |p.manifests[j].targets.value| == |TargetsIn(w, d.manifests[j])|
    {
      SameEntries(w, d.manifests[j]);
    }
    if d.embedded.Some? {
      Jobs.DriveFitsIff(w.c, d.embedded.value);
    }
    if DriveFits(cost, i, p) {
      forall j, e | 0 <= j < |d.manifests| && 0 <= e < |TargetsIn(w, d.manifests[j])|
        ensures var t := TargetsIn(w, d.manifests[j])[e];
                t.source.Some? ==> Jobs.TargetFits(w.c, t.source.value, t.expected, w.encryption)
      {
        assert EntryPlanned(p.manifests[j], e);
        assert Saturated(cost(Entry(i, j, e))) <= p.manifests[j].targets.value[e];
      }
    }
  }

  predicate EntryPlanned(m: Manifest, e: nat) {
    m.targets.Some? && e < |m.targets.value|
  }

  lemma SameEntries(w: Setting, m: ManifestFile)
    ensures var p := PlannedManifest(w, m); p.targets.Some? ==> |p.targets.value| == |TargetsIn(w, m)|
  {
    hide TargetsIn, Plan.Loaded;
  }

  lemma ManifestFits(w: Setting, m: ManifestFile)
    ensures var p := PlannedManifest(w, m); p.progress.Some? ==> Saturated(p.progress.value) <= p.estimate
  {
    hide TargetsIn, Plan.Loaded, Plan.LoadProgress, Plan.EstimatedManifestBytes;
    Plan.LoadProgressFits(w.c, m.bytes, w.encryption);
  }

  /** One entry of a manifest keeps to its estimate exactly when its target does. */
  lemma EntryFitsIff(w: Setting, m: ManifestFile, e: nat)
    requires e < |TargetsIn(w, m)|
    requires var t := TargetsIn(w, m)[e]; t.source.Some? ==> t.source.value.IsFile()
    ensures EntryPlanned(PlannedManifest(w, m), e)
    ensures var t := TargetsIn(w, m)[e];
            Saturated(TargetCost(w, t)) <= PlannedManifest(w, m).targets.value[e]
            <==> (t.source.Some? ==> Jobs.TargetFits(w.c, t.source.value, t.expected, w.encryption))
  {
    hide Plan.Loaded, Jobs.JobBytes, Jobs.EstimatedTargetBytes, Jobs.TargetFits, Plan.LoadProgress,
         Plan.EstimatedManifestBytes;
    var t := TargetsIn(w, m)[e];
    if t.source.Some? {
      Jobs.JobFitsIff(w.c, t.source.value, t.expected, w.encryption);
    }
  }

  /** The run over real discs: within these bounds its byte count never passes the
      announced total. */
  lemma DiscsStayWithinPlan(w: Setting, discs: seq<Disc>, maxWorkers: nat, actions: seq<Phases.Action>,
                            execution: seq<Event>, s: GuiApp.AppState)
    requires WellKept(w, discs) && forall i :: 0 <= i < |discs| ==> DiscWithin(w, discs[i])
    requires maxWorkers > 0 && WorkerRun.JustStarted(s)
    requires MeteredRun(PlannedDrives(w, discs), maxWorkers, actions, execution, Costs(w, discs))
    ensures NeverPasses(PlannedDrives(w, discs), maxWorkers, execution, s)
  {
    hide MeteredRun, NeverPasses, DiscWithin, DiscWellKept, AllFit, RunBytes, PlannedBytes, PlannedDrive, JobCost;
    DiscsFitIff(w, discs);
    FittingRunStaysWithinPlan(Costs(w, discs), PlannedDrives(w, discs));
    RunStaysWithinPlanIff(PlannedDrives(w, discs), maxWorkers, actions, execution, Costs(w, discs), s);
  }

  /** And a run that passes it: one Linux drive whose track goes on past the size its
      descriptor declares. */
  lemma DiscCanOverrun(w: Setting, s: GuiApp.AppState)
    returns (discs: seq<Disc>, actions: seq<Phases.Action>, execution: seq<Event>)
    requires WorkerRun.JustStarted(s)
    ensures WellKept(w, discs) && |discs| == 1 && discs[0].manifests == [] && discs[0].embedded.Some?
    ensures discs[0].embedded.value.path == Jobs.Path(Jobs.Linux, "/dev/sr0", "sr0")
    ensures MeteredRun(PlannedDrives(w, discs), 1, actions, execution, Costs(w, discs))
    ensures !NeverPasses(PlannedDrives(w, discs), 1, execution, s)
  {
    hide MeteredRun, NeverPasses, SumProgress, DrivesEvents, Jobs.DriveBytes, Jobs.SourceBytes, Jobs.DriveFits;
    var t := Jobs.EmbeddedCanOverrun(w.c);
    discs := [Disc([], Some(t))];
    var drives, cost := PlannedDrives(w, discs), Costs(w, discs);
    actions, execution := MeteredRunExists(drives, 1, cost);
    RunStaysWithinPlanIff(drives, 1, actions, execution, cost, s);
    assert drives == [Drive([], Some(0))];
    OneDrive(cost, drives);
  }

  lemma OneDrive(cost: Job -> nat, drives: seq<Drive>)
    requires drives == [Drive([], Some(0))]
    ensures PlannedBytes(drives) == 0 && RunBytes(cost, drives) >= cost(EmbeddedDrive(0))
  {
    var d := Drive([], Some(0));
    OverOneDrive(ESTIMATES, d);
    OverOneDrive(TARGETS, d);
    OneDriveParts(cost, d);
    assert OverManifests(ESTIMATES, []) == OverManifests(TARGETS, []) == 0;
    hide OverDrives, EmbeddedBytes, TotalCost;
    assert drives == [d] && PlannedBytes([d]) == 0;
  }

  lemma OneDriveParts(cost: Job -> nat, d: Drive)
    ensures EmbeddedBytes([d]) == if d.embedded.Some? then d.embedded.value else 0
    ensures d.embedded.Some? ==> TotalCost(cost, [d]) >= cost(EmbeddedDrive(0))
  {
    assert [d][..0] == [];
  }

  lemma OverOneDrive(f: Manifest -> nat, d: Drive)
    ensures OverDrives(f, [d]) == OverManifests(f, d.manifests)
  {
    assert [d][..0] == [];
  }
}
