/** The planning stage of `verify_drives_worker` (src/worker/mod.rs:158-270). What the
    file system says about drives and manifests is a parameter. */
module Planner {
  import opened Prelude
  import opened Events
  import GuiApp
  import Pool
  import PoolRuns
  import Phases

  // ── What is planned ─────────────────────────────────────────────────────────

  /** A manifest found on a drive: its byte estimate, the progress reported for
      decrypting it, and the byte estimates of the targets it lists, if it loads. */
  datatype Manifest = Manifest(estimate: nat, progress: Option<nat>, targets: Option<seq<nat>>)

  /** `embedded` is the byte estimate of the drive's own embedded-ISOB3 target. */
  datatype Drive = Drive(manifests: seq<Manifest>, embedded: Option<nat>)

  /** A job, named by where it comes from. */
  datatype Job = Entry(drive: nat, manifest: nat, entry: nat) | EmbeddedDrive(drive: nat)

  datatype DriveJobs = DriveJobs(sha: seq<Job>, embedded: seq<Job>)

  /** The jobs of the first n entries of one manifest. */
  function EntryJobs(drive: nat, manifest: nat, n: nat): (jobs: seq<Job>)
    ensures |jobs| == n
  {
    seq(n, e requires 0 <= e => Entry(drive, manifest, e))
  }

  function ShaJobs(drive: nat, manifests: seq<Manifest>): seq<Job> {
    if manifests == [] then []
    else
      var j := |manifests| - 1;
      ShaJobs(drive, manifests[..j]) +
      if manifests[j].targets.Some? then EntryJobs(drive, j, |manifests[j].targets.value|) else []
  }

  function JobsOf(drive: nat, d: Drive): DriveJobs {
    DriveJobs(ShaJobs(drive, d.manifests), if d.embedded.Some? then [EmbeddedDrive(drive)] else [])
  }

  /** Drives without any job are left out. */
  function Batches(drives: seq<Drive>): seq<DriveJobs> {
    if drives == [] then []
    else
      var i := |drives| - 1;
      var jobs := JobsOf(i, drives[i]);
      Batches(drives[..i]) + if jobs.sha != [] || jobs.embedded != [] then [jobs] else []
  }

  function CountJobs(batches: seq<DriveJobs>): nat {
    if batches == [] then 0
    else
      var k := |batches| - 1;
      CountJobs(batches[..k]) + |batches[k].sha| + |batches[k].embedded|
  }

  // ── What is announced ───────────────────────────────────────────────────────

  const FAILED_MANIFEST := Result(VerificationResult(false, 0))

  function ManifestEvents(m: Manifest): seq<Event> {
    (if m.progress.Some? then [Progress(m.progress.value)] else [])
    + [if m.targets.Some? then Log else FAILED_MANIFEST]
  }

  function ManifestsEvents(manifests: seq<Manifest>): seq<Event> {
    if manifests == [] then []
    else
      var j := |manifests| - 1;
      ManifestsEvents(manifests[..j]) + ManifestEvents(manifests[j])
  }

  function DrivesEvents(drives: seq<Drive>): seq<Event> {
    if drives == [] then []
    else
      var i := |drives| - 1;
      DrivesEvents(drives[..i]) + [Log, Log] + ManifestsEvents(drives[i].manifests)
  }

  // ── Exact byte totals and failures ──────────────────────────────────────────

  function Total(xs: seq<nat>): nat {
    if xs == [] then 0 else Total(xs[..|xs| - 1]) + xs[|xs| - 1]
  }

  function TargetsOf(m: Manifest): nat {
    if m.targets.Some? then Total(m.targets.value) else 0
  }

  function FailureOf(m: Manifest): nat {
    if m.targets.None? then 1 else 0
  }

  /** Sum of a measure over the manifests of one drive. */
  function OverManifests(f: Manifest -> nat, manifests: seq<Manifest>): nat {
    if manifests == [] then 0
    else OverManifests(f, manifests[..|manifests| - 1]) + f(manifests[|manifests| - 1])
  }

  function OverDrives(f: Manifest -> nat, drives: seq<Drive>): nat {
    if drives == [] then 0
    else OverDrives(f, drives[..|drives| - 1]) + OverManifests(f, drives[|drives| - 1].manifests)
  }

  function EmbeddedBytes(drives: seq<Drive>): nat {
    if drives == [] then 0
    else
      var d := drives[|drives| - 1];
      EmbeddedBytes(drives[..|drives| - 1]) + if d.embedded.Some? then d.embedded.value else 0
  }

  const ESTIMATES: Manifest -> nat := (m: Manifest) => m.estimate
  const TARGETS: Manifest -> nat := (m: Manifest) => TargetsOf(m)
  const FAILED: Manifest -> nat := (m: Manifest) => FailureOf(m)

  function Failures(drives: seq<Drive>): nat {
    OverDrives(FAILED, drives)
  }

  function PlannedBytes(drives: seq<Drive>): nat {
    OverDrives(ESTIMATES, drives) + OverDrives(TARGETS, drives) + EmbeddedBytes(drives)
  }

  function Saturated(n: nat): nat {
    Min(n, U64_MAX)
  }

  // ── Laws ────────────────────────────────────────────────────────────────────

  lemma ManifestAnnounced(m: Manifest)
    ensures GuiApp.IsPlanning(ManifestEvents(m)) && CountResults(ManifestEvents(m)) == FailureOf(m)
  {
    var first := if m.progress.Some? then [Progress(m.progress.value)] else [];
    var last := if m.targets.Some? then Log else FAILED_MANIFEST;
    CountResultsAppend([], Progress(0));
    assert m.progress.Some? ==> [] + [Progress(m.progress.value)] == first;
    assert first == [] || first[..0] == [];
    CountResultsAppend(first, last);
  }

  lemma {:induction false} ManifestsAnnounced(manifests: seq<Manifest>)
    ensures GuiApp.IsPlanning(ManifestsEvents(manifests))
    ensures CountResults(ManifestsEvents(manifests)) == OverManifests(FAILED, manifests)
  {
    if manifests != [] {
      var j := |manifests| - 1;
      ManifestsAnnounced(manifests[..j]);
      ManifestAnnounced(manifests[j]);
      CountResultsConcat(ManifestsEvents(manifests[..j]), ManifestEvents(manifests[j]));
    }
  }

  /** Planning reports one result for each manifest that failed to load, and nothing
      else the GUI counts. */
  lemma {:induction false} DrivesAnnounced(drives: seq<Drive>)
    ensures GuiApp.IsPlanning(DrivesEvents(drives))
    ensures CountResults(DrivesEvents(drives)) == Failures(drives)
  {
    if drives != [] {
      var i := |drives| - 1;
      DrivesAnnounced(drives[..i]);
      ManifestsAnnounced(drives[i].manifests);
      CountResultsAppend([Log], Log);
      CountResultsAppend([], Log);
      assert [Log] + [Log] == [Log, Log] && [] + [Log] == [Log];
      CountResultsConcat(DrivesEvents(drives[..i]), [Log, Log]);
      CountResultsConcat(DrivesEvents(drives[..i]) + [Log, Log], ManifestsEvents(drives[i].manifests));
    }
  }

  /** One entry of a drive comes before another: an earlier manifest, or the same and an
      earlier line. */
  predicate Before(a: Job, b: Job) {
    a.Entry? && b.Entry? && (a.manifest < b.manifest || (a.manifest == b.manifest && a.entry < b.entry))
  }

  /** The jobs of a drive are each entry of each loaded manifest, exactly once, manifest
      by manifest and line by line. */
  lemma {:induction false} ShaJobsBelong(drive: nat, manifests: seq<Manifest>)
    ensures forall k :: 0 <= k < |ShaJobs(drive, manifests)| ==>
              var job := ShaJobs(drive, manifests)[k];
              && job.Entry? && job.drive == drive && job.manifest < |manifests|
              && manifests[job.manifest].targets.Some? && job.entry < |manifests[job.manifest].targets.value|
    ensures forall k, l :: 0 <= k < l < |ShaJobs(drive, manifests)| ==>
              Before(ShaJobs(drive, manifests)[k], ShaJobs(drive, manifests)[l])
    ensures forall m, e ::
              0 <= m < |manifests| && manifests[m].targets.Some? && 0 <= e < |manifests[m].targets.value| ==>
                Entry(drive, m, e) in ShaJobs(drive, manifests)
  {
    if manifests != [] {
      var j := |manifests| - 1;
      ShaJobsBelong(drive, manifests[..j]);
      var front := ShaJobs(drive, manifests[..j]);
      var last := if manifests[j].targets.Some? then EntryJobs(drive, j, |manifests[j].targets.value|) else [];
      assert ShaJobs(drive, manifests) == front + last;
      forall m, e | 0 <= m < |manifests| && manifests[m].targets.Some? && 0 <= e < |manifests[m].targets.value|
        ensures Entry(drive, m, e) in ShaJobs(drive, manifests)
      {
        if m == j {
          assert last[e] == Entry(drive, m, e);
        } else {
          assert Entry(drive, m, e) in front;
        }
      }
    }
  }

  /** What planning reports as results are failures that processed nothing. */
  lemma {:induction false} FailuresAreInvalid(drives: seq<Drive>)
    ensures forall r :: r in GuiApp.ResultsOf(DrivesEvents(drives)) ==> r == VerificationResult(false, 0)
  {
    hide ManifestsEvents;
    if drives != [] {
      var i := |drives| - 1;
      FailuresAreInvalid(drives[..i]);
      ManifestFailures(drives[i].manifests);
      var before := DrivesEvents(drives[..i]);
      GuiApp.ResultsOfConcat(before + [Log, Log], ManifestsEvents(drives[i].manifests));
      GuiApp.ResultsOfAppend(before, Log);
      GuiApp.ResultsOfAppend(before + [Log], Log);
      assert before + [Log] + [Log] == before + [Log, Log];
    }
  }

  lemma {:induction false} ManifestFailures(manifests: seq<Manifest>)
    ensures forall r :: r in GuiApp.ResultsOf(ManifestsEvents(manifests)) ==> r == VerificationResult(false, 0)
  {
    if manifests != [] {
      var j := |manifests| - 1;
      ManifestFailures(manifests[..j]);
      var m := manifests[j];
      GuiApp.ResultsOfConcat(ManifestsEvents(manifests[..j]), ManifestEvents(m));
      var first := if m.progress.Some? then [Progress(m.progress.value)] else [];
      GuiApp.ResultsOfAppend(first, if m.targets.Some? then Log else FAILED_MANIFEST);
      GuiApp.ResultsOfAppend([], Progress(0));
      assert first == [] || first[..0] == [];
    }
  }

  // ── The code ────────────────────────────────────────────────────────────────

  /** The sending end of the GUI's channel. Unless `connected`, the receiver may be
      gone, and sends then fail. */
  class Sender {
    const connected: bool
    ghost var sent: seq<Event>

    constructor (connected: bool)
      ensures this.connected == connected && sent == []
    {
      this.connected := connected;
      sent := [];
    }

    method Send(event: Event) returns (ok: bool)
      modifies this
      ensures connected ==> ok
      ensures sent == if ok then old(sent) + [event] else old(sent)
    {
      var alive: bool := *;
      ok := connected || alive;
      if ok {
        sent := sent + [event];
      }
    }
  }

  datatype Totals = Totals(manifests: nat, targets: nat, embedded: nat)

  datatype Outcome<T> = Planned(value: T) | Cancelled | Disconnected

  /** The entries of one loaded manifest. */
  method PlanEntries(drive: nat, manifest: nat, targets: seq<nat>, before: nat) returns (jobs: seq<Job>, bytes: nat)
    requires before <= U64_MAX
    ensures jobs == EntryJobs(drive, manifest, |targets|)
    ensures bytes == Saturated(before + Total(targets))
  {
    jobs, bytes := [], before;
    for e := 0 to |targets|
      invariant jobs == EntryJobs(drive, manifest, e)
      invariant bytes == Saturated(before + Total(targets[..e]))
    {
      assert targets[..e + 1][..e] == targets[..e];
      bytes := SaturatingAdd(bytes, targets[e]);
      jobs := jobs + [Entry(drive, manifest, e)];
    }
    assert targets[..|targets|] == targets;
  }

  /** One manifest: loading it, announcing it, listing its entries. */
  method PlanManifest(tx: Sender, drive: nat, manifest: nat, m: Manifest, before: Totals)
    returns (r: Outcome<seq<Job>>, totals: Totals)
    requires before.manifests <= U64_MAX && before.targets <= U64_MAX
    modifies tx
    ensures !r.Cancelled? && (tx.connected ==> r.Planned?)
    ensures r.Planned? && tx.connected ==> tx.sent == old(tx.sent) + ManifestEvents(m)
    ensures r.Planned? ==>
              && r.value == (if m.targets.Some? then EntryJobs(drive, manifest, |m.targets.value|) else [])
              && totals == Totals(Saturated(before.manifests + m.estimate), Saturated(before.targets + TargetsOf(m)),
                                  before.embedded)
  {
    totals := before.(manifests := SaturatingAdd(before.manifests, m.estimate));
    var ok;
    if m.progress.Some? {
      ok := tx.Send(Progress(m.progress.value));
    }
    assert tx.connected ==>
        tx.sent == old(tx.sent) + (if m.progress.Some? then [Progress(m.progress.value)] else []);
    match m.targets
    case Some(targets) =>
      ok := tx.Send(Log);
      if !ok {
        return Disconnected, totals;
      }
      var jobs, bytes := PlanEntries(drive, manifest, targets, totals.targets);
      return Planned(jobs), totals.(targets := bytes);
    case None =>
      ok := tx.Send(FAILED_MANIFEST);
      if !ok {
        return Disconnected, totals;
      }
      return Planned([]), totals;
  }

  /** What planning the first drives has accumulated. */
  function TotalsOf(drives: seq<Drive>, manifests: seq<Manifest>): Totals {
    Totals(Saturated(OverDrives(ESTIMATES, drives) + OverManifests(ESTIMATES, manifests)),
           Saturated(OverDrives(TARGETS, drives) + OverManifests(TARGETS, manifests)),
           Saturated(EmbeddedBytes(drives)))
  }

  lemma NextManifest(drives: seq<Drive>, manifests: seq<Manifest>, j: nat)
    requires j < |manifests|
    ensures manifests[..j + 1][..j] == manifests[..j]
    ensures TotalsOf(drives, manifests[..j + 1]) ==
            TotalsOf(drives, manifests[..j]).(
              manifests := Saturated(TotalsOf(drives, manifests[..j]).manifests + manifests[j].estimate),
              targets := Saturated(TotalsOf(drives, manifests[..j]).targets + TargetsOf(manifests[j])))
  {
    assert manifests[..j + 1][..j] == manifests[..j];
  }

  /** The manifests of one drive, with a look at the cancel flag before each. */
  method PlanManifests(tx: Sender, ghost before: seq<Drive>, drive: nat, manifests: seq<Manifest>, start: Totals,
                       mayCancel: bool)
    returns (r: Outcome<seq<Job>>, totals: Totals)
    requires start == TotalsOf(before, [])
    modifies tx
    ensures r.Planned? ==> r.value == ShaJobs(drive, manifests) && totals == TotalsOf(before, manifests)
    ensures tx.connected && r.Planned? ==> tx.sent == old(tx.sent) + ManifestsEvents(manifests)
    ensures tx.connected && r.Cancelled? ==> CancelledAfter(old(tx.sent), tx.sent)
    ensures (r.Cancelled? ==> mayCancel) && (r.Disconnected? ==> !tx.connected)
  {
    hide TotalsOf, ManifestsEvents, ManifestEvents, ShaJobs, EntryJobs, CancelledAfter, GuiApp.IsPlanning;
    totals := start;
    var sha := [];
    NoManifests(drive, before);
    for j := 0 to |manifests|
      invariant sha == ShaJobs(drive, manifests[..j])
      invariant totals == TotalsOf(before, manifests[..j])
      invariant tx.connected ==> tx.sent == old(tx.sent) + ManifestsEvents(manifests[..j])
    {
      var cancel: bool := *;
      if mayCancel && cancel {
        ManifestsAnnounced(manifests[..j]);
        StoppedAt(old(tx.sent), ManifestsEvents(manifests[..j]));
        var _ := tx.Send(Event.Aborted);
        return Cancelled, totals;
      }
      TotalsBounded(before, manifests[..j]);
      var planned;
      planned, totals := PlanManifest(tx, drive, j, manifests[j], totals);
      if !planned.Planned? {
        return Disconnected, totals;
      }
      NextManifest(before, manifests, j);
      MoreManifests(drive, manifests, j);
      ConcatAssociates(old(tx.sent), ManifestsEvents(manifests[..j]), ManifestEvents(manifests[j]));
      sha := sha + planned.value;
    }
    assert manifests[..|manifests|] == manifests;
    return Planned(sha), totals;
  }

  /** The manifests of one drive, then its embedded target. */
  method PlanDrive(tx: Sender, ghost before: seq<Drive>, drive: nat, d: Drive, start: Totals, mayCancel: bool)
    returns (r: Outcome<DriveJobs>, totals: Totals)
    requires start == TotalsOf(before, []) && drive == |before|
    modifies tx
    ensures r.Planned? ==> r.value == JobsOf(drive, d) && totals == TotalsOf(before + [d], [])
    ensures tx.connected && r.Planned? ==> tx.sent == old(tx.sent) + [Log, Log] + ManifestsEvents(d.manifests)
    ensures tx.connected && r.Cancelled? ==> CancelledAfter(old(tx.sent), tx.sent)
    ensures (r.Cancelled? ==> mayCancel) && (r.Disconnected? ==> !tx.connected)
  {
    hide TotalsOf, ManifestsEvents, ShaJobs, CancelledAfter;
    totals := start;
    var cancel: bool := *;
    if mayCancel && cancel {
      StoppedAt(tx.sent, []);
      var _ := tx.Send(Event.Aborted);
      return Cancelled, totals;
    }
    var ok := tx.Send(Log);
    if !ok {
      return Disconnected, totals;
    }
    ok := tx.Send(Log);
    if !ok {
      return Disconnected, totals;
    }
    assert tx.connected ==> tx.sent == old(tx.sent) + [Log, Log];
    var planned;
    planned, totals := PlanManifests(tx, before, drive, d.manifests, totals, mayCancel);
    match planned {
      case Planned(sha) =>
        DriveDone(before, d);
        if d.embedded.Some? {
          totals := totals.(embedded := SaturatingAdd(totals.embedded, d.embedded.value));
        }
        return Planned(DriveJobs(sha, if d.embedded.Some? then [EmbeddedDrive(drive)] else [])), totals;
      case Cancelled =>
        if tx.connected {
          CancelledLater(old(tx.sent), [Log, Log], tx.sent);
        }
        return Cancelled, totals;
      case Disconnected =>
        return Disconnected, totals;
    }
  }

  /** Planning stopped on cancel: only planning events, then `Aborted`; no totals. */
  ghost predicate CancelledAfter(before: seq<Event>, after: seq<Event>) {
    exists planning :: GuiApp.IsPlanning(planning) && after == before + planning + [Event.Aborted]
  }

  lemma StoppedAt(before: seq<Event>, planning: seq<Event>)
    requires GuiApp.IsPlanning(planning)
    ensures CancelledAfter(before, before + planning + [Event.Aborted])
    ensures planning == [] ==> CancelledAfter(before, before + [Event.Aborted])
  {
    assert planning == [] ==> before + planning == before;
  }

  lemma NoManifests(drive: nat, before: seq<Drive>)
    ensures ShaJobs(drive, []) == [] && ManifestsEvents([]) == []
  {
  }

  lemma TotalsBounded(drives: seq<Drive>, manifests: seq<Manifest>)
    ensures var t := TotalsOf(drives, manifests); t.manifests <= U64_MAX && t.targets <= U64_MAX
  {
  }

  lemma MoreManifests(drive: nat, manifests: seq<Manifest>, j: nat)
    requires j < |manifests|
    ensures ManifestsEvents(manifests[..j + 1]) == ManifestsEvents(manifests[..j]) + ManifestEvents(manifests[j])
    ensures ShaJobs(drive, manifests[..j + 1]) ==
            ShaJobs(drive, manifests[..j]) +
            if manifests[j].targets.Some? then EntryJobs(drive, j, |manifests[j].targets.value|) else []
  {
    assert manifests[..j + 1][..j] == manifests[..j];
  }

  lemma DriveDone(before: seq<Drive>, d: Drive)
    ensures var t := TotalsOf(before, d.manifests);
            TotalsOf(before + [d], []) ==
            t.(embedded := if d.embedded.Some? then SaturatingAdd(t.embedded, d.embedded.value) else t.embedded)
  {
    assert (before + [d])[..|before|] == before;
  }

  // ── All drives ──────────────────────────────────────────────────────────────

  function ReadyEvent(drives: seq<Drive>, maxWorkers: nat): Event {
    JobsReady(CountJobs(Batches(drives)), Min(maxWorkers, Max(|Batches(drives)|, 1)), Saturated(PlannedBytes(drives)))
  }

  /** The planning stage: either it announces all there is to do, with the byte totals
      exact up to saturation, or it stops and announces no totals. */
  method PlanDrives(tx: Sender, drives: seq<Drive>, maxWorkers: nat, mayCancel: bool)
    returns (r: Outcome<seq<DriveJobs>>)
    modifies tx
    ensures r.Planned? ==> r.value == Batches(drives)
    ensures tx.connected && r.Planned? ==>
              tx.sent == old(tx.sent) + (DrivesEvents(drives) + [Log]) + [ReadyEvent(drives, maxWorkers)]
    ensures tx.connected && r.Cancelled? ==> CancelledAfter(old(tx.sent), tx.sent)
    ensures (r.Cancelled? ==> mayCancel) && (r.Disconnected? ==> !tx.connected)
  {
    hide TotalsOf, DrivesEvents, ManifestsEvents, ShaJobs, Batches, CountJobs, JobsOf;
    var batches := [];
    var totals := Totals(0, 0, 0);
    NoDrives();
    for i := 0 to |drives|
      invariant batches == Batches(drives[..i]) && totals == TotalsOf(drives[..i], [])
      invariant tx.connected ==> tx.sent == old(tx.sent) + DrivesEvents(drives[..i])
    {
      var planned;
      ghost var sentBefore := tx.sent;
      planned, totals := PlanDrive(tx, drives[..i], i, drives[i], totals, mayCancel);
      match planned {
        case Planned(jobs) =>
          MoreDrives(drives, i);
          if jobs.sha != [] || jobs.embedded != [] {
            batches := batches + [jobs];
          }
          ConcatThree(old(tx.sent), DrivesEvents(drives[..i]), [Log, Log], ManifestsEvents(drives[i].manifests));
        case Cancelled =>
          if tx.connected {
            DrivesAnnounced(drives[..i]);
            CancelledLater(old(tx.sent), DrivesEvents(drives[..i]), tx.sent);
          }
          return Cancelled;
        case Disconnected =>
          return Disconnected;
      }
    }
    assert drives[..|drives|] == drives;
    var totalBytes := SaturatingAdd(SaturatingAdd(totals.manifests, totals.targets), totals.embedded);
    TotalIsExact(drives);
    var ok := tx.Send(Log);
    if !ok {
      return Disconnected;
    }
    var count := TotalJobs(batches);
    ok := tx.Send(JobsReady(count, Min(maxWorkers, Max(|batches|, 1)), totalBytes));
    if !ok {
      return Disconnected;
    }
    ConcatAssociates(old(tx.sent), DrivesEvents(drives), [Log]);
    return Planned(batches);
  }

  method TotalJobs(batches: seq<DriveJobs>) returns (count: nat)
    ensures count == CountJobs(batches)
  {
    count := 0;
    for k := 0 to |batches|
      invariant count == CountJobs(batches[..k])
    {
      assert batches[..k + 1][..k] == batches[..k];
      count := count + |batches[k].sha| + |batches[k].embedded|;
    }
    assert batches[..|batches|] == batches;
  }

  lemma NoDrives()
    ensures TotalsOf([], []) == Totals(0, 0, 0) && Batches([]) == [] && DrivesEvents([]) == []
  {
  }

  lemma MoreDrives(drives: seq<Drive>, i: nat)
    requires i < |drives|
    ensures drives[..i] + [drives[i]] == drives[..i + 1]
    ensures DrivesEvents(drives[..i + 1]) ==
            DrivesEvents(drives[..i]) + [Log, Log] + ManifestsEvents(drives[i].manifests)
    ensures var jobs := JobsOf(i, drives[i]);
            Batches(drives[..i + 1]) ==
            Batches(drives[..i]) + if jobs.sha != [] || jobs.embedded != [] then [jobs] else []
  {
    assert drives[..i + 1][..i] == drives[..i];
  }

  lemma ConcatThree(a: seq<Event>, b: seq<Event>, c: seq<Event>, d: seq<Event>)
    ensures a + b + c + d == a + (b + c + d)
  {
  }

  lemma CancelledLater(before: seq<Event>, planning: seq<Event>, after: seq<Event>)
    requires GuiApp.IsPlanning(planning) && CancelledAfter(before + planning, after)
    ensures CancelledAfter(before, after)
  {
    var more :| GuiApp.IsPlanning(more) && after == before + planning + more + [Event.Aborted];
    ConcatAssociates(before, planning, more);
    assert GuiApp.IsPlanning(planning + more);
  }

  lemma TotalIsExact(drives: seq<Drive>)
    ensures var t := TotalsOf(drives, []);
            SaturatingAdd(SaturatingAdd(t.manifests, t.targets), t.embedded) == Saturated(PlannedBytes(drives))
  {
  }

  /** The jobs of a drive, counted. */
  function JobsOn(d: Drive): nat {
    OverManifests(ENTRIES, d.manifests) + if d.embedded.Some? then 1 else 0
  }

  const ENTRIES: Manifest -> nat := (m: Manifest) => if m.targets.Some? then |m.targets.value| else 0

  lemma {:induction false} ShaJobsCounted(drive: nat, manifests: seq<Manifest>)
    ensures |ShaJobs(drive, manifests)| == OverManifests(ENTRIES, manifests)
  {
    if manifests != [] {
      ShaJobsCounted(drive, manifests[..|manifests| - 1]);
    }
  }

  function JobCounts(drives: seq<Drive>): seq<nat> {
    seq(|drives|, i requires 0 <= i < |drives| => JobsOn(drives[i]))
  }

  /** The announced number of jobs is that of all drives. */
  lemma {:induction false} AllJobsCounted(drives: seq<Drive>)
    ensures CountJobs(Batches(drives)) == Total(JobCounts(drives))
  {
    hide JobsOf, JobsOn;
    if drives != [] {
      var n := |drives| - 1;
      AllJobsCounted(drives[..n]);
      JobsOnDrive(n, drives[n]);
      assert JobCounts(drives)[..n] == JobCounts(drives[..n]);
      var jobs := JobsOf(n, drives[n]);
      if jobs.sha != [] || jobs.embedded != [] {
        assert Batches(drives)[..|Batches(drives[..n])|] == Batches(drives[..n]);
      } else {
        assert Batches(drives) == Batches(drives[..n]);
      }
    }
  }

  /** `jobs` are all jobs of one of the drives, which has some. */
  ghost predicate OfSomeDrive(drives: seq<Drive>, jobs: DriveJobs) {
    exists i :: 0 <= i < |drives| && IsWholeDrive(drives, i, jobs)
  }

  predicate IsWholeDrive(drives: seq<Drive>, i: nat, jobs: DriveJobs)
    requires i < |drives|
  {
    JobsOn(drives[i]) > 0 && jobs == JobsOf(i, drives[i])
  }

  /** Every drive with a job is handed on whole, and nothing else is. */
  lemma {:induction false} BatchesAreDrives(drives: seq<Drive>, jobs: DriveJobs)
    ensures jobs in Batches(drives) <==> OfSomeDrive(drives, jobs)
  {
    hide JobsOf, JobsOn;
    if drives != [] {
      var n := |drives| - 1;
      BatchesAreDrives(drives[..n], jobs);
      JobsOnDrive(n, drives[n]);
      assert forall i :: 0 <= i < n ==> (IsWholeDrive(drives, i, jobs) <==> IsWholeDrive(drives[..n], i, jobs));
      assert OfSomeDrive(drives, jobs) <==> OfSomeDrive(drives[..n], jobs) || IsWholeDrive(drives, n, jobs) by {
        if OfSomeDrive(drives[..n], jobs) {
          var i :| 0 <= i < n && IsWholeDrive(drives[..n], i, jobs);
          assert IsWholeDrive(drives, i, jobs);
        }
      }
      assert jobs in Batches(drives) <==> jobs in Batches(drives[..n]) || IsWholeDrive(drives, n, jobs);
    }
  }

  lemma JobsOnDrive(i: nat, d: Drive)
    ensures var jobs := JobsOf(i, d);
            |jobs.sha| + |jobs.embedded| == JobsOn(d) && (JobsOn(d) > 0 <==> jobs.sha != [] || jobs.embedded != [])
  {
    ShaJobsCounted(i, d.manifests);
  }

  // ── What the phases are given ─────────────────────────────────────

  /** The batches handed to the two phases, as job counts. */
  function ShaPhase(batches: seq<DriveJobs>): seq<nat> {
    if batches == [] then []
    else
      var k := |batches| - 1;
      if batches[k].sha == [] then ShaPhase(batches[..k]) else ShaPhase(batches[..k]) + [|batches[k].sha|]
  }

  function EmbeddedPhase(batches: seq<DriveJobs>): seq<nat> {
    if batches == [] then []
    else
      var k := |batches| - 1;
      if batches[k].embedded == [] then EmbeddedPhase(batches[..k])
      else EmbeddedPhase(batches[..k]) + [|batches[k].embedded|]
  }

  lemma SumAppend(jobs: seq<nat>, n: nat)
    ensures PoolRuns.Sum(jobs + [n]) == PoolRuns.Sum(jobs) + n
  {
    assert (jobs + [n])[..|jobs|] == jobs;
  }

  /** The two phases run every planned job. */
  lemma {:induction false} PhasesCoverJobs(batches: seq<DriveJobs>)
    ensures PoolRuns.Sum(ShaPhase(batches)) + PoolRuns.Sum(EmbeddedPhase(batches)) == CountJobs(batches)
  {
    if batches != [] {
      var k := |batches| - 1;
      PhasesCoverJobs(batches[..k]);
      SumAppend(ShaPhase(batches[..k]), |batches[k].sha|);
      SumAppend(EmbeddedPhase(batches[..k]), |batches[k].embedded|);
    }
  }

  /** No batch handed to a phase is empty. */
  lemma {:induction false} PhasesHoldJobs(batches: seq<DriveJobs>)
    ensures forall b :: 0 <= b < |ShaPhase(batches)| ==> ShaPhase(batches)[b] > 0
    ensures forall b :: 0 <= b < |EmbeddedPhase(batches)| ==> EmbeddedPhase(batches)[b] > 0
  {
    if batches != [] {
      PhasesHoldJobs(batches[..|batches| - 1]);
    }
  }

  function PhasesOf(drives: seq<Drive>, maxWorkers: nat): Phases.Configs {
    Phases.Configs(Pool.Config(ShaPhase(Batches(drives)), maxWorkers),
                   Pool.Config(EmbeddedPhase(Batches(drives)), maxWorkers))
  }

  /** Neither phase uses more workers than were announced, and the first uses all of
      them if every drive with a job has files to hash. */
  lemma AnnouncedWorkersSuffice(drives: seq<Drive>, maxWorkers: nat)
    ensures var c := PhasesOf(drives, maxWorkers);
            c.sha.Workers() <= ReadyEvent(drives, maxWorkers).workers <= maxWorkers &&
            c.embedded.Workers() <= ReadyEvent(drives, maxWorkers).workers
    ensures (forall jobs :: jobs in Batches(drives) ==> jobs.sha != []) ==>
              ReadyEvent(drives, maxWorkers).workers == PhasesOf(drives, maxWorkers).sha.Workers()
  {
    hide Batches;
    PhasesAreNoLonger(Batches(drives));
  }

  lemma {:induction false} PhasesAreNoLonger(batches: seq<DriveJobs>)
    ensures |ShaPhase(batches)| <= |batches| && |EmbeddedPhase(batches)| <= |batches|
    ensures (forall jobs :: jobs in batches ==> jobs.sha != []) ==> |ShaPhase(batches)| == |batches|
  {
    if batches != [] {
      PhasesAreNoLonger(batches[..|batches| - 1]);
    }
  }

  lemma PlanningEvents(drives: seq<Drive>)
    ensures GuiApp.IsPlanning(DrivesEvents(drives) + [Log])
    ensures CountResults(DrivesEvents(drives) + [Log]) == Failures(drives)
  {
    DrivesAnnounced(drives);
    CountResultsAppend(DrivesEvents(drives), Log);
  }

  /** `verifying` falls exactly at the last result of the run if and only if every
      manifest loaded or at most one job was planned. */
  lemma VerifyingFallsAtLast(drives: seq<Drive>, maxWorkers: nat, s: GuiApp.AppState)
    requires s.verifying && s.counts.total == 0 && s.counts.done == 0
    ensures var ready := ReadyEvent(drives, maxWorkers);
            GuiApp.FallsAtLast(s, DrivesEvents(drives) + [Log], ready.count, ready.workers, ready.totalBytes)
            <==> Failures(drives) == 0 || CountJobs(Batches(drives)) <= 1
  {
    PlanningEvents(drives);
    var ready := ReadyEvent(drives, maxWorkers);
    GuiApp.FallsAtLastIff(s, DrivesEvents(drives) + [Log], ready.count, ready.workers, ready.totalBytes);
  }
}
