/** The two phases of `verify_drives_worker` (src/worker/mod.rs:272-303): a pool of
    SHA-256 jobs, a look at the cancel flag, a pool of embedded-ISOB3 jobs. As long as
    nothing else is started the flag of a run is only ever set; the last section is
    about runs under which a later start lowers it again. */
module Phases {
  import opened Prelude
  import opened Pool
  import opened PoolRuns

  datatype Stage = Hashing | Embedded | Ended(ok: bool)

  datatype Configs = Configs(sha: Config, embedded: Config)

  /** The embedded pool does not exist before its phase begins. */
  datatype Phased = Phased(cancel: bool, stage: Stage, sha: State, embedded: Option<State>)

  /** Storing `true` again changes nothing, so only the first store is a step. */
  datatype Action =
    | SetCancel
    | ShaAct(act: Act)
    | EmbeddedAct(act: Act)
    | ShaReturned
    | EmbeddedReturned

  function Start(c: Configs): Phased {
    Phased(false, Hashing, Init(c.sha), None)
  }

  predicate HasReturned(s: State) {
    !s.main.Feeding? && !s.main.Waiting?
  }

  /** A job reports an abort only after it saw the flag set. */
  predicate PoolEnabled(c: Config, s: State, cancel: bool, a: Act) {
    Enabled(c, s, cancel, a) && (a.Work? && a.move.JobAborts? ==> cancel)
  }

  predicate CanAct(c: Configs, p: Phased, a: Action) {
    match a
    case SetCancel => !p.cancel
    case ShaAct(act) => PoolEnabled(c.sha, p.sha, p.cancel, act)
    case EmbeddedAct(act) => p.embedded.Some? && PoolEnabled(c.embedded, p.embedded.value, p.cancel, act)
    case ShaReturned => p.stage.Hashing? && HasReturned(p.sha)
    case EmbeddedReturned => p.stage.Embedded? && p.embedded.Some? && HasReturned(p.embedded.value)
  }

  /** Workers of a phase may still act after `run_drive_phase` has returned early. */
  function Do(c: Configs, p: Phased, a: Action): Phased
    requires CanAct(c, p, a)
  {
    match a
    case SetCancel => p.(cancel := true)
    case ShaAct(act) => p.(sha := Apply(c.sha, p.sha, p.cancel, act))
    case EmbeddedAct(act) => p.(embedded := Some(Apply(c.embedded, p.embedded.value, p.cancel, act)))
    case ShaReturned =>
      if p.sha.main.ReturnedErr? then p.(stage := Ended(false))
      else if p.cancel then p.(stage := Ended(true))
      else p.(stage := Embedded, embedded := Some(Init(c.embedded)))
    case EmbeddedReturned => p.(stage := Ended(!p.embedded.value.main.ReturnedErr?))
  }

  ghost predicate Runs(c: Configs, p: Phased, actions: seq<Action>)
    decreases |actions|
  {
    actions == [] || (CanAct(c, p, actions[0]) && Runs(c, Do(c, p, actions[0]), actions[1..]))
  }

  ghost function Final(c: Configs, p: Phased, actions: seq<Action>): Phased
    requires Runs(c, p, actions)
    decreases |actions|
  {
    if actions == [] then p else Final(c, Do(c, p, actions[0]), actions[1..])
  }

  /** A pool that returned `Ok` without any abort: all its workers are gone for good. */
  ghost predicate Complete(s: State) {
    s.main.ReturnedOk? && AbortSent !in s.trace
  }

  ghost predicate PhasedInv(c: Configs, p: Phased) {
    && Inv(c.sha, p.sha)
    && (!p.cancel ==> AbortSent !in p.sha.trace)
    && (p.embedded.None? ==> !p.stage.Embedded?)
    && (p.stage.Hashing? ==> p.embedded.None?)
    && (p.embedded.Some? ==> Complete(p.sha) && Inv(c.embedded, p.embedded.value))
    && (p.embedded.Some? && !p.cancel ==> AbortSent !in p.embedded.value.trace)
  }

  /** A complete pool can do nothing more. */
  lemma CompleteIsFinal(c: Config, s: State, cancel: bool, a: Act)
    requires Inv(c, s) && Complete(s)
    ensures !Enabled(c, s, cancel, a)
  {
    CountFull(s.workers, Done);
    if a.Work? && a.w < |s.workers| {
      assert KindOf(s.workers[a.w]) == Done;
    }
  }

  lemma StepKeepsPhasedInv(c: Configs, p: Phased, a: Action)
    requires PhasedInv(c, p) && CanAct(c, p, a)
    ensures PhasedInv(c, Do(c, p, a))
  {
    match a {
      case ShaAct(act) =>
        StepKeepsInv(c.sha, p.sha, p.cancel, act);
        if p.embedded.Some? {
          CompleteIsFinal(c.sha, p.sha, p.cancel, act);
        } else if !p.cancel {
          QuietStep(c.sha, p.sha, act);
        }
      case EmbeddedAct(act) =>
        StepKeepsInv(c.embedded, p.embedded.value, p.cancel, act);
        if !p.cancel {
          QuietStep(c.embedded, p.embedded.value, act);
        }
      case ShaReturned =>
        InitInv(c.embedded);
      case _ =>
    }
  }

  lemma {:induction false} RunsKeepPhasedInv(c: Configs, p: Phased, actions: seq<Action>)
    requires PhasedInv(c, p) && Runs(c, p, actions)
    ensures PhasedInv(c, Final(c, p, actions))
    decreases |actions|
  {
    if actions != [] {
      StepKeepsPhasedInv(c, p, actions[0]);
      RunsKeepPhasedInv(c, Do(c, p, actions[0]), actions[1..]);
    }
  }

  lemma StartInv(c: Configs)
    ensures PhasedInv(c, Start(c))
  {
    InitInv(c.sha);
  }

  /** Phase barrier: once the embedded phase exists at all, every SHA-256 job of
      every drive has sent its result and no SHA-256 worker is left. */
  lemma PhaseBarrier(c: Configs, actions: seq<Action>, b: nat)
    requires Runs(c, Start(c), actions) && c.sha.maxWorkers > 0
    requires Final(c, Start(c), actions).embedded.Some? && b < |c.sha.jobs|
    ensures var p := Final(c, Start(c), actions);
            Numbers(p.sha.trace, b, false) == UpTo(c.sha.jobs[b]) && AllExited(p.sha.workers)
  {
    StartInv(c);
    RunsKeepPhasedInv(c, Start(c), actions);
    var p := Final(c, Start(c), actions);
    OkWithoutAbortIsComplete(c.sha, p.sha, b);
    CountFull(p.sha.workers, Done);
    forall w | 0 <= w < |p.sha.workers| ensures p.sha.workers[w].Exited() {
      assert KindOf(p.sha.workers[w]) == Done;
    }
  }

  /** A run that ends with the flag never set succeeds and has sent one result for
      every job of both phases. */
  lemma UncancelledRunCompletes(c: Configs, actions: seq<Action>)
    requires Runs(c, Start(c), actions) && c.sha.maxWorkers > 0 && c.embedded.maxWorkers > 0
    requires var p := Final(c, Start(c), actions); p.stage.Ended? && !p.cancel
    ensures var p := Final(c, Start(c), actions);
            && p.stage.ok && p.embedded.Some?
            && CountSent(p.sha.trace) == Sum(c.sha.jobs)
            && CountSent(p.embedded.value.trace) == Sum(c.embedded.jobs)
  {
    StartInv(c);
    EndedInv(c, Start(c), actions);
    var p := Final(c, Start(c), actions);
    ResultsOfCompletePhase(c.sha, p.sha);
    ResultsOfCompletePhase(c.embedded, p.embedded.value);
  }

  /** Batch by batch and in order. */
  lemma UncancelledRunIsComplete(c: Configs, actions: seq<Action>)
    requires Runs(c, Start(c), actions) && c.sha.maxWorkers > 0 && c.embedded.maxWorkers > 0
    requires var p := Final(c, Start(c), actions); p.stage.Ended? && !p.cancel
    ensures var p := Final(c, Start(c), actions);
            p.embedded.Some? && PoolRuns.Complete(c.sha, p.sha) && PoolRuns.Complete(c.embedded, p.embedded.value)
  {
    StartInv(c);
    EndedInv(c, Start(c), actions);
    var p := Final(c, Start(c), actions);
    forall b | 0 <= b < |c.sha.jobs| ensures Numbers(p.sha.trace, b, false) == UpTo(c.sha.jobs[b]) {
      OkWithoutAbortIsComplete(c.sha, p.sha, b);
    }
    forall b | 0 <= b < |c.embedded.jobs|
      ensures Numbers(p.embedded.value.trace, b, false) == UpTo(c.embedded.jobs[b])
    {
      OkWithoutAbortIsComplete(c.embedded, p.embedded.value, b);
    }
  }

  /** How an uncancelled run can have ended. */
  ghost predicate EndedProperly(c: Configs, p: Phased) {
    p.stage.Ended? && !p.cancel ==>
      p.stage.ok && p.embedded.Some? && p.embedded.value.main.ReturnedOk?
  }

  /** Without an abort no worker drops out, so the wait loop cannot fail. */
  lemma NoErrorWithoutAbort(c: Config, s: State)
    requires Inv(c, s) && HasReturned(s) && AbortSent !in s.trace
    ensures s.main.ReturnedOk?
  {
    CountFull(s.workers, Done);
    assert AllExited(s.workers) ==> forall w :: 0 <= w < |s.workers| ==> KindOf(s.workers[w]) == Done;
  }

  lemma {:induction false} EndedInv(c: Configs, p: Phased, actions: seq<Action>)
    requires PhasedInv(c, p) && EndedProperly(c, p) && Runs(c, p, actions)
    ensures PhasedInv(c, Final(c, p, actions)) && EndedProperly(c, Final(c, p, actions))
    decreases |actions|
  {
    if actions != [] {
      var a := actions[0];
      StepKeepsPhasedInv(c, p, a);
      var q := Do(c, p, a);
      if !p.cancel {
        if a.ShaReturned? {
          NoErrorWithoutAbort(c.sha, p.sha);
        } else if a.EmbeddedReturned? {
          NoErrorWithoutAbort(c.embedded, p.embedded.value);
        } else if a.EmbeddedAct? && p.embedded.value.main.ReturnedOk? {
          CompleteIsFinal(c.embedded, p.embedded.value, p.cancel, a.act);
        }
      }
      EndedInv(c, q, actions[1..]);
    }
  }

  // ── Every run ends ──────────────────────────────────────────────────────────

  predicate Over(p: Phased) {
    p.stage.Ended? && Terminated(p.sha) && (p.embedded.Some? ==> Terminated(p.embedded.value))
  }

  /** Short of its end the run can always go on by itself, without anybody aborting. */
  lemma NoDeadlock(c: Configs, p: Phased) returns (a: Action)
    requires PhasedInv(c, p) && !Over(p)
    ensures CanAct(c, p, a) && !a.SetCancel?
  {
    if !Terminated(p.sha) && !(p.stage.Hashing? && HasReturned(p.sha)) {
      var act := NextAct(c.sha, p.sha, p.cancel);
      a := ShaAct(act);
    } else if p.stage.Hashing? {
      a := ShaReturned;
    } else if p.embedded.Some? && !Terminated(p.embedded.value) {
      var act := NextAct(c.embedded, p.embedded.value, p.cancel);
      a := EmbeddedAct(act);
    } else {
      a := EmbeddedReturned;
    }
  }

  function EmbeddedMeasure(c: Configs, p: Phased): int {
    match p.embedded
    case Some(s) => Measure(c.embedded, s)
    case None => if p.stage.Hashing? then Measure(c.embedded, Init(c.embedded)) else 0
  }

  /** How many steps both phases can still take. */
  function PhasedMeasure(c: Configs, p: Phased): int {
    (if p.cancel then 0 else 1) + (if p.stage.Hashing? then 2 else if p.stage.Embedded? then 1 else 0)
    + Measure(c.sha, p.sha) + EmbeddedMeasure(c, p)
  }

  lemma PhasedMeasureIsNat(c: Configs, p: Phased)
    requires PhasedInv(c, p)
    ensures PhasedMeasure(c, p) >= 0
  {
    hide Measure, Pool.Inv;
    MeasureIsNat(c.sha, p.sha);
    InitInv(c.embedded);
    MeasureIsNat(c.embedded, Init(c.embedded));
    if p.embedded.Some? {
      MeasureIsNat(c.embedded, p.embedded.value);
    }
  }

  lemma StepDecreasesPhased(c: Configs, p: Phased, a: Action)
    requires PhasedInv(c, p) && CanAct(c, p, a)
    ensures PhasedMeasure(c, Do(c, p, a)) < PhasedMeasure(c, p)
  {
    hide Measure, Pool.Inv, Pool.Apply, Pool.Enabled;
    InitInv(c.embedded);
    MeasureIsNat(c.embedded, Init(c.embedded));
    if a.ShaAct? {
      StepDecreases(c.sha, p.sha, p.cancel, a.act);
    } else if a.EmbeddedAct? {
      StepDecreases(c.embedded, p.embedded.value, p.cancel, a.act);
    }
  }

  /** No run of the two phases is longer than the measure it starts with. */
  lemma {:induction false} PhasedRunsAreBounded(c: Configs, p: Phased, actions: seq<Action>)
    requires PhasedInv(c, p) && Runs(c, p, actions)
    ensures |actions| <= PhasedMeasure(c, p)
    decreases |actions|
  {
    hide PhasedInv, PhasedMeasure, Do, CanAct;
    PhasedMeasureIsNat(c, p);
    if actions != [] {
      StepKeepsPhasedInv(c, p, actions[0]);
      StepDecreasesPhased(c, p, actions[0]);
      PhasedRunsAreBounded(c, Do(c, p, actions[0]), actions[1..]);
    }
  }

  ghost predicate AllReported(c: Configs, p: Phased) {
    && p.embedded.Some?
    && CountSent(p.sha.trace) == Sum(c.sha.jobs) && CountSent(p.embedded.value.trace) == Sum(c.embedded.jobs)
  }

  /** Every run ends: it has a bound, and where it stops for want of a step both
      phases are over. Left uncancelled it is then complete. */
  lemma EveryRunEnds(c: Configs, actions: seq<Action>)
    requires Runs(c, Start(c), actions) && c.sha.maxWorkers > 0 && c.embedded.maxWorkers > 0
    ensures |actions| <= PhasedMeasure(c, Start(c))
    ensures var p := Final(c, Start(c), actions);
            (forall a | CanAct(c, p, a) :: a.SetCancel?) ==>
              Over(p) && (!p.cancel ==> p.stage.ok && AllReported(c, p))
  {
    hide PhasedInv, PhasedMeasure, CanAct;
    StartInv(c);
    PhasedRunsAreBounded(c, Start(c), actions);
    RunsKeepPhasedInv(c, Start(c), actions);
    var p := Final(c, Start(c), actions);
    if forall a | CanAct(c, p, a) :: a.SetCancel? {
      if !Over(p) {
        var a := NoDeadlock(c, p);
      }
      if !p.cancel {
        UncancelledRunCompletes(c, actions);
      }
    }
  }

  /** Any state of an uncancelled run can be carried on to the end without a cancel. */
  lemma Finish(c: Configs, p: Phased) returns (actions: seq<Action>)
    requires PhasedInv(c, p) && !p.cancel
    ensures Runs(c, p, actions)
    ensures var t := Final(c, p, actions); Over(t) && !t.cancel
    decreases PhasedMeasure(c, p)
  {
    hide PhasedInv, PhasedMeasure;
    actions := [];
    if !Over(p) {
      var a := NoDeadlock(c, p);
      StepKeepsPhasedInv(c, p, a);
      StepDecreasesPhased(c, p, a);
      PhasedMeasureIsNat(c, p);
      PhasedMeasureIsNat(c, Do(c, p, a));
      var rest := Finish(c, Do(c, p, a));
      actions := [a] + rest;
      assert actions[1..] == rest;
    }
  }

  // ── A flag that is lowered again ────────────────────────────────────────────

  /** A step that sees any value of the flag: an abort sets it, and the scan or
      verification started next clears it under the old run. */
  datatype FreeStep = FreeStep(flag: bool, action: Action)

  predicate FreeCan(c: Configs, p: Phased, s: FreeStep) {
    !s.action.SetCancel? && CanAct(c, p.(cancel := s.flag), s.action)
  }

  function FreeDo(c: Configs, p: Phased, s: FreeStep): Phased
    requires FreeCan(c, p, s)
  {
    Do(c, p.(cancel := s.flag), s.action)
  }

  ghost predicate FreeRuns(c: Configs, p: Phased, steps: seq<FreeStep>)
    decreases |steps|
  {
    steps == [] || (FreeCan(c, p, steps[0]) && FreeRuns(c, FreeDo(c, p, steps[0]), steps[1..]))
  }

  ghost function FreeFinal(c: Configs, p: Phased, steps: seq<FreeStep>): Phased
    requires FreeRuns(c, p, steps)
    decreases |steps|
  {
    if steps == [] then p else FreeFinal(c, FreeDo(c, p, steps[0]), steps[1..])
  }

  ghost predicate FreeInv(c: Configs, p: Phased) {
    && Inv(c.sha, p.sha) && Marked(c.sha, p.sha)
    && (p.embedded.Some? ==>
          && (p.sha.main.ReturnedOk? || p.sha.main.ReturnedEarly?)
          && Inv(c.embedded, p.embedded.value) && Marked(c.embedded, p.embedded.value))
    && (p.stage.Hashing? ==> p.embedded.None?) && (p.stage.Embedded? ==> p.embedded.Some?)
    && (p.stage.Ended? && p.embedded.Some? ==>
          HasReturned(p.embedded.value) && (p.stage.ok <==> !p.embedded.value.main.ReturnedErr?))
  }

  lemma StepKeepsFreeInv(c: Configs, p: Phased, s: FreeStep)
    requires FreeInv(c, p) && FreeCan(c, p, s)
    ensures FreeInv(c, FreeDo(c, p, s))
  {
    FreshPool(c.embedded);
    hide Inv, Marked, Init;
    if s.action.ShaAct? {
      StepKeepsInv(c.sha, p.sha, s.flag, s.action.act);
      StepKeepsMarked(c.sha, p.sha, s.flag, s.action.act);
    } else if s.action.EmbeddedAct? {
      StepKeepsInv(c.embedded, p.embedded.value, s.flag, s.action.act);
      StepKeepsMarked(c.embedded, p.embedded.value, s.flag, s.action.act);
    }
  }

  lemma FreshPool(c: Config)
    ensures Inv(c, Init(c)) && Marked(c, Init(c))
  {
    InitInv(c);
  }

  lemma {:induction false} RunsKeepFreeInv(c: Configs, p: Phased, steps: seq<FreeStep>)
    requires FreeInv(c, p) && FreeRuns(c, p, steps)
    ensures FreeInv(c, FreeFinal(c, p, steps))
    decreases |steps|
  {
    hide FreeInv, FreeCan, FreeDo;
    if steps != [] {
      StepKeepsFreeInv(c, p, steps[0]);
      RunsKeepFreeInv(c, FreeDo(c, p, steps[0]), steps[1..]);
    }
  }

  /** Whatever happens to the flag: once the embedded phase exists, every SHA-256 job of
      every drive has sent its result if and only if no `Aborted` came from that pool. */
  lemma FreeBarrierIff(c: Configs, steps: seq<FreeStep>)
    requires FreeRuns(c, Start(c), steps) && FreeFinal(c, Start(c), steps).embedded.Some?
    requires c.sha.maxWorkers > 0 && forall b :: 0 <= b < |c.sha.jobs| ==> c.sha.jobs[b] > 0
    ensures var p := FreeFinal(c, Start(c), steps);
            PoolRuns.Complete(c.sha, p.sha) <==> AbortSent !in p.sha.trace
  {
    InitInv(c.sha);
    RunsKeepFreeInv(c, Start(c), steps);
    MarkedIsCompleteIff(c.sha, FreeFinal(c, Start(c), steps).sha);
  }

  /** Whatever happens to the flag: where a run has ended, both phases are complete
      exactly if it succeeded, reached its embedded phase, and no pool sent `Aborted`. */
  lemma EndedCompleteIff(c: Configs, steps: seq<FreeStep>)
    requires FreeRuns(c, Start(c), steps) && c.sha.maxWorkers > 0 && c.embedded.maxWorkers > 0
    requires forall b :: 0 <= b < |c.sha.jobs| ==> c.sha.jobs[b] > 0
    requires forall b :: 0 <= b < |c.embedded.jobs| ==> c.embedded.jobs[b] > 0
    requires FreeFinal(c, Start(c), steps).stage.Ended?
    ensures var p := FreeFinal(c, Start(c), steps);
            p.embedded.Some? && p.stage.ok ==>
              (PoolRuns.Complete(c.sha, p.sha) <==> AbortSent !in p.sha.trace) &&
              (PoolRuns.Complete(c.embedded, p.embedded.value) <==> AbortSent !in p.embedded.value.trace)
  {
    hide PoolRuns.Complete;
    FreshPool(c.sha);
    RunsKeepFreeInv(c, Start(c), steps);
    var p := FreeFinal(c, Start(c), steps);
    if p.embedded.Some? && p.stage.ok {
      MarkedIsCompleteIff(c.sha, p.sha);
      MarkedIsCompleteIff(c.embedded, p.embedded.value);
    }
  }

  /** And it can be undone: the one worker breaks out on the flag, the flag is lowered
      by the next start, and the old run goes on to its embedded phase. */
  lemma BarrierCanFail() returns (c: Configs, steps: seq<FreeStep>)
    ensures c == Configs(Config([1], 1), Config([1], 1)) && FreeRuns(c, Start(c), steps)
    ensures var p := FreeFinal(c, Start(c), steps);
            p.stage.Embedded? && p.embedded.Some? && !p.cancel && Numbers(p.sha.trace, 0, false) == []
  {
    hide FreeRuns, FreeFinal, PoolRuns.Runs, PoolRuns.Final, FreeCan, FreeDo, Numbers;
    var pool, schedule := OkMayBeIncomplete();
    c := Configs(pool, Config([1], 1));
    var p := Lifted(c, Start(c), schedule);
    var last := FreeStep(false, ShaReturned);
    ReturnsUncancelled(c, p);
    OneFreeStep(c, p, last);
    FreeConcat(c, Start(c), Lift(schedule), [last]);
    steps := Lift(schedule) + [last];
  }

  function Lift(schedule: seq<Tick>): seq<FreeStep> {
    seq(|schedule|, i requires 0 <= i < |schedule| => FreeStep(schedule[i].cancel, ShaAct(schedule[i].act)))
  }

  /** A schedule of the SHA-256 pool is one of the run. */
  lemma {:induction false} Lifted(c: Configs, p: Phased, schedule: seq<Tick>) returns (t: Phased)
    requires PoolRuns.Runs(c.sha, p.sha, schedule) && p.stage.Hashing? && p.embedded.None?
    requires forall i :: 0 <= i < |schedule| ==> !schedule[i].act.Work? || !schedule[i].act.move.JobAborts?
    ensures FreeRuns(c, p, Lift(schedule)) && t == FreeFinal(c, p, Lift(schedule))
    ensures t.sha == PoolRuns.Final(c.sha, p.sha, schedule) && t.stage.Hashing? && t.embedded.None?
    decreases |schedule|
  {
    hide Enabled, Apply;
    if schedule == [] {
      t := p;
    } else {
      var tick, rest := schedule[0], schedule[1..];
      assert forall i :: 0 <= i < |rest| ==> rest[i] == schedule[i + 1];
      var q := FreeDo(c, p, Lift(schedule)[0]);
      t := Lifted(c, q, rest);
      assert Lift(schedule)[1..] == Lift(rest);
    }
  }

  lemma ReturnsUncancelled(c: Configs, p: Phased)
    requires p.stage.Hashing? && p.embedded.None? && p.sha.main.ReturnedOk?
    ensures var last := FreeStep(false, ShaReturned);
            FreeCan(c, p, last) &&
            var t := FreeDo(c, p, last); t.stage.Embedded? && t.embedded.Some? && !t.cancel && t.sha == p.sha
  {
    hide Init;
  }

  lemma OneFreeStep(c: Configs, p: Phased, s: FreeStep)
    requires FreeCan(c, p, s)
    ensures FreeRuns(c, p, [s]) && FreeFinal(c, p, [s]) == FreeDo(c, p, s)
  {
    hide FreeCan, FreeDo;
    assert [s][1..] == [];
  }

  lemma {:induction false} FreeConcat(c: Configs, p: Phased, a: seq<FreeStep>, b: seq<FreeStep>)
    requires FreeRuns(c, p, a) && FreeRuns(c, FreeFinal(c, p, a), b)
    ensures FreeRuns(c, p, a + b) && FreeFinal(c, p, a + b) == FreeFinal(c, FreeFinal(c, p, a), b)
    decreases |a|
  {
    hide FreeCan, FreeDo;
    if a == [] {
      assert a + b == b;
    } else {
      FreeConcat(c, FreeDo(c, p, a[0]), a[1..], b);
      assert (a + b)[1..] == a[1..] + b;
    }
  }
}
