/** What holds of every run of the worker pool, under any interleaving and with the
    cancel flag changing at any point. */
module PoolRuns {
  import opened Prelude
  import opened Pool

  /** One step of a schedule: the flag's value as that step sees it, and the action. */
  datatype Tick = Tick(cancel: bool, act: Act)

  ghost predicate Runs(c: Config, s: State, schedule: seq<Tick>)
    decreases |schedule|
  {
    schedule == [] ||
    (Enabled(c, s, schedule[0].cancel, schedule[0].act) &&
     Runs(c, Apply(c, s, schedule[0].cancel, schedule[0].act), schedule[1..]))
  }

  ghost function Final(c: Config, s: State, schedule: seq<Tick>): State
    requires Runs(c, s, schedule)
    decreases |schedule|
  {
    if schedule == [] then s
    else Final(c, Apply(c, s, schedule[0].cancel, schedule[0].act), schedule[1..])
  }

  /** `s` is what some schedule of the pool leads to. */
  ghost predicate Reachable(c: Config, s: State) {
    exists schedule :: Runs(c, Init(c), schedule) && Final(c, Init(c), schedule) == s
  }

  predicate Terminated(s: State) {
    AllExited(s.workers) && !s.main.Feeding? && !s.main.Waiting?
  }

  lemma {:induction false} RunsKeepInv(c: Config, s: State, schedule: seq<Tick>)
    requires Inv(c, s) && Runs(c, s, schedule)
    ensures Inv(c, Final(c, s, schedule))
    decreases |schedule|
  {
    if schedule != [] {
      StepKeepsInv(c, s, schedule[0].cancel, schedule[0].act);
      RunsKeepInv(c, Apply(c, s, schedule[0].cancel, schedule[0].act), schedule[1..]);
    }
  }

  lemma ReachableInv(c: Config, s: State)
    requires Reachable(c, s)
    ensures Inv(c, s)
  {
    var schedule :| Runs(c, Init(c), schedule) && Final(c, Init(c), schedule) == s;
    InitInv(c);
    RunsKeepInv(c, Init(c), schedule);
  }

  // ── Safety ──────────────────────────────────────────────────────────────────

  /** Job numbers of the starts, or of the results, of one batch, in order. */
  function Numbers(trace: seq<Entry>, b: nat, starts: bool): seq<nat> {
    if trace == [] then []
    else
      var last := trace[|trace| - 1];
      Numbers(trace[..|trace| - 1], b, starts) +
      if last.Of(b) && last.Started? == starts then [last.job] else []
  }

  function UpTo(n: nat): (s: seq<nat>)
    ensures |s| == n
  {
    seq(n, i => i)
  }

  /** Numbers looks only at the batch's own entries. */
  lemma {:induction false} NumbersOfBatch(trace: seq<Entry>, b: nat, starts: bool)
    ensures Numbers(trace, b, starts) == Numbers(OfBatch(trace, b), b, starts)
  {
    if trace != [] {
      var front, last := trace[..|trace| - 1], trace[|trace| - 1];
      NumbersOfBatch(front, b, starts);
      if last.Of(b) {
        assert OfBatch(trace, b)[..|OfBatch(front, b)|] == OfBatch(front, b);
      } else {
        assert OfBatch(trace, b) == OfBatch(front, b);
      }
    }
  }

  lemma {:induction false} NumbersInOrder(b: nat, n: nat, starts: bool)
    ensures Numbers(InOrder(b, n), b, starts) == UpTo(if starts then (n + 1) / 2 else n / 2)
  {
    if n > 0 {
      NumbersInOrder(b, n - 1, starts);
      assert InOrder(b, n)[..n - 1] == InOrder(b, n - 1);
    }
  }

  /** Batches held by workers. */
  function Held(workers: seq<Worker>): set<nat> {
    if workers == [] then {}
    else Held(workers[1..]) + if workers[0].Holding? || workers[0].Running? then {workers[0].batch} else {}
  }

  lemma {:induction false} HeldBound(workers: seq<Worker>)
    ensures |Held(workers)| <= |workers|
    ensures forall w :: 0 <= w < |workers| && (workers[w].Holding? || workers[w].Running?) ==>
              workers[w].batch in Held(workers)
  {
    if workers != [] {
      HeldBound(workers[1..]);
      assert forall w :: 1 <= w < |workers| ==> workers[w] == workers[1..][w - 1];
    }
  }

  /** In every reachable state a batch has at most one owner, no more batches are
      held than there are workers, every batch's results are a prefix of its jobs in
      order, no job starts twice, and at most one started job has no result yet. */
  lemma PoolSafety(c: Config, s: State, b: nat)
    requires Reachable(c, s)
    ensures forall w, v | 0 <= w < |s.workers| && 0 <= v < |s.workers| ::
              s.workers[w].Owns(b) && s.workers[v].Owns(b) ==> w == v
    ensures |Held(s.workers)| <= Min(c.maxWorkers, |c.jobs|)
    ensures var results, starts := Numbers(s.trace, b, false), Numbers(s.trace, b, true);
            && results == UpTo(|results|) && starts == UpTo(|starts|)
            && |results| <= |starts| <= |results| + 1
            && (b < |c.jobs| ==> |starts| <= c.jobs[b])
            && (b >= |c.jobs| ==> starts == [])
  {
    ReachableInv(c, s);
    HeldBound(s.workers);
    NumbersOfBatch(s.trace, b, false);
    NumbersOfBatch(s.trace, b, true);
    NumbersInOrder(b, Progress(s, b), false);
    NumbersInOrder(b, Progress(s, b), true);
  }

  // ── The bound on held batches is met ────────────────────────────────────────

  /** The first k batches held by the first k workers, nothing else done. */
  function Occupied(c: Config, k: nat): State {
    State(seq(c.Workers(), i => if 0 <= i < k then Holding(i) else Idle), Feeding, k, [], 0, 0, [])
  }

  /** Feeding one batch and receiving it occupies one more worker. */
  lemma OccupyOneMore(c: Config, k: nat)
    requires k < c.Workers() && k < |c.jobs|
    ensures var s := Occupied(c, k);
            && Enabled(c, s, false, Feed)
            && Enabled(c, Apply(c, s, false, Feed), false, Work(k, Receive))
            && Apply(c, Apply(c, s, false, Feed), false, Work(k, Receive)) == Occupied(c, k + 1)
  {
    var fed := Apply(c, Occupied(c, k), false, Feed);
    assert fed.queue == [k];
    var t := Apply(c, fed, false, Work(k, Receive));
    assert t.workers == Occupied(c, k + 1).workers && t.queue == [] && t.trace == [];
  }

  lemma {:induction false} OccupyAll(c: Config, k: nat) returns (schedule: seq<Tick>)
    requires k <= c.Workers() <= |c.jobs|
    ensures Runs(c, Occupied(c, k), schedule) && Final(c, Occupied(c, k), schedule) == Occupied(c, c.Workers())
    decreases c.Workers() - k
  {
    hide Apply, Enabled, Occupied;
    if k == c.Workers() {
      schedule := [];
    } else {
      var rest := OccupyAll(c, k + 1);
      OccupyOneMore(c, k);
      var fed := Apply(c, Occupied(c, k), false, Feed);
      var later := [Tick(false, Work(k, Receive))] + rest;
      schedule := [Tick(false, Feed)] + later;
      assert later[1..] == rest && schedule[1..] == later;
    }
  }

  lemma {:induction false} HeldOfHolding(workers: seq<Worker>, from: nat)
    requires forall w :: 0 <= w < |workers| ==> workers[w] == Holding(from + w)
    ensures |Held(workers)| == |workers| && forall b :: b in Held(workers) ==> from <= b
  {
    if workers != [] {
      HeldOfHolding(workers[1..], from + 1);
      assert from !in Held(workers[1..]);
    }
  }

  /** As many batches are held at once as there are workers allowed, or batches. */
  lemma FullOccupancy(c: Config) returns (s: State)
    ensures Reachable(c, s) && |Held(s.workers)| == Min(c.maxWorkers, |c.jobs|)
  {
    if c.jobs == [] {
      s := Init(c);
      assert Runs(c, Init(c), []) && Final(c, Init(c), []) == s;
    } else {
      var schedule := OccupyAll(c, 0);
      s := Occupied(c, c.Workers());
      assert Init(c).workers == Occupied(c, 0).workers;
      assert Init(c) == Occupied(c, 0);
      HeldOfHolding(s.workers, 0);
    }
  }

  // ── Tokens, termination and the return value ────────────────────────────────

  /** Done tokens sent, live workers and mid-batch leavers account for all workers. */
  lemma TokenAccounting(c: Config, s: State)
    requires Reachable(c, s)
    ensures s.tokens + s.received + Count(s.workers, Live) + Count(s.workers, Gone) == |s.workers|
  {
    ReachableInv(c, s);
    KindsPartition(s.workers);
  }

  /** Nothing ever waits for ever: short of termination some action is enabled,
      whatever the cancel flag says. */
  lemma NoDeadlock(c: Config, s: State, cancel: bool) returns (a: Act)
    requires Reachable(c, s) && !Terminated(s)
    ensures Enabled(c, s, cancel, a)
  {
    ReachableInv(c, s);
    a := NextAct(c, s, cancel);
  }

  /** It need not be an abort. */
  lemma NextAct(c: Config, s: State, cancel: bool) returns (a: Act)
    requires Inv(c, s) && !Terminated(s)
    ensures Enabled(c, s, cancel, a) && !(a.Work? && a.move.JobAborts?)
  {
    if s.main.Feeding? {
      return if s.fed == |c.jobs| then CloseQueue else if cancel then FeedSeesCancel else Feed;
    }
    if !AllExited(s.workers) {
      var w :| 0 <= w < |s.workers| && !s.workers[w].Exited();
      var p := s.workers[w];
      return Work(w,
        if p.Idle? then (if s.queue == [] then Disconnect else Receive)
        else if p.Holding? then CheckBatch
        else if p.Leaving? then SendToken
        else if p.busy then JobCompletes else NextJob);
    }
    CountFull(s.workers, Done);
    return if s.received == |s.workers| then Return else if s.tokens > 0 then TakeToken else TokensClosed;
  }

  function JobsOf(c: Config, b: nat): nat {
    if b < |c.jobs| then c.jobs[b] else 0
  }

  function WorkerRank(c: Config, p: Worker): int {
    match p
    case Idle => 2
    case Holding(b) => 2 * JobsOf(c, b) + 4
    case Running(b, j, busy) => 2 * (JobsOf(c, b) - j) + if busy then 2 else 3
    case Leaving => 1
    case _ => 0
  }

  function WorkersRank(c: Config, workers: seq<Worker>): int {
    if workers == [] then 0 else WorkerRank(c, workers[0]) + WorkersRank(c, workers[1..])
  }

  function QueueRank(c: Config, queue: seq<nat>): nat {
    if queue == [] then 0 else 2 * JobsOf(c, queue[0]) + 3 + QueueRank(c, queue[1..])
  }

  function UnfedRank(c: Config, fed: nat): nat
    decreases |c.jobs| - fed
  {
    if fed >= |c.jobs| then 0 else 2 * JobsOf(c, fed) + 4 + UnfedRank(c, fed + 1)
  }

  function MainRank(s: State): int {
    match s.main
    case Feeding => |s.workers| + 2
    case Waiting => |s.workers| - s.received + 1
    case _ => 0
  }

  /** How many steps can still happen. */
  function Measure(c: Config, s: State): int {
    MainRank(s) + UnfedRank(c, s.fed) + QueueRank(c, s.queue) + WorkersRank(c, s.workers)
  }

  lemma {:induction false} WorkersRankUpdate(c: Config, workers: seq<Worker>, w: nat, p: Worker)
    requires w < |workers|
    ensures WorkersRank(c, workers[w := p]) == WorkersRank(c, workers) - WorkerRank(c, workers[w]) + WorkerRank(c, p)
  {
    if w == 0 {
      assert workers[w := p][1..] == workers[1..];
    } else {
      WorkersRankUpdate(c, workers[1..], w - 1, p);
      assert workers[w := p][1..] == workers[1..][w - 1 := p];
    }
  }

  lemma {:induction false} QueueRankAppend(c: Config, queue: seq<nat>, b: nat)
    ensures QueueRank(c, queue + [b]) == QueueRank(c, queue) + 2 * JobsOf(c, b) + 3
  {
    if queue == [] {
      assert QueueRank(c, [b][1..]) == 0;
    } else {
      QueueRankAppend(c, queue[1..], b);
      assert (queue + [b])[1..] == queue[1..] + [b];
    }
  }

  lemma {:induction false} WorkersRankIsNat(c: Config, s: State, workers: seq<Worker>)
    requires forall w :: 0 <= w < |workers| ==> WorkerInStep(c, s, workers[w])
    ensures WorkersRank(c, workers) >= 0
  {
    if workers != [] {
      assert WorkerInStep(c, s, workers[0]);
      assert forall w :: 0 <= w < |workers| - 1 ==> workers[1..][w] == workers[w + 1];
      WorkersRankIsNat(c, s, workers[1..]);
    }
  }

  /** A move costs its worker rank, beyond what it takes off the queue. */
  lemma MoveDecreases(c: Config, s: State, cancel: bool, p: Worker, m: Move)
    requires WorkerInStep(c, s, p) && CanMove(s, p, m)
    ensures var queue := if m.Receive? then s.queue[1..] else s.queue;
            WorkerRank(c, Moved(c, s, cancel, p, m)) + QueueRank(c, queue) < WorkerRank(c, p) + QueueRank(c, s.queue)
  {
    hide OfBatch;
  }

  /** Every step uses up measure. */
  lemma StepDecreases(c: Config, s: State, cancel: bool, a: Act)
    requires Inv(c, s) && Enabled(c, s, cancel, a)
    ensures Measure(c, Apply(c, s, cancel, a)) < Measure(c, s)
  {
    hide WorkersRank, QueueRank;
    if a.Work? {
      WorkersRankUpdate(c, s.workers, a.w, Moved(c, s, cancel, s.workers[a.w], a.move));
      MoveDecreases(c, s, cancel, s.workers[a.w], a.move);
    } else if a.Feed? {
      QueueRankAppend(c, s.queue, s.fed);
    }
  }

  lemma MeasureIsNat(c: Config, s: State)
    requires Inv(c, s)
    ensures Measure(c, s) >= 0
  {
    WorkersRankIsNat(c, s, s.workers);
  }

  /** No run is longer than the measure it starts with: every run ends. */
  lemma {:induction false} RunsAreBounded(c: Config, s: State, schedule: seq<Tick>)
    requires Inv(c, s) && Runs(c, s, schedule)
    ensures |schedule| <= Measure(c, s)
    decreases |schedule|
  {
    WorkersRankIsNat(c, s, s.workers);
    if schedule != [] {
      StepKeepsInv(c, s, schedule[0].cancel, schedule[0].act);
      StepDecreases(c, s, schedule[0].cancel, schedule[0].act);
      RunsAreBounded(c, Apply(c, s, schedule[0].cancel, schedule[0].act), schedule[1..]);
    }
  }

  /** Once the wait loop decides, it decides `Ok` exactly when every worker left by
      the end of its loop or by `break`: no worker dropped out mid-batch. */
  lemma WaitReturnsOkIff(c: Config, s: State)
    requires Reachable(c, s) && (s.main.ReturnedOk? || s.main.ReturnedErr?)
    ensures AllExited(s.workers)
    ensures s.main.ReturnedOk? <==> forall w :: 0 <= w < |s.workers| ==> s.workers[w].Finished?
    ensures s.main.ReturnedErr? <==> exists w :: 0 <= w < |s.workers| && s.workers[w].Dropped?
  {
    ReachableInv(c, s);
    CountFull(s.workers, Done);
    if s.main.ReturnedOk? {
      assert forall w :: 0 <= w < |s.workers| ==> KindOf(s.workers[w]) == Done ==> s.workers[w].Finished?;
    }
  }

  // ── Runs without aborts ─────────────────────────────────────────────────────

  /** The flag is never seen set and no job reports an abort. */
  ghost predicate Quiet(schedule: seq<Tick>) {
    forall i :: 0 <= i < |schedule| ==>
      !schedule[i].cancel && !(schedule[i].act.Work? && schedule[i].act.move.JobAborts?)
  }

  lemma QuietStep(c: Config, s: State, a: Act)
    requires Enabled(c, s, false, a) && !(a.Work? && a.move.JobAborts?) && AbortSent !in s.trace
    ensures AbortSent !in Apply(c, s, false, a).trace
  {
  }

  lemma {:induction false} QuietRuns(c: Config, s: State, schedule: seq<Tick>)
    requires Runs(c, s, schedule) && Quiet(schedule) && AbortSent !in s.trace
    ensures AbortSent !in Final(c, s, schedule).trace
    decreases |schedule|
  {
    if schedule != [] {
      assert !schedule[0].cancel;
      QuietStep(c, s, schedule[0].act);
      assert forall i :: 0 <= i < |schedule| - 1 ==> schedule[1..][i] == schedule[i + 1];
      QuietRuns(c, Apply(c, s, false, schedule[0].act), schedule[1..]);
    }
  }

  /** Without an `Aborted` event, returning `Ok` means every job of every batch has
      sent exactly one result, in order. */
  lemma OkWithoutAbortIsComplete(c: Config, s: State, b: nat)
    requires Inv(c, s) && s.main.ReturnedOk? && AbortSent !in s.trace
    requires c.maxWorkers > 0 && b < |c.jobs|
    ensures Numbers(s.trace, b, false) == UpTo(c.jobs[b])
  {
    CountFull(s.workers, Done);
    assert KindOf(s.workers[0]) == Done;
    assert s.workers[0].Finished?;
    assert s.Taken() == |c.jobs|;
    assert forall w :: 0 <= w < |s.workers| ==> KindOf(s.workers[w]) == Done;
    assert !Owned(s, b);
    NumbersOfBatch(s.trace, b, false);
    NumbersInOrder(b, 2 * c.jobs[b], false);
  }

  /** Somebody gave up a batch: a worker dropped out, or a batch was received and
      put down untouched. */
  ghost predicate GivenUp(c: Config, s: State) {
    || (exists w :: 0 <= w < |s.workers| && s.workers[w].Dropped?)
    || (exists b: nat :: PutDown(c, s, b))
  }

  ghost predicate PutDown(c: Config, s: State, b: nat) {
    b < s.Taken() && b < |c.jobs| && !Owned(s, b) && Progress(s, b) == 0
  }

  /** Every `Aborted` event leaves a gap behind. */
  ghost predicate Marked(c: Config, s: State) {
    && (s.main.ReturnedEarly? ==> s.fed < |c.jobs|)
    && (AbortSent in s.trace ==> s.main.ReturnedEarly? || GivenUp(c, s))
  }

  lemma StepKeepsMarked(c: Config, s: State, cancel: bool, a: Act)
    requires Inv(c, s) && Marked(c, s) && Enabled(c, s, cancel, a)
    ensures Marked(c, Apply(c, s, cancel, a))
  {
    hide OfBatch, InOrder, Tokens, Clean;
    var t := Apply(c, s, cancel, a);
    if a.Work? {
      if exists w :: 0 <= w < |s.workers| && s.workers[w].Dropped? {
        var w :| 0 <= w < |s.workers| && s.workers[w].Dropped?;
        assert t.workers[w].Dropped?;
      } else if exists b: nat :: PutDown(c, s, b) {
        var b: nat :| PutDown(c, s, b);
        StaysPutDown(c, s, cancel, a.w, a.move, b);
      } else if AbortSent in t.trace && !t.main.ReturnedEarly? {
        NewGap(c, s, cancel, a.w, a.move);
      }
    } else if exists b: nat :: PutDown(c, s, b) {
      var b: nat :| PutDown(c, s, b);
      assert a.FeedSeesCancel? || PutDown(c, t, b);
    }
  }

  /** A batch that was put down is never picked up again. */
  lemma StaysPutDown(c: Config, s: State, cancel: bool, w: nat, m: Move, b: nat)
    requires Inv(c, s) && Enabled(c, s, cancel, Work(w, m)) && PutDown(c, s, b)
    ensures PutDown(c, Apply(c, s, cancel, Work(w, m)), b)
  {
    hide OfBatch, InOrder;
    var t := Apply(c, s, cancel, Work(w, m));
    assert !s.workers[w].Owns(b);
    MoveKeepsOrder(c, s, cancel, w, m, b);
    assert m.Receive? ==> s.queue[0] == s.Taken();
    assert forall v :: 0 <= v < |t.workers| ==> !t.workers[v].Owns(b) by {
      assert forall v :: 0 <= v < |s.workers| ==> !s.workers[v].Owns(b);
    }
  }

  /** The move that sends the first `Aborted` gives up a batch. */
  lemma NewGap(c: Config, s: State, cancel: bool, w: nat, m: Move)
    requires Inv(c, s) && Enabled(c, s, cancel, Work(w, m)) && AbortSent !in s.trace
    requires AbortSent in Apply(c, s, cancel, Work(w, m)).trace
    ensures GivenUp(c, Apply(c, s, cancel, Work(w, m)))
  {
    hide OfBatch, InOrder;
    var p := s.workers[w];
    var t := Apply(c, s, cancel, Work(w, m));
    assert WorkerInStep(c, s, p);
    if m.CheckBatch? {
      assert p.Owns(p.batch);
      MoveKeepsOrder(c, s, cancel, w, m, p.batch);
      assert forall v :: 0 <= v < |t.workers| ==> !t.workers[v].Owns(p.batch);
      assert PutDown(c, t, p.batch);
    } else {
      assert t.workers[w].Dropped?;
    }
  }

  lemma {:induction false} RunsKeepMarked(c: Config, s: State, schedule: seq<Tick>)
    requires Inv(c, s) && Marked(c, s) && Runs(c, s, schedule)
    ensures Marked(c, Final(c, s, schedule))
    decreases |schedule|
  {
    hide Inv, Marked, Enabled, Apply;
    if schedule != [] {
      StepKeepsInv(c, s, schedule[0].cancel, schedule[0].act);
      StepKeepsMarked(c, s, schedule[0].cancel, schedule[0].act);
      RunsKeepMarked(c, Apply(c, s, schedule[0].cancel, schedule[0].act), schedule[1..]);
    }
  }

  ghost predicate Complete(c: Config, s: State) {
    forall b :: 0 <= b < |c.jobs| ==> Numbers(s.trace, b, false) == UpTo(c.jobs[b])
  }

  /** Exactly when `Ok`, early or late, means one result for every job of every batch,
      in order: when no `Aborted` event was sent. Batches are never empty. */
  lemma OkIsCompleteIff(c: Config, s: State)
    requires Reachable(c, s) && c.maxWorkers > 0 && forall b :: 0 <= b < |c.jobs| ==> c.jobs[b] > 0
    requires s.main.ReturnedOk? || s.main.ReturnedEarly?
    ensures Complete(c, s) <==> AbortSent !in s.trace
  {
    var schedule :| Runs(c, Init(c), schedule) && Final(c, Init(c), schedule) == s;
    InitInv(c);
    RunsKeepInv(c, Init(c), schedule);
    RunsKeepMarked(c, Init(c), schedule);
    MarkedIsCompleteIff(c, s);
  }

  lemma MarkedIsCompleteIff(c: Config, s: State)
    requires Inv(c, s) && Marked(c, s) && c.maxWorkers > 0 && forall b :: 0 <= b < |c.jobs| ==> c.jobs[b] > 0
    requires s.main.ReturnedOk? || s.main.ReturnedEarly?
    ensures Complete(c, s) <==> AbortSent !in s.trace
  {
    if AbortSent in s.trace {
      var b := UntouchedBatch(c, s);
      NumbersOfBatch(s.trace, b, false);
      NumbersInOrder(b, 0, false);
      assert |UpTo(c.jobs[b])| > 0;
    } else {
      forall b | 0 <= b < |c.jobs| ensures Numbers(s.trace, b, false) == UpTo(c.jobs[b]) {
        OkWithoutAbortIsComplete(c, s, b);
      }
    }
  }

  lemma UntouchedBatch(c: Config, s: State) returns (b: nat)
    requires Inv(c, s) && Marked(c, s) && AbortSent in s.trace
    requires s.main.ReturnedOk? || s.main.ReturnedEarly?
    ensures b < |c.jobs| && Progress(s, b) == 0 && OfBatch(s.trace, b) == InOrder(b, 0)
  {
    hide OfBatch, InOrder;
    if s.main.ReturnedEarly? {
      b := s.fed;
    } else {
      CountFull(s.workers, Done);
      assert forall w :: 0 <= w < |s.workers| ==> KindOf(s.workers[w]) == Done;
      b :| PutDown(c, s, b);
    }
  }

  /** A quiet run that has ended returned `Ok` with one result for every job. */
  lemma QuietRunCompletes(c: Config, schedule: seq<Tick>, b: nat)
    requires Runs(c, Init(c), schedule) && Quiet(schedule) && Terminated(Final(c, Init(c), schedule))
    requires c.maxWorkers > 0 && b < |c.jobs|
    ensures var s := Final(c, Init(c), schedule);
            s.main.ReturnedOk? && Numbers(s.trace, b, false) == UpTo(c.jobs[b])
  {
    var s := Final(c, Init(c), schedule);
    assert Reachable(c, s);
    ReachableInv(c, s);
    QuietRuns(c, Init(c), schedule);
    if s.main.ReturnedErr? {
      WaitReturnsOkIff(c, s);
    }
    OkWithoutAbortIsComplete(c, s, b);
  }

  /** With no workers at all the phase still returns `Ok`, having run nothing. */
  lemma {:induction false} NoWorkersRunNothing(c: Config, s: State, schedule: seq<Tick>)
    requires c.maxWorkers == 0 && s.workers == [] && Runs(c, s, schedule)
    requires forall e :: e in s.trace ==> e.AbortSent?
    ensures forall e :: e in Final(c, s, schedule).trace ==> e.AbortSent?
    ensures Final(c, s, schedule).workers == []
    decreases |schedule|
  {
    if schedule != [] {
      NoWorkersRunNothing(c, Apply(c, s, schedule[0].cancel, schedule[0].act), schedule[1..]);
    }
  }

  /** Quiet is needed: `Ok` alone does not mean complete. A worker that sees the flag
      at the head of a batch breaks out, yet still sends its token. */
  lemma OkMayBeIncomplete() returns (c: Config, schedule: seq<Tick>)
    ensures c == Config([1], 1) && Runs(c, Init(c), schedule)
    ensures forall i :: 0 <= i < |schedule| ==> !schedule[i].act.Work? || !schedule[i].act.move.JobAborts?
    ensures var s := Final(c, Init(c), schedule); s.main.ReturnedOk? && Numbers(s.trace, 0, false) == []
  {
    c := Config([1], 1);
    schedule := [Tick(false, Feed), Tick(false, CloseQueue), Tick(false, Work(0, Receive)),
                 Tick(true, Work(0, CheckBatch)), Tick(true, Work(0, SendToken)),
                 Tick(true, TakeToken), Tick(true, Return)];
    hide Numbers, Runs, Final, OfBatch, Init, Apply, Enabled;
    var idle, left := [Idle], [Finished];
    var s1 := State(idle, Feeding, 1, [0], 0, 0, []);
    var s2 := State(idle, Waiting, 1, [0], 0, 0, []);
    var s3 := State([Holding(0)], Waiting, 1, [], 0, 0, []);
    var s4 := State([Leaving], Waiting, 1, [], 0, 0, [AbortSent]);
    var s5 := State(left, Waiting, 1, [], 1, 0, [AbortSent]);
    var s6 := State(left, Waiting, 1, [], 0, 1, [AbortSent]);
    var s7 := State(left, ReturnedOk, 1, [], 0, 1, [AbortSent]);
    Feeds(c);
    BreaksOnCancel(c);
    OnlyAbortSent(0);
    RunsNowhere(c, s7);
    RunsOf(c, s6, Tick(true, Return), s7, []);
    RunsOf(c, s5, Tick(true, TakeToken), s6, [Tick(true, Return)]);
    RunsOf(c, s4, Tick(true, Work(0, SendToken)), s5, [Tick(true, TakeToken), Tick(true, Return)]);
    RunsOf(c, s3, Tick(true, Work(0, CheckBatch)), s4, schedule[4..]);
    RunsOf(c, s2, Tick(false, Work(0, Receive)), s3, schedule[3..]);
    RunsOf(c, s1, Tick(false, CloseQueue), s2, schedule[2..]);
    RunsOf(c, Init(c), Tick(false, Feed), s1, schedule[1..]);
  }

  lemma RunsNowhere(c: Config, s: State)
    ensures Runs(c, s, []) && Final(c, s, []) == s
  {
  }

  lemma OnlyAbortSent(b: nat)
    ensures Numbers([AbortSent], b, false) == []
  {
    assert [AbortSent][..0] == [];
  }

  /** One batch of one job, one worker: fed, closed, received. */
  lemma Feeds(c: Config)
    requires c == Config([1], 1)
    ensures var s1, s2 := State([Idle], Feeding, 1, [0], 0, 0, []), State([Idle], Waiting, 1, [0], 0, 0, []);
            && Step(c, Init(c), false, Feed, s1) && Step(c, s1, false, CloseQueue, s2)
            && Step(c, s2, false, Work(0, Receive), State([Holding(0)], Waiting, 1, [], 0, 0, []))
  {
    var s0 := Init(c);
    assert s0.workers == [Idle];
    assert [0 as nat][1..] == [];
  }

  /** The worker breaks out of its loop on cancel, and the phase returns `Ok`. */
  lemma BreaksOnCancel(c: Config)
    requires c == Config([1], 1)
    ensures var s4 := State([Leaving], Waiting, 1, [], 0, 0, [AbortSent]);
            var s5 := State([Finished], Waiting, 1, [], 1, 0, [AbortSent]);
            var s6 := State([Finished], Waiting, 1, [], 0, 1, [AbortSent]);
            && Step(c, State([Holding(0)], Waiting, 1, [], 0, 0, []), true, Work(0, CheckBatch), s4)
            && Step(c, s4, true, Work(0, SendToken), s5) && Step(c, s5, true, TakeToken, s6)
            && Step(c, s6, true, Return, s6.(main := ReturnedOk))
  {
    assert [AbortSent] + [] == [AbortSent];
  }

  /** A worker that sees the flag between jobs returns without a token, and the phase
      then reports an error, not `Ok`. */
  lemma AbortMidBatchIsAnError() returns (c: Config, schedule: seq<Tick>)
    ensures c.maxWorkers > 0 && c.jobs == [1] && Runs(c, Init(c), schedule)
    ensures Final(c, Init(c), schedule).main.ReturnedErr?
  {
    c := Config([1], 1);
    schedule := [Tick(false, Feed), Tick(false, CloseQueue), Tick(false, Work(0, Receive)),
                 Tick(false, Work(0, CheckBatch)), Tick(true, Work(0, NextJob)), Tick(true, TokensClosed)];
    hide Runs, Final, Init, Apply, Enabled;
    var s1 := State([Idle], Feeding, 1, [0], 0, 0, []);
    var s2 := State([Idle], Waiting, 1, [0], 0, 0, []);
    var s3 := State([Holding(0)], Waiting, 1, [], 0, 0, []);
    var s4 := State([Running(0, 0, false)], Waiting, 1, [], 0, 0, []);
    var s5 := State([Dropped], Waiting, 1, [], 0, 0, [AbortSent]);
    Feeds(c);
    DropsMidBatch(c);
    RunsNowhere(c, s5.(main := ReturnedErr));
    RunsOf(c, s5, Tick(true, TokensClosed), s5.(main := ReturnedErr), []);
    RunsOf(c, s4, Tick(true, Work(0, NextJob)), s5, [Tick(true, TokensClosed)]);
    RunsOf(c, s3, Tick(false, Work(0, CheckBatch)), s4, schedule[4..]);
    RunsOf(c, s2, Tick(false, Work(0, Receive)), s3, schedule[3..]);
    RunsOf(c, s1, Tick(false, CloseQueue), s2, schedule[2..]);
    RunsOf(c, Init(c), Tick(false, Feed), s1, schedule[1..]);
  }

  /** The worker leaves mid-batch on cancel, and the phase returns an error. */
  lemma DropsMidBatch(c: Config)
    requires c == Config([1], 1)
    ensures var s4 := State([Running(0, 0, false)], Waiting, 1, [], 0, 0, []);
            var s5 := State([Dropped], Waiting, 1, [], 0, 0, [AbortSent]);
            && Step(c, State([Holding(0)], Waiting, 1, [], 0, 0, []), false, Work(0, CheckBatch), s4)
            && Step(c, s4, true, Work(0, NextJob), s5)
            && Step(c, s5, true, TokensClosed, s5.(main := ReturnedErr))
  {
  }

  lemma RunsOf(c: Config, s: State, tick: Tick, t: State, rest: seq<Tick>)
    requires Step(c, s, tick.cancel, tick.act, t) && Runs(c, t, rest)
    ensures Runs(c, s, [tick] + rest) && Final(c, s, [tick] + rest) == Final(c, t, rest)
  {
    assert ([tick] + rest)[1..] == rest;
  }

  // ── Counting results ────────────────────────────────────────────────────────

  function CountSent(trace: seq<Entry>): nat {
    if trace == [] then 0
    else CountSent(trace[..|trace| - 1]) + if trace[|trace| - 1].Sent? then 1 else 0
  }

  function SentBelow(trace: seq<Entry>, n: nat): nat {
    if n == 0 then 0 else SentBelow(trace, n - 1) + |Numbers(trace, n - 1, false)|
  }

  function Sum(jobs: seq<nat>): nat {
    if jobs == [] then 0 else Sum(jobs[..|jobs| - 1]) + jobs[|jobs| - 1]
  }

  lemma {:induction false} SentBelowAppend(trace: seq<Entry>, e: Entry, n: nat)
    ensures SentBelow(trace + [e], n) == SentBelow(trace, n) + if e.Sent? && e.batch < n then 1 else 0
  {
    if n > 0 {
      SentBelowAppend(trace, e, n - 1);
      assert (trace + [e])[..|trace|] == trace;
    }
  }

  lemma {:induction false} SentBelowNothing(n: nat)
    ensures SentBelow([], n) == 0
  {
    if n > 0 {
      SentBelowNothing(n - 1);
    }
  }

  lemma {:induction false} CountSentByBatch(trace: seq<Entry>, n: nat)
    requires forall e :: e in trace && e.Sent? ==> e.batch < n
    ensures CountSent(trace) == SentBelow(trace, n)
  {
    if trace == [] {
      SentBelowNothing(n);
    } else {
      var front, last := trace[..|trace| - 1], trace[|trace| - 1];
      assert trace == front + [last];
      CountSentByBatch(front, n);
      SentBelowAppend(front, last, n);
    }
  }

  lemma {:induction false} SentBelowComplete(trace: seq<Entry>, jobs: seq<nat>)
    requires forall b :: 0 <= b < |jobs| ==> |Numbers(trace, b, false)| == jobs[b]
    ensures SentBelow(trace, |jobs|) == Sum(jobs)
  {
    if jobs != [] {
      SentBelowComplete(trace, jobs[..|jobs| - 1]);
    }
  }

  lemma {:induction false} EntryInBatch(trace: seq<Entry>, e: Entry)
    requires e in trace && !e.AbortSent?
    ensures OfBatch(trace, e.batch) != []
  {
    var front, last := trace[..|trace| - 1], trace[|trace| - 1];
    if last != e {
      EntryInBatch(front, e);
    }
  }

  /** The number of results of a complete phase is the number of its jobs. */
  lemma ResultsOfCompletePhase(c: Config, s: State)
    requires Inv(c, s) && s.main.ReturnedOk? && AbortSent !in s.trace && c.maxWorkers > 0
    ensures CountSent(s.trace) == Sum(c.jobs)
  {
    forall e | e in s.trace && e.Sent? ensures e.batch < |c.jobs| {
      EntryInBatch(s.trace, e);
      assert Progress(s, e.batch) > 0;
    }
    CountSentByBatch(s.trace, |c.jobs|);
    forall b | 0 <= b < |c.jobs| ensures |Numbers(s.trace, b, false)| == c.jobs[b] {
      OkWithoutAbortIsComplete(c, s, b);
    }
    SentBelowComplete(s.trace, c.jobs);
  }
}
