/** The worker pool of `run_drive_phase` (src/worker/execute.rs) as a transition
    system: one step is one action of the feeding thread or of one worker. Every
    step sees an arbitrary value of the shared cancel flag. */
module Pool {
  import opened Prelude

  // ── States and steps ────────────────────────────────────────────────────────

  /** `jobs[b]` is the number of jobs in the batch of drive b. */
  datatype Config = Config(jobs: seq<nat>, maxWorkers: nat) {
    function Workers(): nat {
      Min(maxWorkers, Max(|jobs|, 1))
    }
  }

  /** Where a worker thread stands. */
  datatype Worker =
    | Idle                                           // in `recv`
    | Holding(batch: nat)                            // received, before the batch-level cancel check
    | Running(batch: nat, done: nat, busy: bool)     // between jobs, or inside job number `done`
    | Leaving                                        // out of the loop, before the done token
    | Finished                                       // sent its done token
    | Dropped                                        // returned mid-batch, without a token
  {
    predicate Exited() {
      Finished? || Dropped?
    }

    predicate Owns(b: nat) {
      (Holding? || Running?) && batch == b
    }
  }

  /** Where `run_drive_phase` itself stands. */
  datatype Main =
    | Feeding
    | Waiting
    | ReturnedOk
    | ReturnedEarly      // `Ok` out of the feeding loop, on cancel
    | ReturnedErr        // the done channel closed before enough tokens came

  /** What happened, in order: a job started, its `VerificationResult` was sent, an
      `Aborted` event was sent. */
  datatype Entry = Started(batch: nat, job: nat) | Sent(batch: nat, job: nat) | AbortSent {
    predicate Of(b: nat) {
      !AbortSent? && batch == b
    }
  }

  /** `fed` batches have been put on the job channel, whose contents are `queue`;
      `tokens` done tokens are unread and `received` were read. */
  datatype State = State(
    workers: seq<Worker>, main: Main, fed: nat, queue: seq<nat>, tokens: nat, received: nat, trace: seq<Entry>)
  {
    /** Batches some worker has received. */
    function Taken(): int {
      fed - |queue|
    }
  }

  /** What a worker can do: one interaction with a channel, the flag or a job. */
  datatype Move = Receive | Disconnect | CheckBatch | NextJob | JobCompletes | JobAborts | SendToken

  datatype Act =
    | Feed
    | FeedSeesCancel
    | CloseQueue
    | TakeToken
    | TokensClosed
    | Return
    | Work(w: nat, move: Move)

  function Init(c: Config): State {
    if c.jobs == [] then State([], ReturnedOk, 0, [], 0, 0, [])
    else State(seq(c.Workers(), _ => Idle), Feeding, 0, [], 0, 0, [])
  }

  predicate AllExited(workers: seq<Worker>) {
    forall w :: 0 <= w < |workers| ==> workers[w].Exited()
  }

  predicate Enabled(c: Config, s: State, cancel: bool, a: Act) {
    match a
    case Feed => s.main.Feeding? && s.fed < |c.jobs| && !cancel
    case FeedSeesCancel => s.main.Feeding? && s.fed < |c.jobs| && cancel
    case CloseQueue => s.main.Feeding? && s.fed == |c.jobs|
    case TakeToken => s.main.Waiting? && s.received < |s.workers| && s.tokens > 0
    case TokensClosed => s.main.Waiting? && s.received < |s.workers| && s.tokens == 0 && AllExited(s.workers)
    case Return => s.main.Waiting? && s.received == |s.workers|
    case Work(w, m) => w < |s.workers| && CanMove(s, s.workers[w], m)
  }

  predicate CanMove(s: State, p: Worker, m: Move) {
    match m
    case Receive => p.Idle? && s.queue != []
    case Disconnect => p.Idle? && s.queue == [] && !s.main.Feeding?
    case CheckBatch => p.Holding?
    case NextJob => p.Running? && !p.busy
    case JobCompletes => p.Running? && p.busy
    case JobAborts => p.Running? && p.busy
    case SendToken => p.Leaving?
  }

  predicate HasNext(c: Config, p: Worker)
    requires p.Running?
  {
    p.batch < |c.jobs| && p.done < c.jobs[p.batch]
  }

  /** Where a move takes the worker that makes it. */
  function Moved(c: Config, s: State, cancel: bool, p: Worker, m: Move): Worker
    requires CanMove(s, p, m)
  {
    match m
    case Receive => Holding(s.queue[0])
    case Disconnect => Leaving
    case CheckBatch => if cancel then Leaving else Running(p.batch, 0, false)
    case NextJob =>
      if !HasNext(c, p) then Idle else if cancel then Dropped else Running(p.batch, p.done, true)
    case JobCompletes => Running(p.batch, p.done + 1, false)
    case JobAborts => Dropped
    case SendToken => Finished
  }

  /** What a move adds to the trace. */
  function Logged(c: Config, s: State, cancel: bool, p: Worker, m: Move): (l: seq<Entry>)
    requires CanMove(s, p, m)
    ensures |l| <= 1
  {
    match m
    case Receive => []
    case Disconnect => []
    case CheckBatch => if cancel then [AbortSent] else []
    case NextJob =>
      if !HasNext(c, p) then [] else if cancel then [AbortSent] else [Started(p.batch, p.done)]
    case JobCompletes => [Sent(p.batch, p.done)]
    case JobAborts => [AbortSent]
    case SendToken => []
  }

  function Apply(c: Config, s: State, cancel: bool, a: Act): State
    requires Enabled(c, s, cancel, a)
  {
    match a
    case Feed => s.(fed := s.fed + 1, queue := s.queue + [s.fed])
    case FeedSeesCancel => s.(main := ReturnedEarly, trace := s.trace + [AbortSent])
    case CloseQueue => s.(main := Waiting)
    case TakeToken => s.(received := s.received + 1, tokens := s.tokens - 1)
    case TokensClosed => s.(main := ReturnedErr)
    case Return => s.(main := ReturnedOk)
    case Work(w, m) =>
      s.(workers := s.workers[w := Moved(c, s, cancel, s.workers[w], m)],
         queue := if m.Receive? then s.queue[1..] else s.queue,
         tokens := if m.SendToken? then s.tokens + 1 else s.tokens,
         trace := s.trace + Logged(c, s, cancel, s.workers[w], m))
  }

  ghost predicate Step(c: Config, s: State, cancel: bool, a: Act, t: State) {
    Enabled(c, s, cancel, a) && t == Apply(c, s, cancel, a)
  }

  // ── Bookkeeping over the trace ──────────────────────────────────────────────

  /** The entries of one batch, in order. */
  function OfBatch(trace: seq<Entry>, b: nat): seq<Entry> {
    if trace == [] then []
    else
      var front, last := trace[..|trace| - 1], trace[|trace| - 1];
      OfBatch(front, b) + if last.Of(b) then [last] else []
  }

  /** Start and result of job 0, start and result of job 1, and so on: n entries. */
  function InOrder(b: nat, n: nat): (t: seq<Entry>)
    ensures |t| == n
  {
    seq(n, i requires 0 <= i < n => if i % 2 == 0 then Started(b, i / 2) else Sent(b, i / 2))
  }

  function Progress(s: State, b: nat): nat {
    |OfBatch(s.trace, b)|
  }

  lemma OfBatchAppend(trace: seq<Entry>, e: Entry, b: nat)
    ensures OfBatch(trace + [e], b) == OfBatch(trace, b) + if e.Of(b) then [e] else []
  {
    assert (trace + [e])[..|trace|] == trace;
  }

  /** Appending the next entry in order keeps a batch in order. */
  lemma InOrderAppend(b: nat, n: nat)
    ensures InOrder(b, n + 1) == InOrder(b, n) + [if n % 2 == 0 then Started(b, n / 2) else Sent(b, n / 2)]
  {
  }

  /** Every worker is live, has sent its token, or left without one. */
  datatype Kind = Live | Done | Gone

  function KindOf(p: Worker): Kind {
    match p
    case Finished => Done
    case Dropped => Gone
    case _ => Live
  }

  function Count(workers: seq<Worker>, kind: Kind): nat {
    if workers == [] then 0
    else Count(workers[1..], kind) + if KindOf(workers[0]) == kind then 1 else 0
  }

  lemma {:induction false} CountUpdate(workers: seq<Worker>, w: nat, p: Worker, kind: Kind)
    requires w < |workers|
    ensures Count(workers[w := p], kind) + (if KindOf(workers[w]) == kind then 1 else 0)
         == Count(workers, kind) + (if KindOf(p) == kind then 1 else 0)
  {
    if w == 0 {
      assert workers[w := p][1..] == workers[1..];
    } else {
      CountUpdate(workers[1..], w - 1, p, kind);
      assert workers[w := p][1..] == workers[1..][w - 1 := p];
    }
  }

  /** The count is full exactly when every worker is of the kind. */
  lemma {:induction false} CountFull(workers: seq<Worker>, kind: Kind)
    ensures Count(workers, kind) <= |workers|
    ensures Count(workers, kind) == |workers| <==> forall w :: 0 <= w < |workers| ==> KindOf(workers[w]) == kind
  {
    if workers != [] {
      CountFull(workers[1..], kind);
      assert forall w :: 1 <= w < |workers| ==> workers[w] == workers[1..][w - 1];
      if forall w :: 0 <= w < |workers| ==> KindOf(workers[w]) == kind {
        assert forall w :: 0 <= w < |workers| - 1 ==> workers[1..][w] == workers[w + 1];
      }
    }
  }

  lemma {:induction false} KindsPartition(workers: seq<Worker>)
    ensures Count(workers, Done) + Count(workers, Live) + Count(workers, Gone) == |workers|
  {
    if workers != [] {
      KindsPartition(workers[1..]);
    }
  }

  // ── The invariant ───────────────────────────────────────────────────────────

  /** Queue and ownership: the queue is a window of the batches in order, and a
      received batch is held by at most one worker. */
  ghost predicate Ownership(c: Config, s: State) {
    && |s.workers| == (if c.jobs == [] then 0 else c.Workers())
    && |s.queue| <= s.fed <= |c.jobs|
    && (forall i :: 0 <= i < |s.queue| ==> s.queue[i] == s.Taken() + i)
    && (forall w, b: nat :: 0 <= w < |s.workers| && s.workers[w].Owns(b) ==> b < s.Taken())
    && (forall w, v, b: nat | 0 <= w < |s.workers| && 0 <= v < |s.workers| ::
          s.workers[w].Owns(b) && s.workers[v].Owns(b) ==> w == v)
  }

  /** How far a worker is agrees with what its batch has put in the trace. */
  ghost predicate WorkerInStep(c: Config, s: State, p: Worker) {
    match p
    case Holding(b) => Progress(s, b) == 0
    case Running(b, j, busy) =>
      && b < |c.jobs| && (if busy then j < c.jobs[b] else j <= c.jobs[b])
      && Progress(s, b) == 2 * j + if busy then 1 else 0
    case _ => true
  }

  ghost predicate Sequencing(c: Config, s: State) {
    && (forall b: nat :: OfBatch(s.trace, b) == InOrder(b, Progress(s, b)))
    && (forall b: nat :: b >= s.Taken() ==> Progress(s, b) == 0)
    && (forall b: nat :: b < |c.jobs| ==> Progress(s, b) <= 2 * c.jobs[b])
    && (forall w :: 0 <= w < |s.workers| ==> WorkerInStep(c, s, s.workers[w]))
  }

  ghost predicate Tokens(c: Config, s: State) {
    && s.tokens + s.received == Count(s.workers, Done)
    && s.received <= |s.workers|
    && (s.main.Waiting? || s.main.ReturnedOk? || s.main.ReturnedErr? ==> s.fed == |c.jobs|)
    && (s.main.ReturnedOk? ==> s.received == |s.workers|)
    && (s.main.ReturnedErr? ==> s.received < |s.workers| && s.tokens == 0 && AllExited(s.workers))
    && (s.main.Feeding? || s.main.ReturnedEarly? ==> s.received == 0)
  }

  ghost predicate Owned(s: State, b: nat) {
    exists w :: 0 <= w < |s.workers| && s.workers[w].Owns(b)
  }

  /** As long as no `Aborted` was sent, nobody gave up a batch. */
  ghost predicate Clean(c: Config, s: State) {
    AbortSent !in s.trace ==>
      && !s.main.ReturnedEarly?
      && (forall w :: 0 <= w < |s.workers| ==>
            !s.workers[w].Dropped? &&
            (s.workers[w].Leaving? || s.workers[w].Finished? ==> s.queue == [] && !s.main.Feeding?))
      && (forall b: nat :: b < s.Taken() && b < |c.jobs| && !Owned(s, b) ==> Progress(s, b) == 2 * c.jobs[b])
  }

  ghost predicate Inv(c: Config, s: State) {
    Ownership(c, s) && Sequencing(c, s) && Tokens(c, s) && Clean(c, s)
  }

  lemma InitInv(c: Config)
    ensures Inv(c, Init(c))
  {
    CountOfIdle(c.Workers());
  }

  lemma {:induction false} CountOfIdle(n: nat)
    ensures Count(seq(n, _ => Idle), Done) == 0
  {
    if n > 0 {
      CountOfIdle(n - 1);
      assert seq(n, _ => Idle)[1..] == seq(n - 1, _ => Idle);
    }
  }

  lemma StepKeepsOwnership(c: Config, s: State, cancel: bool, a: Act)
    requires Ownership(c, s) && Enabled(c, s, cancel, a)
    ensures Ownership(c, Apply(c, s, cancel, a))
  {
    var t := Apply(c, s, cancel, a);
    if a.Work? {
      var p := Moved(c, s, cancel, s.workers[a.w], a.move);
      if a.move.Receive? {
        assert s.queue[0] == s.Taken() && t.Taken() == s.Taken() + 1;
      }
      forall w, b: nat | 0 <= w < |t.workers| && t.workers[w].Owns(b)
        ensures b < t.Taken() && ((w == a.w && a.move.Receive?) || s.workers[w].Owns(b))
      {
        assert t.workers[w] == if w == a.w then p else s.workers[w];
        assert a.move.Receive? && w == a.w ==> b == s.queue[0];
        assert !(a.move.Receive? && w == a.w) ==> s.workers[w].Owns(b);
      }
    } else {
      assert t.workers == s.workers;
      assert s.main.Feeding? && a.Feed? ==> t.Taken() == s.Taken();
    }
  }

  /** The part of a move's log that concerns its batch. */
  function Advance(c: Config, cancel: bool, p: Worker, m: Move): seq<Entry> {
    if !p.Running? then []
    else if m.JobCompletes? then [Sent(p.batch, p.done)]
    else if m.NextJob? && HasNext(c, p) && !cancel then [Started(p.batch, p.done)]
    else []
  }

  /** A move adds at most one entry to its own batch, in order, and none to others. */
  lemma MoveKeepsOrder(c: Config, s: State, cancel: bool, w: nat, m: Move, b: nat)
    requires Sequencing(c, s) && Enabled(c, s, cancel, Work(w, m))
    ensures var t := Apply(c, s, cancel, Work(w, m));
            && OfBatch(t.trace, b) == InOrder(b, Progress(t, b))
            && (!s.workers[w].Owns(b) ==> Progress(t, b) == Progress(s, b))
            && (s.workers[w].Owns(b) ==> Progress(t, b) == Progress(s, b) + |Advance(c, cancel, s.workers[w], m)|)
  {
    assert WorkerInStep(c, s, s.workers[w]);
    LogKeepsOrder(c, s, cancel, s.workers[w], m, b);
  }

  /** What a worker logs continues its own batch in order. */
  lemma LogKeepsOrder(c: Config, s: State, cancel: bool, p: Worker, m: Move, b: nat)
    requires OfBatch(s.trace, b) == InOrder(b, Progress(s, b)) && WorkerInStep(c, s, p) && CanMove(s, p, m)
    ensures var trace := s.trace + Logged(c, s, cancel, p, m);
            && OfBatch(trace, b) == InOrder(b, |OfBatch(trace, b)|)
            && |OfBatch(trace, b)| == Progress(s, b) + if p.Owns(b) then |Advance(c, cancel, p, m)| else 0
  {
    hide InOrder, OfBatch;
    var l := Logged(c, s, cancel, p, m);
    if l == [] {
      assert s.trace + l == s.trace;
    } else {
      assert l == [l[0]];
      OfBatchAppend(s.trace, l[0], b);
      if p.Owns(b) && !l[0].AbortSent? {
        InOrderAppend(b, Progress(s, b));
        Halves(p.done);
      } else {
        assert OfBatch(s.trace, b) + [] == OfBatch(s.trace, b);
      }
    }
  }

  lemma Halves(j: nat)
    ensures (2 * j) % 2 == 0 && (2 * j) / 2 == j && (2 * j + 1) % 2 == 1 && (2 * j + 1) / 2 == j
  {
  }

  lemma StepKeepsSequencing(c: Config, s: State, cancel: bool, a: Act)
    requires Ownership(c, s) && Sequencing(c, s) && Enabled(c, s, cancel, a)
    ensures Sequencing(c, Apply(c, s, cancel, a))
  {
    hide InOrder, OfBatch;
    var t := Apply(c, s, cancel, a);
    if a.Work? {
      forall b: nat
        ensures OfBatch(t.trace, b) == InOrder(b, Progress(t, b))
        ensures b >= t.Taken() ==> Progress(t, b) == 0
        ensures b < |c.jobs| ==> Progress(t, b) <= 2 * c.jobs[b]
      {
        MoveKeepsOrder(c, s, cancel, a.w, a.move, b);
        assert WorkerInStep(c, s, s.workers[a.w]);
      }
      forall w | 0 <= w < |t.workers| ensures WorkerInStep(c, t, t.workers[w]) {
        WorkerStaysInStep(c, s, cancel, a.w, a.move, w);
      }
    } else if a.FeedSeesCancel? {
      forall b: nat ensures OfBatch(t.trace, b) == OfBatch(s.trace, b) {
        OfBatchAppend(s.trace, AbortSent, b);
        assert OfBatch(s.trace, b) + [] == OfBatch(s.trace, b);
      }
    }
  }

  lemma WorkerStaysInStep(c: Config, s: State, cancel: bool, w: nat, m: Move, v: nat)
    requires Ownership(c, s) && Sequencing(c, s) && Enabled(c, s, cancel, Work(w, m)) && v < |s.workers|
    ensures var t := Apply(c, s, cancel, Work(w, m)); WorkerInStep(c, t, t.workers[v])
  {
    hide InOrder, OfBatch;
    var p := s.workers[v];
    assert WorkerInStep(c, s, p);
    if v != w {
      if p.Holding? || p.Running? {
        assert p.Owns(p.batch);
        MoveKeepsOrder(c, s, cancel, w, m, p.batch);
      }
    } else if m.Receive? {
      MoveKeepsOrder(c, s, cancel, w, m, s.queue[0]);
    } else if p.Holding? || p.Running? {
      MoveKeepsOrder(c, s, cancel, w, m, p.batch);
    }
  }

  lemma StepKeepsTokens(c: Config, s: State, cancel: bool, a: Act)
    requires Ownership(c, s) && Tokens(c, s) && Enabled(c, s, cancel, a)
    ensures Tokens(c, Apply(c, s, cancel, a))
  {
    if a.Work? {
      CountUpdate(s.workers, a.w, Moved(c, s, cancel, s.workers[a.w], a.move), Done);
    }
  }

  lemma StepKeepsClean(c: Config, s: State, cancel: bool, a: Act)
    requires Ownership(c, s) && Sequencing(c, s) && Tokens(c, s) && Clean(c, s) && Enabled(c, s, cancel, a)
    ensures Clean(c, Apply(c, s, cancel, a))
  {
    hide InOrder, OfBatch, Owned, Ownership, Sequencing, Progress;
    var t := Apply(c, s, cancel, a);
    if AbortSent !in t.trace {
      assert AbortSent !in s.trace;
      forall b: nat | b < t.Taken() && b < |c.jobs| && !Owned(t, b) ensures Progress(t, b) == 2 * c.jobs[b] {
        UnownedIsDone(c, s, cancel, a, b);
      }
    }
  }

  lemma UnownedIsDone(c: Config, s: State, cancel: bool, a: Act, b: nat)
    requires Ownership(c, s) && Sequencing(c, s) && Clean(c, s) && Enabled(c, s, cancel, a)
    requires var t := Apply(c, s, cancel, a);
             AbortSent !in t.trace && AbortSent !in s.trace && b < t.Taken() && b < |c.jobs| && !Owned(t, b)
    ensures Progress(Apply(c, s, cancel, a), b) == 2 * c.jobs[b]
  {
    hide InOrder, OfBatch;
    if a.Work? {
      MoveKeepsOrder(c, s, cancel, a.w, a.move, b);
      UnownedBefore(c, s, cancel, a.w, a.move, b);
    }
  }

  /** Without an abort, a batch nobody owns after a move was complete or unowned before it. */
  lemma UnownedBefore(c: Config, s: State, cancel: bool, w: nat, m: Move, b: nat)
    requires Ownership(c, s) && Sequencing(c, s) && Enabled(c, s, cancel, Work(w, m))
    requires var t := Apply(c, s, cancel, Work(w, m));
             AbortSent !in t.trace && b < t.Taken() && b < |c.jobs| && !Owned(t, b)
    ensures b < s.Taken()
    ensures !Owned(s, b) || (s.workers[w].Owns(b) && m.NextJob? && Progress(s, b) == 2 * c.jobs[b])
  {
    hide InOrder, OfBatch;
    var p := s.workers[w];
    var t := Apply(c, s, cancel, Work(w, m));
    var l := Logged(c, s, cancel, p, m);
    assert WorkerInStep(c, s, p);
    assert l != [] ==> t.trace[|s.trace|] == l[0];
    assert !t.workers[w].Owns(b);
    if m.Receive? {
      assert t.workers[w].Owns(s.queue[0]);
    }
    assert forall v :: 0 <= v < |s.workers| && v != w ==> t.workers[v] == s.workers[v];
    assert Owned(s, b) ==> p.Owns(b);
  }

  lemma StepKeepsInv(c: Config, s: State, cancel: bool, a: Act)
    requires Inv(c, s) && Enabled(c, s, cancel, a)
    ensures Inv(c, Apply(c, s, cancel, a))
  {
    StepKeepsOwnership(c, s, cancel, a);
    StepKeepsSequencing(c, s, cancel, a);
    StepKeepsTokens(c, s, cancel, a);
    StepKeepsClean(c, s, cancel, a);
  }
}
