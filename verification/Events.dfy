/** The events background workers send to the GUI (src/worker/mod.rs). */
module Events {
  import opened Prelude

  const U64_MAX: nat := 0xffff_ffff_ffff_ffff

  function SaturatingAdd(a: nat, b: nat): nat {
    Min(a + b, U64_MAX)
  }

  /** One file-level check; its texts are left out. */
  datatype VerificationResult = VerificationResult(ok: bool, processedBytes: nat)

  datatype Event =
    | DrivesFound(drives: seq<nat>)
    | JobsReady(count: nat, workers: nat, totalBytes: nat)
    | Progress(delta: nat)
    | Result(result: VerificationResult)
    | Aborted
    | Log
    | Fatal

  function CountResults(events: seq<Event>): nat {
    if events == [] then 0
    else CountResults(events[..|events| - 1]) + if events[|events| - 1].Result? then 1 else 0
  }

  lemma CountResultsAppend(events: seq<Event>, e: Event)
    ensures CountResults(events + [e]) == CountResults(events) + if e.Result? then 1 else 0
  {
    assert (events + [e])[..|events|] == events;
  }

  lemma {:induction false} CountResultsConcat(a: seq<Event>, b: seq<Event>)
    ensures CountResults(a + b) == CountResults(a) + CountResults(b)
  {
    if b == [] {
      assert a + b == a;
    } else {
      var front, last := b[..|b| - 1], b[|b| - 1];
      CountResultsConcat(a, front);
      assert a + b == (a + front) + [last] && b == front + [last];
      CountResultsAppend(a + front, last);
      CountResultsAppend(front, last);
    }
  }
}
