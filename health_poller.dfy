/**
 * `pollUntilApplicationHealthIs`: sleep, ask the health endpoint, and stop at
 * the first answer that matches the awaited state. The endpoint's answers are
 * a finite sequence supplied from outside; running out of them stands for the
 * source's loop still waiting.
 */
module HealthPoller {
  import opened Wrappers
  import opened Trace

  /** The pause before every poll, in milliseconds. */
  const PollIntervalMillis: nat := 500

  /** What one poll concludes: UP for a 2xx response, DOWN for any other status or a thrown failure. */
  function Observe(r: Response): Health
  {
    if Is2xx(r) then UP else DOWN
  }

  /** The position of the first answer whose observation is `target`, if any. */
  function FirstMatch(target: Health, rs: seq<Response>): (r: Option<nat>)
    ensures r.Some? ==> r.value < |rs| && Observe(rs[r.value]) == target
    ensures r.Some? ==> forall j :: 0 <= j < r.value ==> Observe(rs[j]) != target
    ensures r.None? <==> forall j :: 0 <= j < |rs| ==> Observe(rs[j]) != target
  {
    if rs == [] then None
    else if Observe(rs[0]) == target then Some(0)
    else
      match FirstMatch(target, rs[1..])
      case None => None
      case Some(k) => Some(k + 1)
  }

  /** How many polls a wait for `target` makes while the endpoint answers `rs`. */
  function PollCount(target: Health, rs: seq<Response>): (n: nat)
    ensures n <= |rs|
  {
    match FirstMatch(target, rs)
    case Some(k) => k + 1
    case None => |rs|
  }

  /** The events of waiting for `target` while the endpoint answers `rs` in turn. */
  function PollEvents(target: Health, rs: seq<Response>): seq<Event>
    decreases |rs|
  {
    if rs == [] then []
    else
      var seen := Observe(rs[0]);
      [Slept(target, PollIntervalMillis), Polled(target, seen)]
      + (if seen == target then [] else PollEvents(target, rs[1..]))
  }

  /** One round of a wait: the first answer's sleep and poll, then the rest of the wait unless it matched. */
  lemma PollStep(target: Health, rs: seq<Response>)
    requires rs != []
    ensures PollEvents(target, rs) == [Slept(target, PollIntervalMillis), Polled(target, Observe(rs[0]))]
      + (if Observe(rs[0]) == target then [] else PollEvents(target, rs[1..]))
    ensures FirstMatch(target, rs).Some? <==> Observe(rs[0]) == target || FirstMatch(target, rs[1..]).Some?
  {
  }

  /**
   * A wait is a run of (sleep, poll) pairs, one per answer consumed: `k`
   * polls mean `k` sleeps, each sleep lasts `PollIntervalMillis`, and the
   * `i`-th poll records what the `i`-th answer is observed as.
   */
  lemma {:induction false} PollEventsSpec(target: Health, rs: seq<Response>)
    ensures |PollEvents(target, rs)| == 2 * PollCount(target, rs)
    ensures forall i :: 0 <= i < PollCount(target, rs) ==>
      PollEvents(target, rs)[2 * i] == Slept(target, PollIntervalMillis)
      && PollEvents(target, rs)[2 * i + 1] == Polled(target, Observe(rs[i]))
    decreases |rs|
  {
    if rs != [] && Observe(rs[0]) != target {
      var rest := PollEvents(target, rs[1..]);
      PollEventsSpec(target, rs[1..]);
      assert PollEvents(target, rs) == [Slept(target, PollIntervalMillis), Polled(target, Observe(rs[0]))] + rest;
      forall i | 1 <= i < PollCount(target, rs)
        ensures PollEvents(target, rs)[2 * i] == Slept(target, PollIntervalMillis)
        ensures PollEvents(target, rs)[2 * i + 1] == Polled(target, Observe(rs[i]))
      {
        assert rs[1..][i - 1] == rs[i];
        assert PollEvents(target, rs)[2 * i] == rest[2 * (i - 1)];
        assert PollEvents(target, rs)[2 * i + 1] == rest[2 * (i - 1) + 1];
      }
    }
  }

  /** All the events of a wait belong to the waiting phase for `target`. */
  lemma {:induction false} PollEventsPhase(target: Health, rs: seq<Response>)
    ensures forall i :: 0 <= i < |PollEvents(target, rs)| ==> PhaseOf(PollEvents(target, rs)[i]) == PollPhase(target)
    decreases |rs|
  {
    if rs != [] && Observe(rs[0]) != target {
      PollEventsPhase(target, rs[1..]);
    }
  }

  /** A wait ends with a poll that saw `target` exactly when some answer is observed as `target`. */
  lemma {:induction false} PollEventsEnd(target: Health, rs: seq<Response>)
    ensures PollEvents(target, rs) != [] && PollEvents(target, rs)[|PollEvents(target, rs)| - 1] == Polled(target, target)
        <==> FirstMatch(target, rs).Some?
    decreases |rs|
  {
    if rs != [] && Observe(rs[0]) != target {
      var rest := PollEvents(target, rs[1..]);
      PollEventsEnd(target, rs[1..]);
      var head := [Slept(target, PollIntervalMillis), Polled(target, Observe(rs[0]))];
      assert PollEvents(target, rs) == head + rest;
      if rest != [] {
        assert PollEvents(target, rs)[|PollEvents(target, rs)| - 1] == rest[|rest| - 1];
      }
    }
  }
}
