/**
 * The observable steps of a benchmark cycle. Processes, HTTP requests and
 * file-system changes are not executed by the model; each becomes an event
 * appended to the harness's trace, and the properties of the cycle are
 * stated about that trace.
 */
module Trace {

  datatype Health = UP | DOWN

  /** What one HTTP request produced: a response status, or a thrown failure. */
  datatype Response = Status(code: int) | Thrown

  /** `getStatusCode().is2xxSuccessful()` on a response that arrived. */
  predicate Is2xx(r: Response) {
    r.Status? && 200 <= r.code <= 299
  }

  datatype Event =
    | BuildDeleted                                              // the runner removed root/build
    | PropertiesWritten(key: string, value: string)             // application.properties rewritten
    | Compiled(exitCode: int, staleBuild: bool)                 // gradlew nativeCompile ran
    | LaunchSubmitted                                           // launch() handed to the executor
    | Slept(target: Health, millis: nat)                        // the pause before a health poll
    | Polled(target: Health, observed: Health)                  // one health poll
    | LogReset(path: string)                                    // log deleted and started with a line separator
    | AbInvoked(command: seq<string>, log: string, exitCode: int) // one ab run appending to the log
    | ShutdownRequested(accepted: bool)                         // POST to the shutdown endpoint
    | Analyzed(log: string)                                     // the log was read and reduced

  /** The states a cycle passes through, in order. */
  datatype Phase =
    Configuring | Building | Launching | AwaitingReady | Benchmarking | ShuttingDown | AwaitingTerminated | Aggregating

  function Rank(p: Phase): nat
  {
    match p
    case Configuring => 0
    case Building => 1
    case Launching => 2
    case AwaitingReady => 3
    case Benchmarking => 4
    case ShuttingDown => 5
    case AwaitingTerminated => 6
    case Aggregating => 7
  }

  /** The phase a poll for `target` belongs to. */
  function PollPhase(target: Health): Phase
  {
    if target == UP then AwaitingReady else AwaitingTerminated
  }

  function PhaseOf(e: Event): Phase
  {
    match e
    case BuildDeleted => Configuring
    case PropertiesWritten(_, _) => Configuring
    case Compiled(_, _) => Building
    case LaunchSubmitted => Launching
    case Slept(target, _) => PollPhase(target)
    case Polled(target, _) => PollPhase(target)
    case LogReset(_) => Benchmarking
    case AbInvoked(_, _, _) => Benchmarking
    case ShutdownRequested(_) => ShuttingDown
    case Analyzed(_) => Aggregating
  }

  function Step(e: Event): nat
  {
    Rank(PhaseOf(e))
  }

  /** Each event of `t` belongs to the same phase as the one before it or to a later one. */
  predicate Ordered(t: seq<Event>)
    decreases |t|
  {
    |t| <= 1 || (Step(t[0]) <= Step(t[1]) && Ordered(t[1..]))
  }

  /** `t` starts in the phase of rank `lo` or a later one. */
  predicate StartsFrom(t: seq<Event>, lo: nat) {
    t == [] || lo <= Step(t[0])
  }

  /** `t` ends in the phase of rank `hi` or an earlier one. */
  predicate EndsBy(t: seq<Event>, hi: nat) {
    t == [] || Step(t[|t| - 1]) <= hi
  }

  /** Concatenating traces is associative. */
  lemma AppendAssoc(a: seq<Event>, b: seq<Event>, c: seq<Event>)
    ensures (a + b) + c == a + (b + c)
  {
  }

  /** Ordered events up to phase `r`, followed by ordered events from phase `r` on, are ordered. */
  lemma {:induction false} OrderedAppend(a: seq<Event>, b: seq<Event>, r: nat)
    requires Ordered(a) && EndsBy(a, r) && Ordered(b) && StartsFrom(b, r)
    ensures Ordered(a + b)
    decreases |a|
  {
    if |a| > 1 {
      assert (a + b)[1..] == a[1..] + b;
      OrderedAppend(a[1..], b, r);
    } else if |a| == 1 {
      assert (a + b)[1..] == b;
    } else {
      assert a + b == b;
    }
  }

  /** Events that all belong to the phase of rank `r` are ordered. */
  lemma {:induction false} SinglePhase(t: seq<Event>, r: nat)
    requires forall i :: 0 <= i < |t| ==> Step(t[i]) == r
    ensures Ordered(t) && StartsFrom(t, r) && EndsBy(t, r)
    decreases |t|
  {
    if |t| > 1 {
      SinglePhase(t[1..], r);
    }
  }

  /** In an ordered trace no event belongs to an earlier phase than any event before it. */
  lemma {:induction false} OrderedPairs(t: seq<Event>)
    requires Ordered(t)
    ensures forall i, j :: 0 <= i <= j < |t| ==> Step(t[i]) <= Step(t[j])
    decreases |t|
  {
    if |t| > 1 {
      OrderedPairs(t[1..]);
      forall i, j | 0 <= i <= j < |t| ensures Step(t[i]) <= Step(t[j]) {
        if 0 < i {
          assert t[i] == t[1..][i - 1] && t[j] == t[1..][j - 1];
        } else if 0 < j {
          assert t[1] == t[1..][0] && t[j] == t[1..][j - 1];
        }
      }
    }
  }

  /** An event of another phase does not occur in a trace that stays in phase `p`. */
  lemma PhaseAbsent(t: seq<Event>, p: Phase, e: Event)
    requires forall i :: 0 <= i < |t| ==> PhaseOf(t[i]) == p
    requires PhaseOf(e) != p
    ensures e !in t
  {
  }

  /** The `ab` runs recorded in `t`, in order. */
  function AbRuns(t: seq<Event>): (r: seq<Event>)
    ensures |r| <= |t|
  {
    if t == [] then [] else (if t[0].AbInvoked? then [t[0]] else []) + AbRuns(t[1..])
  }

  /** The `ab` runs of two traces one after the other are those of the first, then those of the second. */
  lemma {:induction false} AbRunsAppend(a: seq<Event>, b: seq<Event>)
    ensures AbRuns(a + b) == AbRuns(a) + AbRuns(b)
    decreases |a|
  {
    if a == [] {
      assert a + b == b;
    } else {
      var first: seq<Event> := if a[0].AbInvoked? then [a[0]] else [];
      assert (a + b)[0] == a[0] && (a + b)[1..] == a[1..] + b;
      AbRunsAppend(a[1..], b);
      calc {
        AbRuns(a + b);
        first + AbRuns(a[1..] + b);
        first + (AbRuns(a[1..]) + AbRuns(b));
        (first + AbRuns(a[1..])) + AbRuns(b);
        AbRuns(a) + AbRuns(b);
      }
    }
  }

  /** A trace without `ab` runs records none. */
  lemma {:induction false} AbRunsNone(t: seq<Event>)
    requires forall i :: 0 <= i < |t| ==> !t[i].AbInvoked?
    ensures AbRuns(t) == []
  {
    if t != [] {
      AbRunsNone(t[1..]);
    }
  }

  /** A trace of `ab` runs only is its own record of them. */
  lemma {:induction false} AbRunsAll(t: seq<Event>)
    requires forall i :: 0 <= i < |t| ==> t[i].AbInvoked?
    ensures AbRuns(t) == t
  {
    if t != [] {
      AbRunsAll(t[1..]);
    }
  }

  /** An ordered trace that starts after the benchmark phase records no `ab` run. */
  lemma {:induction false} AbRunsAfterBenchmark(t: seq<Event>, lo: nat)
    requires Ordered(t) && StartsFrom(t, lo) && Rank(Benchmarking) < lo
    ensures AbRuns(t) == []
    decreases |t|
  {
    if t != [] {
      AbRunsAfterBenchmark(t[1..], lo);
    }
  }

  /** Every service launched in `t` is later observed DOWN by a termination poll. */
  predicate AllTerminated(t: seq<Event>) {
    forall i :: 0 <= i < |t| && t[i] == LaunchSubmitted ==>
      exists k :: i < k < |t| && t[k] == Polled(DOWN, DOWN)
  }

  /** Between any two launches in `t` the first service was observed DOWN: no two run at once. */
  predicate LaunchesSeparated(t: seq<Event>) {
    forall i, j :: 0 <= i < j < |t| && t[i] == LaunchSubmitted && t[j] == LaunchSubmitted ==>
      exists k :: i < k < j && t[k] == Polled(DOWN, DOWN)
  }

  /** `t` launches the service at most once. */
  predicate AtMostOneLaunch(t: seq<Event>) {
    forall i, j :: 0 <= i < |t| && 0 <= j < |t| && t[i] == LaunchSubmitted && t[j] == LaunchSubmitted ==> i == j
  }

  /** No build in `t` starts while an earlier build's output is still on disk. */
  predicate NoStaleBuild(t: seq<Event>) {
    forall i :: 0 <= i < |t| && t[i].Compiled? ==> !t[i].staleBuild
  }

  /**
   * Appending a cycle that launches at most once to a history whose services
   * were all observed DOWN keeps launches separated.
   */
  lemma SeparatedAppend(a: seq<Event>, b: seq<Event>)
    requires LaunchesSeparated(a) && AllTerminated(a) && AtMostOneLaunch(b)
    ensures LaunchesSeparated(a + b)
  {
    var t := a + b;
    forall i, j | |a| <= i < |t| && |a| <= j < |t| && t[i] == LaunchSubmitted && t[j] == LaunchSubmitted
      ensures i == j
    {
      assert b[i - |a|] == t[i] && b[j - |a|] == t[j];
    }
    forall i, j | 0 <= i < j < |t| && t[i] == LaunchSubmitted && t[j] == LaunchSubmitted
      ensures exists k :: i < k < j && t[k] == Polled(DOWN, DOWN)
    {
      if j < |a| {
        assert a[i] == t[i] && a[j] == t[j];
        var k :| i < k < j && a[k] == Polled(DOWN, DOWN);
        assert t[k] == a[k];
      } else if i < |a| {
        assert a[i] == t[i];
        var k :| i < k < |a| && a[k] == Polled(DOWN, DOWN);
        assert t[k] == a[k];
      } else {
        assert false;
      }
    }
  }

  /** Steps that launch nothing keep every earlier launch separated and terminated. */
  lemma QuietAppend(a: seq<Event>, b: seq<Event>)
    requires LaunchSubmitted !in b
    ensures LaunchesSeparated(a) ==> LaunchesSeparated(a + b)
    ensures AllTerminated(a) ==> AllTerminated(a + b)
  {
    var t := a + b;
    forall i | |a| <= i < |t| ensures t[i] != LaunchSubmitted {
      assert t[i] == b[i - |a|];
    }
    if AllTerminated(a) {
      forall i | 0 <= i < |t| && t[i] == LaunchSubmitted
        ensures exists k :: i < k < |t| && t[k] == Polled(DOWN, DOWN)
      {
        assert a[i] == t[i];
        var k :| i < k < |a| && a[k] == Polled(DOWN, DOWN);
        assert t[k] == a[k];
      }
    }
    if LaunchesSeparated(a) {
      forall i, j | 0 <= i < j < |t| && t[i] == LaunchSubmitted && t[j] == LaunchSubmitted
        ensures exists k :: i < k < j && t[k] == Polled(DOWN, DOWN)
      {
        assert a[i] == t[i] && a[j] == t[j];
        var k :| i < k < j && a[k] == Polled(DOWN, DOWN);
        assert t[k] == a[k];
      }
    }
  }

  /** Steps holding a poll that saw DOWN and no launch, after any steps, leave no launched service running. */
  lemma TerminatedAfter(a: seq<Event>, b: seq<Event>)
    requires LaunchSubmitted !in b && Polled(DOWN, DOWN) in b
    ensures AllTerminated(a + b)
  {
    var t := a + b;
    var k :| 0 <= k < |b| && b[k] == Polled(DOWN, DOWN);
    assert t[|a| + k] == b[k];
    forall i | |a| <= i < |t| ensures t[i] != LaunchSubmitted {
      assert t[i] == b[i - |a|];
    }
  }

  lemma TerminatedAppend(a: seq<Event>, b: seq<Event>)
    requires AllTerminated(a) && AllTerminated(b)
    ensures AllTerminated(a + b)
  {
    var t := a + b;
    forall i | 0 <= i < |t| && t[i] == LaunchSubmitted
      ensures exists k :: i < k < |t| && t[k] == Polled(DOWN, DOWN)
    {
      if i < |a| {
        assert a[i] == t[i];
        var k :| i < k < |a| && a[k] == Polled(DOWN, DOWN);
        assert t[k] == a[k];
      } else {
        assert b[i - |a|] == t[i];
        var k :| i - |a| < k < |b| && b[k] == Polled(DOWN, DOWN);
        assert t[k + |a|] == b[k];
      }
    }
  }

  lemma NoStaleAppend(a: seq<Event>, b: seq<Event>)
    requires NoStaleBuild(a) && NoStaleBuild(b)
    ensures NoStaleBuild(a + b)
  {
    var t := a + b;
    forall i | 0 <= i < |t| && t[i].Compiled? ensures !t[i].staleBuild {
      if i < |a| {
        assert t[i] == a[i];
      } else {
        assert t[i] == b[i - |a|];
      }
    }
  }
}
