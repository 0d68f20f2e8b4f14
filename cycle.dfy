/**
 * What one call of `Harness.test` does, as a function of the answers the
 * outside world gives: the events it records, the result it returns or the
 * failure it throws, and what the benchmark log holds afterwards. The
 * imperative `Harness.Test` is proved to follow this specification, and the
 * ordering and abort rules of the cycle are proved about it here.
 */
module Cycle {
  import opened Wrappers
  import opened JavaText
  import opened ResultParser
  import opened Trace
  import opened HealthPoller

  /** How many times `ab` runs against one service build. */
  const MaxRuns: nat := 10

  /** The property that switches the service between platform and virtual threads. */
  const VirtualThreadsKey := "spring.threads.virtual.enabled"

  /** The endpoint `ab` loads. */
  const CustomersUrl := "http://localhost:8080/customers"

  /** `ApacheBenchConfiguration(log, threads, concurrency)`; the log is a path. */
  datatype ApacheBenchConfiguration = ApacheBenchConfiguration(log: string, threads: int, concurrency: int)

  /** What one `ab` process did: its exit status and the lines it appended to the log. */
  datatype AbRun = AbRun(exitCode: int, output: seq<string>)

  /**
   * The answers the outside world gives one cycle, in the order it asks:
   * the build's exit status, the health endpoint's answers while waiting for
   * UP, whether an existing log can be deleted, each `ab` run by its index,
   * the shutdown endpoint's answer, the health answers while waiting for
   * DOWN, and the number parser `Float.parseFloat` stands for.
   */
  datatype Environment = Environment(
    compileExit: int,
    readiness: seq<Response>,
    logDeletable: bool,
    ab: nat -> AbRun,
    shutdown: Response,
    termination: seq<Response>,
    parse: string -> Option<real>)

  /** Why `test` throws instead of returning results. */
  datatype Failure =
    | CompileFailed(exitCode: int)          // the build exited non-zero
    | NeverUp                               // no health answer was UP
    | LogNotDeleted(path: string)           // an existing log could not be removed
    | AbFailed(run: nat, exitCode: int)     // the run with that index exited non-zero
    | ShutdownRejected(response: Response)  // the shutdown request did not get a 2xx answer
    | NeverDown                             // no health answer was DOWN
    | AnalysisFailed(cause: AnalysisError)  // the log could not be reduced to three means

  /** `transformProperties(loom)` on the loaded property map. */
  function Transformed(props: map<string, string>, loom: bool): (r: map<string, string>)
    ensures r.Keys == props.Keys + {VirtualThreadsKey}
    ensures r[VirtualThreadsKey] == (if loom then "true" else "false")
    ensures forall k :: k in props && k != VirtualThreadsKey ==> r[k] == props[k]
  {
    props[VirtualThreadsKey := BoolText(loom)]
  }

  /** Rewriting the properties again replaces the earlier rewrite: the last flag wins. */
  lemma TransformedLastWins(props: map<string, string>, first: bool, second: bool)
    ensures Transformed(Transformed(props, first), second) == Transformed(props, second)
  {
  }

  /** Rewriting twice with the same flag is rewriting once. */
  lemma TransformedIdempotent(props: map<string, string>, loom: bool)
    ensures Transformed(Transformed(props, loom), loom) == Transformed(props, loom)
  {
    TransformedLastWins(props, loom, loom);
  }

  /** The argument list of one `ab` run. */
  function AbCommand(threads: int, concurrency: int): seq<string>
  {
    ["ab", "-n " + IntToDecimal(threads), "-c " + IntToDecimal(concurrency), CustomersUrl]
  }

  /** The command line names `ab`, the customers endpoint, and determines both numbers it was built from. */
  lemma AbCommandDetermines(t1: int, c1: int, t2: int, c2: int)
    requires AbCommand(t1, c1) == AbCommand(t2, c2)
    ensures |AbCommand(t1, c1)| == 4 && AbCommand(t1, c1)[0] == "ab" && AbCommand(t1, c1)[3] == CustomersUrl
    ensures t1 == t2 && c1 == c2
  {
    var a, b := AbCommand(t1, c1), AbCommand(t2, c2);
    assert a[1][3..] == IntToDecimal(t1) && b[1][3..] == IntToDecimal(t2);
    assert a[2][3..] == IntToDecimal(c1) && b[2][3..] == IntToDecimal(c2);
    IntToDecimalInjective(t1, t2);
    IntToDecimalInjective(c1, c2);
  }

  /** The benchmark loop after `k` iterations: events so far, lines appended, and the first failed run. */
  datatype Benchmarks = Benchmarks(events: seq<Event>, output: seq<string>, failed: Option<nat>)

  /** The first `k` iterations of the loop over `ab`; a non-zero exit stops it. */
  function Benchmark(cfg: ApacheBenchConfiguration, ab: nat -> AbRun, k: nat): Benchmarks
  {
    if k == 0 then Benchmarks([], [], None)
    else
      var b := Benchmark(cfg, ab, k - 1);
      if b.failed.Some? then b
      else
        var run := ab(k - 1);
        Benchmarks(
          b.events + [AbInvoked(AbCommand(cfg.threads, cfg.concurrency), cfg.log, run.exitCode)],
          b.output + run.output,
          if run.exitCode != 0 then Some(k - 1) else None)
  }

  /** One more iteration of a loop that has not failed yet: run `k` is invoked and its output appended. */
  lemma BenchmarkNext(cfg: ApacheBenchConfiguration, ab: nat -> AbRun, k: nat)
    requires Benchmark(cfg, ab, k).failed.None?
    ensures Benchmark(cfg, ab, k + 1) == Benchmarks(
      Benchmark(cfg, ab, k).events + [AbInvoked(AbCommand(cfg.threads, cfg.concurrency), cfg.log, ab(k).exitCode)],
      Benchmark(cfg, ab, k).output + ab(k).output,
      if ab(k).exitCode != 0 then Some(k) else None)
  {
  }

  /** The lines the first `k` runs write, one run after another. */
  function Outputs(ab: nat -> AbRun, k: nat): seq<string>
  {
    if k == 0 then [] else Outputs(ab, k - 1) + ab(k - 1).output
  }

  /** The first `k` runs all exit 0. */
  predicate AllSucceed(ab: nat -> AbRun, k: nat) {
    forall i :: 0 <= i < k ==> ab(i).exitCode == 0
  }

  /** The loop runs to the end exactly when every run exits 0. */
  lemma {:induction false} BenchmarkSucceeds(cfg: ApacheBenchConfiguration, ab: nat -> AbRun, k: nat)
    ensures Benchmark(cfg, ab, k).failed.None? <==> AllSucceed(ab, k)
  {
    if k > 0 {
      BenchmarkSucceeds(cfg, ab, k - 1);
    }
  }

  /**
   * The loop stops at the first non-zero exit: with none, `k` runs happened
   * and appended all their output; with one at run `j`, exactly `j + 1` runs
   * happened, the earlier ones exited 0, and all of them appended their output.
   */
  lemma {:induction false} BenchmarkSpec(cfg: ApacheBenchConfiguration, ab: nat -> AbRun, k: nat)
    ensures Benchmark(cfg, ab, k).failed.None? <==> AllSucceed(ab, k)
    ensures Benchmark(cfg, ab, k).failed.None? ==>
      |Benchmark(cfg, ab, k).events| == k && Benchmark(cfg, ab, k).output == Outputs(ab, k)
    ensures Benchmark(cfg, ab, k).failed.Some? ==>
      Benchmark(cfg, ab, k).failed.value < k
      && AllSucceed(ab, Benchmark(cfg, ab, k).failed.value)
      && ab(Benchmark(cfg, ab, k).failed.value).exitCode != 0
      && |Benchmark(cfg, ab, k).events| == Benchmark(cfg, ab, k).failed.value + 1
      && Benchmark(cfg, ab, k).output == Outputs(ab, Benchmark(cfg, ab, k).failed.value + 1)
  {
    if k > 0 {
      BenchmarkSpec(cfg, ab, k - 1);
      var b := Benchmark(cfg, ab, k - 1);
      var r := Benchmark(cfg, ab, k);
      if b.failed.None? {
        assert |r.events| == |b.events| + 1 == k;
        assert r.output == b.output + ab(k - 1).output == Outputs(ab, k);
        if ab(k - 1).exitCode != 0 {
          assert r.failed == Some(k - 1);
        }
      } else {
        assert r == b;
      }
    }
  }

  /** Until a run fails, the loop has made one run per iteration. */
  lemma {:induction false} BenchmarkCount(cfg: ApacheBenchConfiguration, ab: nat -> AbRun, k: nat)
    ensures Benchmark(cfg, ab, k).failed.None? ==> |Benchmark(cfg, ab, k).events| == k
  {
    if k > 0 {
      BenchmarkCount(cfg, ab, k - 1);
    }
  }

  /** Run `i` of the loop, once made, was invoked with the loop's arguments and log and exited as `ab(i)` did. */
  lemma {:induction false} BenchmarkEvent(cfg: ApacheBenchConfiguration, ab: nat -> AbRun, k: nat, i: nat)
    requires i < |Benchmark(cfg, ab, k).events|
    ensures Benchmark(cfg, ab, k).events[i] == AbInvoked(AbCommand(cfg.threads, cfg.concurrency), cfg.log, ab(i).exitCode)
  {
    var b := Benchmark(cfg, ab, k - 1);
    BenchmarkCount(cfg, ab, k - 1);
    if b.failed.Some? || i < |b.events| {
      BenchmarkEvent(cfg, ab, k - 1, i);
    }
  }

  /** Every run the loop makes uses the same arguments and the same log. */
  lemma BenchmarkEvents(cfg: ApacheBenchConfiguration, ab: nat -> AbRun, k: nat)
    ensures forall i :: 0 <= i < |Benchmark(cfg, ab, k).events| ==>
      Benchmark(cfg, ab, k).events[i] == AbInvoked(AbCommand(cfg.threads, cfg.concurrency), cfg.log, ab(i).exitCode)
  {
    forall i | 0 <= i < |Benchmark(cfg, ab, k).events|
      ensures Benchmark(cfg, ab, k).events[i] == AbInvoked(AbCommand(cfg.threads, cfg.concurrency), cfg.log, ab(i).exitCode)
    {
      BenchmarkEvent(cfg, ab, k, i);
    }
  }

  /** Once a run has failed, later iterations change nothing: the loop has been left. */
  lemma {:induction false} BenchmarkStops(cfg: ApacheBenchConfiguration, ab: nat -> AbRun, k: nat, n: nat)
    requires k <= n && Benchmark(cfg, ab, k).failed.Some?
    ensures Benchmark(cfg, ab, n) == Benchmark(cfg, ab, k)
    decreases n - k
  {
    if k < n {
      BenchmarkStops(cfg, ab, k, n - 1);
    }
  }

  /** The events, the result and the final log of one cycle, or of its remaining steps. */
  datatype Outcome = Outcome(events: seq<Event>, result: Result<AnalysisResults, Failure>, log: Option<seq<string>>)

  /** The steps recorded in `es`, followed by `rest`. */
  function Then(es: seq<Event>, rest: Outcome): Outcome
  {
    rest.(events := es + rest.events)
  }

  /** A step that throws `f` and records nothing more. */
  function Stop(f: Failure, log: Option<seq<string>>): Outcome
  {
    Outcome([], Err(f), log)
  }

  /**
   * `test(loom, cfg)`: rewrite the properties, build (the build output may be
   * left over from an earlier build when `staleBuild`), then go on with the
   * launch. `logExists` says whether a log was already at `cfg.log`. The
   * first failing step ends the cycle.
   */
  function CycleSpec(loom: bool, cfg: ApacheBenchConfiguration, env: Environment, staleBuild: bool, logExists: bool): Outcome
  {
    Then([PropertiesWritten(VirtualThreadsKey, BoolText(loom)), Compiled(env.compileExit, staleBuild)],
      if env.compileExit != 0 then Stop(CompileFailed(env.compileExit), None)
      else LaunchStage(cfg, env, logExists))
  }

  /** Submit the launch, wait for UP, remove an old log, then benchmark. */
  function LaunchStage(cfg: ApacheBenchConfiguration, env: Environment, logExists: bool): Outcome
  {
    Then([LaunchSubmitted] + PollEvents(UP, env.readiness),
      if FirstMatch(UP, env.readiness).None? then Stop(NeverUp, None)
      else if logExists && !env.logDeletable then Stop(LogNotDeleted(cfg.log), None)
      else BenchmarkStage(cfg, env))
  }

  /** Start the log with one empty line, run `ab` up to `MaxRuns` times, then shut down. */
  function BenchmarkStage(cfg: ApacheBenchConfiguration, env: Environment): Outcome
  {
    var b := Benchmark(cfg, env.ab, MaxRuns);
    var log := [""] + b.output;
    Then([LogReset(cfg.log)] + b.events,
      if b.failed.Some? then Stop(AbFailed(b.failed.value, env.ab(b.failed.value).exitCode), Some(log))
      else ShutdownStage(cfg, env, log))
  }

  /** Ask the service to stop, wait for DOWN, then analyse the log. */
  function ShutdownStage(cfg: ApacheBenchConfiguration, env: Environment, log: seq<string>): Outcome
  {
    if !Is2xx(env.shutdown) then
      Then([ShutdownRequested(false)], Stop(ShutdownRejected(env.shutdown), Some(log)))
    else
      Then([ShutdownRequested(true)] + PollEvents(DOWN, env.termination),
        if FirstMatch(DOWN, env.termination).None? then Stop(NeverDown, Some(log))
        else AnalysisStage(cfg, env, log))
  }

  /** The analysis's own result as the cycle reports it. */
  function Reported(r: Result<AnalysisResults, AnalysisError>): Result<AnalysisResults, Failure>
  {
    match r
    case Ok(a) => Ok(a)
    case Err(e) => Err(AnalysisFailed(e))
  }

  /** Reduce the log to its three means. */
  function AnalysisStage(cfg: ApacheBenchConfiguration, env: Environment, log: seq<string>): Outcome
  {
    Outcome([Analyzed(cfg.log)], Reported(Analyze(log, env.parse)), Some(log))
  }

  /** An accepted shutdown and its DOWN polls are in phase order, from the shutdown phase to the wait for DOWN. */
  lemma ShutdownPollsOrdered(rs: seq<Response>)
    ensures Ordered([ShutdownRequested(true)] + PollEvents(DOWN, rs))
    ensures StartsFrom([ShutdownRequested(true)] + PollEvents(DOWN, rs), 5)
    ensures EndsBy([ShutdownRequested(true)] + PollEvents(DOWN, rs), 6)
  {
    var polls := PollEvents(DOWN, rs);
    PollEventsPhase(DOWN, rs);
    SinglePhase(polls, 6);
    OrderedAppend([ShutdownRequested(true)], polls, 5);
  }

  /** An accepted shutdown, its DOWN polls and at most an analysis after them are in phase order. */
  lemma ShutdownEventsOrdered(rs: seq<Response>, tail: seq<Event>)
    requires tail == [] || (|tail| == 1 && tail[0].Analyzed?)
    ensures Ordered([ShutdownRequested(true)] + PollEvents(DOWN, rs) + tail)
    ensures StartsFrom([ShutdownRequested(true)] + PollEvents(DOWN, rs) + tail, 5)
  {
    var head := [ShutdownRequested(true)] + PollEvents(DOWN, rs);
    ShutdownPollsOrdered(rs);
    assert Ordered(tail) && StartsFrom(tail, 6);
    OrderedAppend(head, tail, 6);
    assert (head + tail)[0] == head[0];
  }

  lemma ShutdownStageOrdered(cfg: ApacheBenchConfiguration, env: Environment, log: seq<string>)
    ensures Ordered(ShutdownStage(cfg, env, log).events) && StartsFrom(ShutdownStage(cfg, env, log).events, 5)
  {
    if Is2xx(env.shutdown) {
      var tail := if FirstMatch(DOWN, env.termination).None? then [] else [Analyzed(cfg.log)];
      ShutdownEventsOrdered(env.termination, tail);
      assert ShutdownStage(cfg, env, log).events == [ShutdownRequested(true)] + PollEvents(DOWN, env.termination) + tail;
    } else {
      assert ShutdownStage(cfg, env, log).events == [ShutdownRequested(false)];
    }
  }

  lemma BenchmarkStageOrdered(cfg: ApacheBenchConfiguration, env: Environment)
    ensures Ordered(BenchmarkStage(cfg, env).events) && StartsFrom(BenchmarkStage(cfg, env).events, 4)
  {
    var b := Benchmark(cfg, env.ab, MaxRuns);
    BenchmarkEvents(cfg, env.ab, MaxRuns);
    var runs := [LogReset(cfg.log)] + b.events;
    SinglePhase(runs, 4);
    var log := [""] + b.output;
    var next := if b.failed.Some? then Stop(AbFailed(b.failed.value, env.ab(b.failed.value).exitCode), Some(log))
      else ShutdownStage(cfg, env, log);
    ShutdownStageOrdered(cfg, env, log);
    OrderedAppend(runs, next.events, 4);
  }

  lemma LaunchStageOrdered(cfg: ApacheBenchConfiguration, env: Environment, logExists: bool)
    ensures Ordered(LaunchStage(cfg, env, logExists).events)
    ensures LaunchStage(cfg, env, logExists).events[0] == LaunchSubmitted
    ensures |LaunchStage(cfg, env, logExists).events| > 1 ==> 3 <= Step(LaunchStage(cfg, env, logExists).events[1])
  {
    var polls := PollEvents(UP, env.readiness);
    PollEventsPhase(UP, env.readiness);
    var head := [LaunchSubmitted] + polls;
    SinglePhase(polls, 3);
    OrderedAppend([LaunchSubmitted], polls, 2);
    assert EndsBy(head, 3);
    var next :=
      if FirstMatch(UP, env.readiness).None? then Stop(NeverUp, None)
      else if logExists && !env.logDeletable then Stop(LogNotDeleted(cfg.log), None)
      else BenchmarkStage(cfg, env);
    BenchmarkStageOrdered(cfg, env);
    OrderedAppend(head, next.events, 3);
  }

  /** A cycle never returns to an earlier phase, whichever step ends it. */
  lemma CycleOrdered(loom: bool, cfg: ApacheBenchConfiguration, env: Environment, staleBuild: bool, logExists: bool, o: Outcome)
    requires o == CycleSpec(loom, cfg, env, staleBuild, logExists)
    ensures forall i, j :: 0 <= i <= j < |o.events| ==> Step(o.events[i]) <= Step(o.events[j])
  {
    var configured := [PropertiesWritten(VirtualThreadsKey, BoolText(loom)), Compiled(env.compileExit, staleBuild)];
    assert Ordered(configured[1..]);
    if env.compileExit == 0 {
      var l := LaunchStage(cfg, env, logExists);
      LaunchStageOrdered(cfg, env, logExists);
      OrderedAppend(configured, l.events, 2);
      assert o.events == configured + l.events;
    } else {
      assert o.events == configured;
    }
    OrderedPairs(o.events);
  }

  /** The first two steps of every cycle; every step after the launch belongs to a later phase. */
  lemma CycleShape(loom: bool, cfg: ApacheBenchConfiguration, env: Environment, staleBuild: bool, logExists: bool, o: Outcome)
    requires o == CycleSpec(loom, cfg, env, staleBuild, logExists)
    ensures |o.events| >= 2
    ensures o.events[0] == PropertiesWritten(VirtualThreadsKey, BoolText(loom))
    ensures o.events[1] == Compiled(env.compileExit, staleBuild)
    ensures env.compileExit != 0 <==> |o.events| == 2
    ensures env.compileExit == 0 ==> o.events[2] == LaunchSubmitted
    ensures forall i :: 3 <= i < |o.events| ==> 3 <= Step(o.events[i])
  {
    if env.compileExit == 0 {
      var l := LaunchStage(cfg, env, logExists);
      LaunchStageOrdered(cfg, env, logExists);
      OrderedPairs(l.events);
      forall i | 3 <= i < |o.events| ensures 3 <= Step(o.events[i]) {
        assert o.events[i] == l.events[i - 2];
        assert Step(l.events[1]) <= Step(l.events[i - 2]);
      }
    }
  }

  /** A cycle gets as far as the benchmark: the build exited 0, the service came UP and any old log could be removed. */
  predicate BenchmarkReached(env: Environment, logExists: bool) {
    env.compileExit == 0 && FirstMatch(UP, env.readiness).Some? && !(logExists && !env.logDeletable)
  }

  /** A cycle gets as far as the analysis: every run exited 0 and the service accepted the shutdown and went DOWN. */
  predicate AnalysisReached(env: Environment, logExists: bool) {
    BenchmarkReached(env, logExists) && AllSucceed(env.ab, MaxRuns)
    && Is2xx(env.shutdown) && FirstMatch(DOWN, env.termination).Some?
  }

  /** The shutdown stage runs no `ab`, launches nothing, keeps the log, and never reports a failed run. */
  lemma ShutdownStageQuiet(cfg: ApacheBenchConfiguration, env: Environment, log: seq<string>, s: Outcome)
    requires s == ShutdownStage(cfg, env, log)
    ensures AbRuns(s.events) == [] && s.log == Some(log) && LaunchSubmitted !in s.events
    ensures !(s.result.Err? && s.result.error.AbFailed?)
  {
    ShutdownStageOrdered(cfg, env, log);
    AbRunsAfterBenchmark(s.events, 5);
    if Is2xx(env.shutdown) {
      var down := PollEvents(DOWN, env.termination);
      var next := if FirstMatch(DOWN, env.termination).None? then Stop(NeverDown, Some(log)) else AnalysisStage(cfg, env, log);
      assert s == Then([ShutdownRequested(true)] + down, next);
      PollEventsPhase(DOWN, env.termination);
      PhaseAbsent(down, AwaitingTerminated, LaunchSubmitted);
    }
  }

  /**
   * The shutdown stage reaches the analysis exactly when the shutdown was
   * accepted and the service was seen DOWN; the analysis is then its last
   * step and decides the result, and otherwise the stage fails.
   */
  lemma ShutdownStageSteps(cfg: ApacheBenchConfiguration, env: Environment, log: seq<string>, s: Outcome)
    requires s == ShutdownStage(cfg, env, log)
    ensures Analyzed(cfg.log) in s.events <==> Is2xx(env.shutdown) && FirstMatch(DOWN, env.termination).Some?
    ensures Analyzed(cfg.log) in s.events ==>
      ShutdownRequested(true) in s.events && Polled(DOWN, DOWN) in s.events
      && s.events[|s.events| - 1] == Analyzed(cfg.log)
      && s.result == Reported(Analyze(log, env.parse))
    ensures Analyzed(cfg.log) !in s.events ==> s.result.Err?
  {
    if Is2xx(env.shutdown) {
      var down := PollEvents(DOWN, env.termination);
      PollEventsPhase(DOWN, env.termination);
      PhaseAbsent(down, AwaitingTerminated, Analyzed(cfg.log));
      if FirstMatch(DOWN, env.termination).Some? {
        PollEventsEnd(DOWN, env.termination);
        assert s.events == ([ShutdownRequested(true)] + down) + [Analyzed(cfg.log)];
        assert down[|down| - 1] in down;
      }
    }
  }

  /**
   * The benchmark stage stops at the first failing run, if any: that run is
   * its last step, every earlier run exited 0, and the log holds the output
   * of the runs made.
   */
  lemma BenchmarkStageAborts(cfg: ApacheBenchConfiguration, env: Environment, s: Outcome)
    requires s == BenchmarkStage(cfg, env)
    ensures s.result.Err? && s.result.error.AbFailed? <==> !AllSucceed(env.ab, MaxRuns)
    ensures s.result.Err? && s.result.error.AbFailed? ==>
      s.result.error.run < MaxRuns && AllSucceed(env.ab, s.result.error.run)
      && s.result.error.exitCode == env.ab(s.result.error.run).exitCode != 0
      && s.events[|s.events| - 1] == AbInvoked(AbCommand(cfg.threads, cfg.concurrency), cfg.log, s.result.error.exitCode)
      && s.log == Some([""] + Outputs(env.ab, s.result.error.run + 1))
  {
    var b := Benchmark(cfg, env.ab, MaxRuns);
    BenchmarkSpec(cfg, env.ab, MaxRuns);
    if b.failed.Some? {
      BenchmarkEvents(cfg, env.ab, MaxRuns);
      assert s.events == [LogReset(cfg.log)] + b.events;
      assert s.events[|s.events| - 1] == b.events[b.failed.value];
    } else {
      ShutdownStageQuiet(cfg, env, [""] + b.output, ShutdownStage(cfg, env, [""] + b.output));
    }
  }

  /** When every run exits 0 the benchmark stage goes on with the shutdown. */
  lemma BenchmarkStageContinues(cfg: ApacheBenchConfiguration, env: Environment, s: Outcome)
    requires s == BenchmarkStage(cfg, env)
    ensures AllSucceed(env.ab, MaxRuns) ==>
      var ss := ShutdownStage(cfg, env, [""] + Outputs(env.ab, MaxRuns));
      s.events == ([LogReset(cfg.log)] + Benchmark(cfg, env.ab, MaxRuns).events) + ss.events
      && s.result == ss.result && s.log == ss.log
  {
    BenchmarkSpec(cfg, env.ab, MaxRuns);
  }

  /** The benchmark stage starts with the log reset and records exactly the runs of the loop. */
  lemma BenchmarkStageRuns(cfg: ApacheBenchConfiguration, env: Environment, s: Outcome)
    requires s == BenchmarkStage(cfg, env)
    ensures s.events != [] && s.events[0] == LogReset(cfg.log)
    ensures AbRuns(s.events) == Benchmark(cfg, env.ab, MaxRuns).events
  {
    var b := Benchmark(cfg, env.ab, MaxRuns);
    BenchmarkEvents(cfg, env.ab, MaxRuns);
    var runs := [LogReset(cfg.log)] + b.events;
    AbRunsAll(b.events);
    AbRunsAppend([LogReset(cfg.log)], b.events);
    if b.failed.Some? {
      assert s.events == runs;
    } else {
      var log := [""] + b.output;
      var ss := ShutdownStage(cfg, env, log);
      ShutdownStageQuiet(cfg, env, log, ss);
      AbRunsAppend(runs, ss.events);
    }
  }

  /** The benchmark stage reaches the analysis exactly when every run exited 0 and the service then stopped. */
  lemma BenchmarkStageAnalyzed(cfg: ApacheBenchConfiguration, env: Environment, s: Outcome)
    requires s == BenchmarkStage(cfg, env)
    ensures Analyzed(cfg.log) in s.events <==>
      AllSucceed(env.ab, MaxRuns) && Is2xx(env.shutdown) && FirstMatch(DOWN, env.termination).Some?
  {
    var b := Benchmark(cfg, env.ab, MaxRuns);
    BenchmarkSucceeds(cfg, env.ab, MaxRuns);
    BenchmarkEvents(cfg, env.ab, MaxRuns);
    var runs := [LogReset(cfg.log)] + b.events;
    PhaseAbsent(b.events, Benchmarking, Analyzed(cfg.log));
    assert Analyzed(cfg.log) !in runs;
    if b.failed.None? {
      var log := [""] + b.output;
      var ss := ShutdownStage(cfg, env, log);
      ShutdownStageSteps(cfg, env, log, ss);
      assert s.events == runs + ss.events;
    } else {
      assert s.events == runs;
    }
  }

  /**
   * The launch stage waits for UP and then either stops, with no log, or
   * goes on with the benchmark stage, whose last step is then its own.
   */
  lemma LaunchStageContinues(cfg: ApacheBenchConfiguration, env: Environment, logExists: bool, l: Outcome)
    requires l == LaunchStage(cfg, env, logExists)
    ensures FirstMatch(UP, env.readiness).Some? ==> Polled(UP, UP) in l.events
    ensures FirstMatch(UP, env.readiness).Some? && !(logExists && !env.logDeletable) ==>
      var bs := BenchmarkStage(cfg, env);
      l.result == bs.result && l.log == bs.log
      && l.events == ([LaunchSubmitted] + PollEvents(UP, env.readiness)) + bs.events
      && l.events[|l.events| - 1] == bs.events[|bs.events| - 1]
    ensures !(FirstMatch(UP, env.readiness).Some? && !(logExists && !env.logDeletable)) ==>
      l.log == None && (l.result == Err(NeverUp) || l.result == Err(LogNotDeleted(cfg.log)))
  {
    var up := PollEvents(UP, env.readiness);
    var head := [LaunchSubmitted] + up;
    var next := if FirstMatch(UP, env.readiness).None? then Stop(NeverUp, None)
      else if logExists && !env.logDeletable then Stop(LogNotDeleted(cfg.log), None)
      else BenchmarkStage(cfg, env);
    assert l == Then(head, next);
    assert l.events == head + next.events && l.result == next.result && l.log == next.log;
    if FirstMatch(UP, env.readiness).Some? {
      PollEventsEnd(UP, env.readiness);
      assert head[|head| - 1] == Polled(UP, UP);
      assert l.events[|head| - 1] == head[|head| - 1];
      if !(logExists && !env.logDeletable) {
        BenchmarkStageRuns(cfg, env, next);
        assert l.events[|l.events| - 1] == next.events[|next.events| - 1];
      }
    }
  }

  /** The events of the launch stage: the launch, the readiness polls, then the benchmark stage's events once it is reached. */
  lemma LaunchStageEvents(cfg: ApacheBenchConfiguration, env: Environment, logExists: bool)
    ensures LaunchStage(cfg, env, logExists).events ==
      [LaunchSubmitted] + PollEvents(UP, env.readiness)
      + if FirstMatch(UP, env.readiness).Some? && !(logExists && !env.logDeletable) then BenchmarkStage(cfg, env).events else []
  {
  }

  /**
   * The launch stage records the runs of the benchmark loop when the service
   * came UP and any old log was removed, and none otherwise.
   */
  lemma LaunchStageRuns(cfg: ApacheBenchConfiguration, env: Environment, logExists: bool, l: Outcome)
    requires l == LaunchStage(cfg, env, logExists)
    ensures AbRuns(l.events) ==
      if FirstMatch(UP, env.readiness).Some? && !(logExists && !env.logDeletable) then Benchmark(cfg, env.ab, MaxRuns).events else []
  {
    var head := [LaunchSubmitted] + PollEvents(UP, env.readiness);
    PollEventsPhase(UP, env.readiness);
    AbRunsNone(head);
    LaunchStageEvents(cfg, env, logExists);
    if FirstMatch(UP, env.readiness).Some? && !(logExists && !env.logDeletable) {
      var bs := BenchmarkStage(cfg, env);
      BenchmarkStageRuns(cfg, env, bs);
      AbRunsAppend(head, bs.events);
    } else {
      assert l.events == head + [] == head;
    }
  }

  /** The launch stage reaches the analysis exactly when every later step succeeds too. */
  lemma LaunchStageAnalyzed(cfg: ApacheBenchConfiguration, env: Environment, logExists: bool, l: Outcome)
    requires l == LaunchStage(cfg, env, logExists)
    ensures Analyzed(cfg.log) in l.events <==>
      FirstMatch(UP, env.readiness).Some? && !(logExists && !env.logDeletable)
      && AllSucceed(env.ab, MaxRuns) && Is2xx(env.shutdown) && FirstMatch(DOWN, env.termination).Some?
  {
    var up := PollEvents(UP, env.readiness);
    PollEventsPhase(UP, env.readiness);
    PhaseAbsent(up, AwaitingReady, Analyzed(cfg.log));
    if FirstMatch(UP, env.readiness).Some? && !(logExists && !env.logDeletable) {
      BenchmarkStageAnalyzed(cfg, env, BenchmarkStage(cfg, env));
    }
  }

  /** The benchmark stage never launches the service, and when it returns results it saw the service DOWN. */
  lemma BenchmarkStageTerminates(cfg: ApacheBenchConfiguration, env: Environment, s: Outcome)
    requires s == BenchmarkStage(cfg, env)
    ensures LaunchSubmitted !in s.events
    ensures s.result.Ok? ==> Polled(DOWN, DOWN) in s.events
  {
    var b := Benchmark(cfg, env.ab, MaxRuns);
    BenchmarkEvents(cfg, env.ab, MaxRuns);
    var runs := [LogReset(cfg.log)] + b.events;
    PhaseAbsent(b.events, Benchmarking, LaunchSubmitted);
    assert LaunchSubmitted !in runs;
    if b.failed.None? {
      var ss := ShutdownStage(cfg, env, [""] + b.output);
      ShutdownStageSteps(cfg, env, [""] + b.output, ss);
      ShutdownStageQuiet(cfg, env, [""] + b.output, ss);
      assert s.events == runs + ss.events;
    } else {
      assert s.events == runs;
    }
  }

  /** When the launch stage returns results, its service was seen DOWN after the launch. */
  lemma LaunchStageTerminates(cfg: ApacheBenchConfiguration, env: Environment, logExists: bool, l: Outcome)
    requires l == LaunchStage(cfg, env, logExists)
    ensures l.result.Ok? ==> AllTerminated(l.events)
  {
    if l.result.Ok? {
      LaunchStageContinues(cfg, env, logExists, l);
      var bs := BenchmarkStage(cfg, env);
      BenchmarkStageTerminates(cfg, env, bs);
      TerminatedAfter([LaunchSubmitted] + PollEvents(UP, env.readiness), bs.events);
    }
  }

  /** The `ab` runs a cycle records are those of the benchmark loop, when the cycle gets that far, and none otherwise. */
  lemma CycleRuns(loom: bool, cfg: ApacheBenchConfiguration, env: Environment, staleBuild: bool, logExists: bool, o: Outcome)
    requires o == CycleSpec(loom, cfg, env, staleBuild, logExists)
    ensures AbRuns(o.events) == if BenchmarkReached(env, logExists) then Benchmark(cfg, env.ab, MaxRuns).events else []
  {
    var configured := [PropertiesWritten(VirtualThreadsKey, BoolText(loom)), Compiled(env.compileExit, staleBuild)];
    AbRunsNone(configured);
    if env.compileExit == 0 {
      var l := LaunchStage(cfg, env, logExists);
      LaunchStageRuns(cfg, env, logExists, l);
      assert o.events == configured + l.events;
      AbRunsAppend(configured, l.events);
    } else {
      assert o.events == configured;
    }
  }

  /**
   * The analysis happens exactly when every earlier step succeeded, and it
   * has happened whenever a cycle returns results.
   */
  lemma CycleAnalyzed(loom: bool, cfg: ApacheBenchConfiguration, env: Environment, staleBuild: bool, logExists: bool, o: Outcome)
    requires o == CycleSpec(loom, cfg, env, staleBuild, logExists)
    ensures Analyzed(cfg.log) in o.events <==> AnalysisReached(env, logExists)
    ensures o.result.Ok? ==> AnalysisReached(env, logExists)
  {
    var configured := [PropertiesWritten(VirtualThreadsKey, BoolText(loom)), Compiled(env.compileExit, staleBuild)];
    if env.compileExit == 0 {
      var l := LaunchStage(cfg, env, logExists);
      LaunchStageAnalyzed(cfg, env, logExists, l);
      assert o.events == configured + l.events;
      if o.result.Ok? {
        LaunchStageContinues(cfg, env, logExists, l);
        var bs := BenchmarkStage(cfg, env);
        BenchmarkStageAborts(cfg, env, bs);
        BenchmarkStageContinues(cfg, env, bs);
        var log := [""] + Outputs(env.ab, MaxRuns);
        ShutdownStageSteps(cfg, env, log, ShutdownStage(cfg, env, log));
      }
    }
  }

  /** A cycle that reaches the analysis ran `ab` exactly `MaxRuns` times, always with the same arguments and log, and each run exited 0. */
  lemma CycleAnalysisRuns(loom: bool, cfg: ApacheBenchConfiguration, env: Environment, staleBuild: bool, logExists: bool, o: Outcome)
    requires o == CycleSpec(loom, cfg, env, staleBuild, logExists) && AnalysisReached(env, logExists)
    ensures |AbRuns(o.events)| == MaxRuns
    ensures forall i :: 0 <= i < MaxRuns ==> AbRuns(o.events)[i] == AbInvoked(AbCommand(cfg.threads, cfg.concurrency), cfg.log, 0)
  {
    CycleRuns(loom, cfg, env, staleBuild, logExists, o);
    BenchmarkSpec(cfg, env.ab, MaxRuns);
    BenchmarkEvents(cfg, env.ab, MaxRuns);
  }

  /**
   * A cycle that reaches the analysis saw the service UP before the
   * benchmark, reset the log, had its shutdown accepted, saw the service
   * DOWN afterwards, and analysed the log as its last step.
   */
  lemma CycleAnalysisSteps(loom: bool, cfg: ApacheBenchConfiguration, env: Environment, staleBuild: bool, logExists: bool, o: Outcome)
    requires o == CycleSpec(loom, cfg, env, staleBuild, logExists) && AnalysisReached(env, logExists)
    ensures Polled(UP, UP) in o.events && LogReset(cfg.log) in o.events
    ensures ShutdownRequested(true) in o.events && Polled(DOWN, DOWN) in o.events
    ensures o.events[|o.events| - 1] == Analyzed(cfg.log)
  {
    var configured := [PropertiesWritten(VirtualThreadsKey, BoolText(loom)), Compiled(env.compileExit, staleBuild)];
    var l := LaunchStage(cfg, env, logExists);
    LaunchStageContinues(cfg, env, logExists, l);
    assert o.events == configured + l.events;
    var bs := BenchmarkStage(cfg, env);
    BenchmarkStageContinues(cfg, env, bs);
    var log := [""] + Outputs(env.ab, MaxRuns);
    var ss := ShutdownStage(cfg, env, log);
    ShutdownStageSteps(cfg, env, log, ss);
    assert o.events[|o.events| - 1] == ss.events[|ss.events| - 1];
  }

  /**
   * A cycle that reaches the analysis leaves a log holding one empty line
   * followed by the output of every run, and returns the analysis of that log.
   */
  lemma CycleAnalysisResult(loom: bool, cfg: ApacheBenchConfiguration, env: Environment, staleBuild: bool, logExists: bool, o: Outcome)
    requires o == CycleSpec(loom, cfg, env, staleBuild, logExists) && AnalysisReached(env, logExists)
    ensures o.log == Some([""] + Outputs(env.ab, MaxRuns))
    ensures o.result == Reported(Analyze([""] + Outputs(env.ab, MaxRuns), env.parse))
  {
    LaunchStageContinues(cfg, env, logExists, LaunchStage(cfg, env, logExists));
    var bs := BenchmarkStage(cfg, env);
    BenchmarkStageContinues(cfg, env, bs);
    var log := [""] + Outputs(env.ab, MaxRuns);
    ShutdownStageSteps(cfg, env, log, ShutdownStage(cfg, env, log));
    ShutdownStageQuiet(cfg, env, log, ShutdownStage(cfg, env, log));
  }

  /**
   * The benchmark is cut short exactly when the service came UP, the log was
   * reset and some run exited non-zero. The first such run is reported with
   * its exit code, every earlier run exited 0, and the log holds the output
   * of the runs made.
   */
  lemma CycleAbortsOnAb(loom: bool, cfg: ApacheBenchConfiguration, env: Environment, staleBuild: bool, logExists: bool, o: Outcome)
    requires o == CycleSpec(loom, cfg, env, staleBuild, logExists)
    ensures o.result.Err? && o.result.error.AbFailed? <==> BenchmarkReached(env, logExists) && !AllSucceed(env.ab, MaxRuns)
    ensures o.result.Err? && o.result.error.AbFailed? ==>
      o.result.error.run < MaxRuns && AllSucceed(env.ab, o.result.error.run)
      && o.result.error.exitCode == env.ab(o.result.error.run).exitCode != 0
      && o.log == Some([""] + Outputs(env.ab, o.result.error.run + 1))
  {
    if env.compileExit == 0 {
      var l := LaunchStage(cfg, env, logExists);
      LaunchStageContinues(cfg, env, logExists, l);
      if BenchmarkReached(env, logExists) {
        BenchmarkStageAborts(cfg, env, BenchmarkStage(cfg, env));
      }
    }
  }

  /**
   * When the benchmark is cut short the runs recorded are exactly the runs
   * up to the failing one, each with the same arguments and log.
   */
  lemma CycleAbortRuns(loom: bool, cfg: ApacheBenchConfiguration, env: Environment, staleBuild: bool, logExists: bool, o: Outcome)
    requires o == CycleSpec(loom, cfg, env, staleBuild, logExists)
    requires BenchmarkReached(env, logExists) && !AllSucceed(env.ab, MaxRuns)
    ensures o.result.Err? && o.result.error.AbFailed?
    ensures |AbRuns(o.events)| == o.result.error.run + 1
    ensures forall i :: 0 <= i < |AbRuns(o.events)| ==>
      AbRuns(o.events)[i] == AbInvoked(AbCommand(cfg.threads, cfg.concurrency), cfg.log, env.ab(i).exitCode)
  {
    CycleAbortsOnAb(loom, cfg, env, staleBuild, logExists, o);
    CycleRuns(loom, cfg, env, staleBuild, logExists, o);
    BenchmarkStageAborts(cfg, env, BenchmarkStage(cfg, env));
    BenchmarkSpec(cfg, env.ab, MaxRuns);
    BenchmarkEvents(cfg, env.ab, MaxRuns);
  }

  /**
   * When the benchmark is cut short the failing run is the cycle's last
   * step, after the service had been seen UP and the log reset.
   */
  lemma CycleAbortTrace(loom: bool, cfg: ApacheBenchConfiguration, env: Environment, staleBuild: bool, logExists: bool, o: Outcome)
    requires o == CycleSpec(loom, cfg, env, staleBuild, logExists)
    requires BenchmarkReached(env, logExists) && !AllSucceed(env.ab, MaxRuns)
    ensures o.result.Err? && o.result.error.AbFailed?
    ensures o.events[|o.events| - 1] == AbInvoked(AbCommand(cfg.threads, cfg.concurrency), cfg.log, o.result.error.exitCode)
    ensures Polled(UP, UP) in o.events && LogReset(cfg.log) in o.events
  {
    var configured := [PropertiesWritten(VirtualThreadsKey, BoolText(loom)), Compiled(env.compileExit, staleBuild)];
    var l := LaunchStage(cfg, env, logExists);
    LaunchStageContinues(cfg, env, logExists, l);
    assert o.events == configured + l.events;
    var bs := BenchmarkStage(cfg, env);
    BenchmarkStageAborts(cfg, env, bs);
    BenchmarkStageRuns(cfg, env, bs);
    assert bs.events[0] in bs.events;
    assert o.events[|o.events| - 1] == bs.events[|bs.events| - 1];
  }

  /** When the benchmark is cut short no step of a later phase (shutdown, termination, analysis) happens. */
  lemma CycleAbortPhases(loom: bool, cfg: ApacheBenchConfiguration, env: Environment, staleBuild: bool, logExists: bool, o: Outcome)
    requires o == CycleSpec(loom, cfg, env, staleBuild, logExists)
    requires BenchmarkReached(env, logExists) && !AllSucceed(env.ab, MaxRuns)
    ensures forall i :: 0 <= i < |o.events| ==> Step(o.events[i]) <= Rank(Benchmarking)
  {
    CycleAbortTrace(loom, cfg, env, staleBuild, logExists, o);
    CycleOrdered(loom, cfg, env, staleBuild, logExists, o);
    var last := |o.events| - 1;
    assert Step(o.events[last]) == Rank(Benchmarking);
    forall i | 0 <= i < |o.events| ensures Step(o.events[i]) <= Rank(Benchmarking) {
      assert Step(o.events[i]) <= Step(o.events[last]);
    }
  }

  /** A cycle launches the service at most once, and does so exactly when the build exited 0. */
  lemma CycleLaunchesOnce(loom: bool, cfg: ApacheBenchConfiguration, env: Environment, staleBuild: bool, logExists: bool, o: Outcome)
    requires o == CycleSpec(loom, cfg, env, staleBuild, logExists)
    ensures AtMostOneLaunch(o.events)
    ensures LaunchSubmitted in o.events <==> env.compileExit == 0
  {
    CycleShape(loom, cfg, env, staleBuild, logExists, o);
    if env.compileExit == 0 {
      assert o.events[2] == LaunchSubmitted;
    }
  }

  /** A cycle builds once, over a stale build exactly when `staleBuild`, and deletes no build. */
  lemma CycleBuilds(loom: bool, cfg: ApacheBenchConfiguration, env: Environment, staleBuild: bool, logExists: bool, o: Outcome)
    requires o == CycleSpec(loom, cfg, env, staleBuild, logExists)
    ensures NoStaleBuild(o.events) <==> !staleBuild
    ensures BuildDeleted !in o.events
  {
    CycleShape(loom, cfg, env, staleBuild, logExists, o);
  }

  /** A cycle that returns results has seen its service DOWN after launching it. */
  lemma CycleTerminates(loom: bool, cfg: ApacheBenchConfiguration, env: Environment, staleBuild: bool, logExists: bool, o: Outcome)
    requires o == CycleSpec(loom, cfg, env, staleBuild, logExists)
    ensures o.result.Ok? ==> AllTerminated(o.events)
  {
    if env.compileExit == 0 {
      var configured := [PropertiesWritten(VirtualThreadsKey, BoolText(loom)), Compiled(env.compileExit, staleBuild)];
      var l := LaunchStage(cfg, env, logExists);
      LaunchStageTerminates(cfg, env, logExists, l);
      if o.result.Ok? {
        TerminatedAppend(configured, l.events);
      }
    }
  }
}
