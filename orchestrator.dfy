/**
 * `Harness`: the object that runs one benchmark cycle at a time. Its state is
 * what the cycle changes in the world: the service's property file, whether
 * build output is on disk, the files under the logs root, and the trace of
 * every step taken. Each private step of the source is a method here, and
 * `Test` is proved to follow `Cycle.CycleSpec`.
 */
module Orchestrator {
  import opened Wrappers
  import opened JavaText
  import opened ResultParser
  import Stats
  import opened Trace
  import opened HealthPoller
  import opened Cycle

  /** The log files after a step that leaves `log` (if any) at `path`. */
  function Logged(files: map<string, seq<string>>, path: string, log: Option<seq<string>>): (r: map<string, seq<string>>)
    ensures log.None? ==> r == files
    ensures log.Some? ==> r.Keys == files.Keys + {path} && r[path] == log.value
    ensures forall p :: p in files && p != path ==> r[p] == files[p]
  {
    if log.Some? then files[path := log.value] else files
  }

  /** A second write to the same path replaces the first. */
  lemma UpdateTwice(files: map<string, seq<string>>, path: string, first: seq<string>, second: seq<string>)
    ensures files[path := first][path := second] == files[path := second]
  {
  }

  class Harness {
    /** The key/value pairs of `src/main/resources/application.properties`. */
    var properties: map<string, string>
    /** Whether the service's `build` directory exists. */
    var buildExists: bool
    /** The files under the logs root, by path, each as its lines. */
    var logFiles: map<string, seq<string>>
    /** Every step taken so far, in order. */
    var trace: seq<Event>

    /** A harness over a code base whose logs root has just been emptied. */
    constructor (properties: map<string, string>, buildExists: bool)
      ensures this.properties == properties && this.buildExists == buildExists
      ensures logFiles == map[] && trace == []
    {
      this.properties := properties;
      this.buildExists := buildExists;
      logFiles := map[];
      trace := [];
    }

    /** The runner's clean-up before each variant: remove the `build` directory. */
    method DeleteBuild()
      modifies this
      ensures trace == old(trace) + [BuildDeleted] && !buildExists
      ensures properties == old(properties) && logFiles == old(logFiles)
    {
      trace := trace + [BuildDeleted];
      buildExists := false;
    }

    /** `transformProperties(loom)`: load the properties, set the virtual-threads flag, store them. */
    method TransformProperties(loom: bool)
      modifies this
      ensures properties == Transformed(old(properties), loom)
      ensures trace == old(trace) + [PropertiesWritten(VirtualThreadsKey, BoolText(loom))]
      ensures buildExists == old(buildExists) && logFiles == old(logFiles)
    {
      properties := properties[VirtualThreadsKey := BoolText(loom)];
      trace := trace + [PropertiesWritten(VirtualThreadsKey, BoolText(loom))];
    }

    /** `compile()`: run the native build, which exits with `exitCode`; it succeeds only on 0. */
    method Compile(exitCode: int) returns (ok: bool)
      modifies this
      ensures ok <==> exitCode == 0
      ensures trace == old(trace) + [Compiled(exitCode, old(buildExists))]
      ensures buildExists
      ensures properties == old(properties) && logFiles == old(logFiles)
    {
      trace := trace + [Compiled(exitCode, buildExists)];
      buildExists := true;
      ok := exitCode == 0;
    }

    /** Hand `launch()` to the executor; the service's own run is not modelled. */
    method Launch()
      modifies this
      ensures trace == old(trace) + [LaunchSubmitted]
      ensures properties == old(properties) && buildExists == old(buildExists) && logFiles == old(logFiles)
    {
      trace := trace + [LaunchSubmitted];
    }

    /**
     * `pollUntilApplicationHealthIs(target)`: sleep, poll, and return at the
     * first answer observed as `target`. `responses` are the endpoint's
     * answers in turn; running out of them stands for waiting forever.
     */
    method PollUntilApplicationHealthIs(target: Health, responses: seq<Response>) returns (reached: bool)
      modifies this
      ensures reached <==> FirstMatch(target, responses).Some?
      ensures trace == old(trace) + PollEvents(target, responses)
      ensures properties == old(properties) && buildExists == old(buildExists) && logFiles == old(logFiles)
    {
      var rest := responses;
      reached := false;
      while rest != [] && !reached
        invariant !reached ==> trace + PollEvents(target, rest) == old(trace) + PollEvents(target, responses)
        invariant reached ==> trace == old(trace) + PollEvents(target, responses)
        invariant reached ==> FirstMatch(target, responses).Some?
        invariant !reached ==> (FirstMatch(target, responses).Some? <==> FirstMatch(target, rest).Some?)
        invariant properties == old(properties) && buildExists == old(buildExists) && logFiles == old(logFiles)
        decreases |rest|
      {
        PollStep(target, rest);
        ghost var before := trace;
        trace := trace + [Slept(target, PollIntervalMillis)];
        var status := Is2xx(rest[0]);
        var seen := if status then UP else DOWN;
        trace := trace + [Polled(target, seen)];
        ghost var round := [Slept(target, PollIntervalMillis), Polled(target, seen)];
        assert trace == before + round;
        reached := seen == target;
        if !reached {
          AppendAssoc(before, round, PollEvents(target, rest[1..]));
        }
        rest := rest[1..];
      }
    }

    /**
     * Remove an old log at `path` (when `deletable` says the file system lets
     * it) and start a new one holding a line separator, read back as one
     * empty line.
     */
    method ResetLog(path: string, deletable: bool) returns (ok: bool)
      modifies this
      ensures ok <==> !(path in old(logFiles) && !deletable)
      ensures ok ==> logFiles == old(logFiles)[path := [""]] && trace == old(trace) + [LogReset(path)]
      ensures !ok ==> logFiles == old(logFiles) && trace == old(trace)
      ensures properties == old(properties) && buildExists == old(buildExists)
    {
      ok := !(path in logFiles) || deletable;
      if ok {
        logFiles := logFiles[path := [""]];
        trace := trace + [LogReset(path)];
      }
    }

    /** `ab(log, threads, concurrency)`: one load-generator run appending its output to the log. */
    method Ab(cfg: ApacheBenchConfiguration, run: AbRun) returns (ok: bool)
      modifies this
      ensures ok <==> run.exitCode == 0
      ensures trace == old(trace) + [AbInvoked(AbCommand(cfg.threads, cfg.concurrency), cfg.log, run.exitCode)]
      ensures logFiles == old(logFiles)[cfg.log := (if cfg.log in old(logFiles) then old(logFiles)[cfg.log] else []) + run.output]
      ensures properties == old(properties) && buildExists == old(buildExists)
    {
      var cmd := AbCommand(cfg.threads, cfg.concurrency);
      trace := trace + [AbInvoked(cmd, cfg.log, run.exitCode)];
      var before := if cfg.log in logFiles then logFiles[cfg.log] else [];
      logFiles := logFiles[cfg.log := before + run.output];
      ok := run.exitCode == 0;
    }

    /** `shutdownNativeProcess()`: ask the service to stop; only a 2xx answer counts as accepted. */
    method ShutdownNativeProcess(response: Response) returns (ok: bool)
      modifies this
      ensures ok <==> Is2xx(response)
      ensures trace == old(trace) + [ShutdownRequested(ok)]
      ensures properties == old(properties) && buildExists == old(buildExists) && logFiles == old(logFiles)
    {
      ok := Is2xx(response);
      trace := trace + [ShutdownRequested(ok)];
    }

    /** `findMean` over metric `m`'s stream of the log's lines. */
    method MeanOfMetric(lines: seq<string>, m: Metric, parse: string -> Option<real>) returns (r: Result<real, AnalysisError>)
      ensures r == MetricMean(lines, m, parse)
    {
      var samples := Samples(lines, Selector(m), Reader(parse));
      if samples.Err? {
        return Err(Unreadable(m, samples.error));
      }
      var mean := Stats.FindMean(samples.value);
      if mean.None? {
        return Err(NoSamples(m));
      }
      return Ok(mean.value);
    }

    /** `analyzeApacheBenchResults(log)`: read the log and reduce it to the three means. */
    method AnalyzeApacheBenchResults(path: string, parse: string -> Option<real>) returns (r: Result<AnalysisResults, AnalysisError>)
      requires path in logFiles
      ensures r == Analyze(logFiles[path], parse)
    {
      var lines := logFiles[path];
      var duration := MeanOfMetric(lines, TotalDuration, parse);
      if duration.Err? {
        return Err(duration.error);
      }
      var latency := MeanOfMetric(lines, Latency, parse);
      if latency.Err? {
        return Err(latency.error);
      }
      var throughput := MeanOfMetric(lines, Throughput, parse);
      if throughput.Err? {
        return Err(throughput.error);
      }
      return Ok(AnalysisResults(duration.value, latency.value, throughput.value));
    }

    /**
     * `test(loom, cfg)`: one full cycle — rewrite the properties, build,
     * then launch, benchmark, shut down and analyse. `env` supplies every
     * answer the outside world gives. The first failing step throws, which
     * here is an `Err` carrying the reason.
     */
    method Test(loom: bool, cfg: ApacheBenchConfiguration, env: Environment) returns (r: Result<AnalysisResults, Failure>)
      modifies this
      ensures trace == old(trace) + CycleSpec(loom, cfg, env, old(buildExists), cfg.log in old(logFiles)).events
      ensures r == CycleSpec(loom, cfg, env, old(buildExists), cfg.log in old(logFiles)).result
      ensures logFiles == Logged(old(logFiles), cfg.log, CycleSpec(loom, cfg, env, old(buildExists), cfg.log in old(logFiles)).log)
      ensures properties == Transformed(old(properties), loom) && buildExists
    {
      TransformProperties(loom);
      var compiled := Compile(env.compileExit);
      ghost var steps := [PropertiesWritten(VirtualThreadsKey, BoolText(loom)), Compiled(env.compileExit, old(buildExists))];
      assert trace == old(trace) + steps;
      if !compiled {
        assert CycleSpec(loom, cfg, env, old(buildExists), cfg.log in old(logFiles)) == Then(steps, Stop(CompileFailed(env.compileExit), None));
        return Err(CompileFailed(env.compileExit));
      }
      assert CycleSpec(loom, cfg, env, old(buildExists), cfg.log in old(logFiles)) == Then(steps, LaunchStage(cfg, env, cfg.log in old(logFiles)));
      r := LaunchPhase(cfg, env);
      AppendAssoc(old(trace), steps, LaunchStage(cfg, env, cfg.log in old(logFiles)).events);
    }

    /** The launch and everything after it: wait for UP, check the old log can go, then benchmark. */
    method LaunchPhase(cfg: ApacheBenchConfiguration, env: Environment) returns (r: Result<AnalysisResults, Failure>)
      modifies this
      ensures trace == old(trace) + LaunchStage(cfg, env, cfg.log in old(logFiles)).events
      ensures r == LaunchStage(cfg, env, cfg.log in old(logFiles)).result
      ensures logFiles == Logged(old(logFiles), cfg.log, LaunchStage(cfg, env, cfg.log in old(logFiles)).log)
      ensures properties == old(properties) && buildExists == old(buildExists)
    {
      Launch();
      var up := PollUntilApplicationHealthIs(UP, env.readiness);
      ghost var steps := [LaunchSubmitted] + PollEvents(UP, env.readiness);
      AppendAssoc(old(trace), [LaunchSubmitted], PollEvents(UP, env.readiness));
      assert trace == old(trace) + steps;
      if !up {
        assert LaunchStage(cfg, env, cfg.log in old(logFiles)) == Then(steps, Stop(NeverUp, None));
        return Err(NeverUp);
      }
      if cfg.log in logFiles && !env.logDeletable {
        assert LaunchStage(cfg, env, cfg.log in old(logFiles)) == Then(steps, Stop(LogNotDeleted(cfg.log), None));
        return Err(LogNotDeleted(cfg.log));
      }
      assert LaunchStage(cfg, env, cfg.log in old(logFiles)) == Then(steps, BenchmarkStage(cfg, env));
      r := BenchmarkPhase(cfg, env);
      AppendAssoc(old(trace), steps, BenchmarkStage(cfg, env).events);
    }

    /** Start a fresh log, run `ab` up to `MaxRuns` times stopping at the first failure, then shut down. */
    method BenchmarkPhase(cfg: ApacheBenchConfiguration, env: Environment) returns (r: Result<AnalysisResults, Failure>)
      requires !(cfg.log in logFiles && !env.logDeletable)
      modifies this
      ensures trace == old(trace) + BenchmarkStage(cfg, env).events
      ensures r == BenchmarkStage(cfg, env).result
      ensures logFiles == Logged(old(logFiles), cfg.log, BenchmarkStage(cfg, env).log)
      ensures properties == old(properties) && buildExists == old(buildExists)
    {
      var reset := ResetLog(cfg.log, env.logDeletable);
      var failed := RunAb(cfg, env.ab);
      ghost var b := Benchmark(cfg, env.ab, MaxRuns);
      ghost var log := [""] + b.output;
      UpdateTwice(old(logFiles), cfg.log, [""], log);
      assert logFiles == old(logFiles)[cfg.log := log];
      AppendAssoc(old(trace), [LogReset(cfg.log)], b.events);
      if failed.Some? {
        assert BenchmarkStage(cfg, env) == Then([LogReset(cfg.log)] + b.events, Stop(AbFailed(failed.value, env.ab(failed.value).exitCode), Some(log)));
        return Err(AbFailed(failed.value, env.ab(failed.value).exitCode));
      }
      assert BenchmarkStage(cfg, env) == Then([LogReset(cfg.log)] + b.events, ShutdownStage(cfg, env, log));
      r := ShutdownPhase(cfg, env, log);
      AppendAssoc(old(trace), [LogReset(cfg.log)] + b.events, ShutdownStage(cfg, env, log).events);
    }

    /** One round of the benchmark: the `ab` run number `i`, appended to the trace and to the log. */
    method AbRound(cfg: ApacheBenchConfiguration, ab: nat -> AbRun, i: nat,
                   ghost history: seq<Event>, ghost files: map<string, seq<string>>, ghost start: seq<string>) returns (ok: bool)
      requires Benchmark(cfg, ab, i).failed.None?
      requires trace == history + Benchmark(cfg, ab, i).events
      requires logFiles == files[cfg.log := start + Benchmark(cfg, ab, i).output]
      modifies this
      ensures ok <==> ab(i).exitCode == 0
      ensures Benchmark(cfg, ab, i + 1).failed == (if ok then None else Some(i))
      ensures trace == history + Benchmark(cfg, ab, i + 1).events
      ensures logFiles == files[cfg.log := start + Benchmark(cfg, ab, i + 1).output]
      ensures properties == old(properties) && buildExists == old(buildExists)
    {
      ghost var done := Benchmark(cfg, ab, i);
      var run := ab(i);
      ok := Ab(cfg, run);
      assert logFiles == files[cfg.log := start + done.output][cfg.log := (start + done.output) + run.output];
      UpdateTwice(files, cfg.log, start + done.output, (start + done.output) + run.output);
      BenchmarkNext(cfg, ab, i);
      AppendAssoc(history, done.events, [AbInvoked(AbCommand(cfg.threads, cfg.concurrency), cfg.log, run.exitCode)]);
      assert (start + done.output) + run.output == start + (done.output + run.output);
    }

    /** The loop over `ab`: up to `MaxRuns` runs appending to the log, left at the first non-zero exit. */
    method RunAb(cfg: ApacheBenchConfiguration, ab: nat -> AbRun) returns (failed: Option<nat>)
      requires cfg.log in logFiles
      modifies this
      ensures failed == Benchmark(cfg, ab, MaxRuns).failed
      ensures trace == old(trace) + Benchmark(cfg, ab, MaxRuns).events
      ensures logFiles == old(logFiles)[cfg.log := old(logFiles)[cfg.log] + Benchmark(cfg, ab, MaxRuns).output]
      ensures properties == old(properties) && buildExists == old(buildExists)
    {
      ghost var start := logFiles[cfg.log];
      assert start + Benchmark(cfg, ab, 0).output == start;
      failed := None;
      var i := 0;
      while i < MaxRuns && failed.None?
        invariant 0 <= i <= MaxRuns
        invariant failed == Benchmark(cfg, ab, i).failed
        invariant trace == old(trace) + Benchmark(cfg, ab, i).events
        invariant logFiles == old(logFiles)[cfg.log := start + Benchmark(cfg, ab, i).output]
        invariant properties == old(properties) && buildExists == old(buildExists)
      {
        var ok := AbRound(cfg, ab, i, old(trace), old(logFiles), start);
        if !ok {
          failed := Some(i);
        }
        i := i + 1;
      }
      if failed.Some? {
        BenchmarkStops(cfg, ab, i, MaxRuns);
      }
      assert Benchmark(cfg, ab, MaxRuns) == Benchmark(cfg, ab, i);
    }

    /** Ask the service to stop, wait for DOWN, then analyse the log, which holds `log`. */
    method ShutdownPhase(cfg: ApacheBenchConfiguration, env: Environment, ghost log: seq<string>) returns (r: Result<AnalysisResults, Failure>)
      requires cfg.log in logFiles && logFiles[cfg.log] == log
      modifies this
      ensures trace == old(trace) + ShutdownStage(cfg, env, log).events
      ensures r == ShutdownStage(cfg, env, log).result
      ensures logFiles == old(logFiles) && properties == old(properties) && buildExists == old(buildExists)
    {
      var accepted := ShutdownNativeProcess(env.shutdown);
      if !accepted {
        return Err(ShutdownRejected(env.shutdown));
      }
      var down := PollUntilApplicationHealthIs(DOWN, env.termination);
      AppendAssoc(old(trace), [ShutdownRequested(true)], PollEvents(DOWN, env.termination));
      if !down {
        return Err(NeverDown);
      }
      trace := trace + [Analyzed(cfg.log)];
      var analysis := AnalyzeApacheBenchResults(cfg.log, env.parse);
      r := Reported(analysis);
      AppendAssoc(old(trace), [ShutdownRequested(true)] + PollEvents(DOWN, env.termination), [Analyzed(cfg.log)]);
    }
  }
}
