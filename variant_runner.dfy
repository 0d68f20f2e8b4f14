/**
 * The application runner: for each variant ("traditional" on platform
 * threads, "loom" on virtual threads) remove the old build, run one cycle
 * with the variant's log at `<logs>/<name>`, and collect each variant's
 * analysis under its name. A cycle that fails ends the run.
 */
module VariantRunner {
  import opened Wrappers
  import opened ResultParser
  import opened Trace
  import opened Cycle
  import opened Orchestrator

  /** The number of requests each `ab` run makes. */
  const Threads: int := 1000

  /** The number of requests `ab` keeps in flight. */
  const Concurrency: int := 10

  /** Each variant's name and whether it runs on virtual threads. */
  const Variants: map<string, bool> := map["traditional" := false, "loom" := true]

  /** Whether the variant `name` runs on virtual threads; only "loom" does. */
  function Loom(name: string): bool
  {
    name in Variants && Variants[name]
  }

  /** The log of the variant `name` under the logs root `logs`. */
  function LogPath(logs: string, name: string): string
  {
    logs + "/" + name
  }

  /** Different names get different logs. */
  lemma LogPathInjective(logs: string, a: string, b: string)
    ensures LogPath(logs, a) == LogPath(logs, b) ==> a == b
  {
    if LogPath(logs, a) == LogPath(logs, b) {
      assert a == LogPath(logs, a)[|logs| + 1..];
      assert b == LogPath(logs, b)[|logs| + 1..];
    }
  }

  /** The benchmark configuration of the variant `name`. */
  function VariantConfiguration(logs: string, name: string): ApacheBenchConfiguration
  {
    ApacheBenchConfiguration(LogPath(logs, name), Threads, Concurrency)
  }

  /**
   * The cycle each variant runs, by name and by whether its log is already
   * there: the build has just been removed, so it is never stale.
   */
  function CycleOf(logs: string, envs: string -> Environment): (string, bool) -> Outcome
  {
    (name: string, present: bool) => CycleSpec(Loom(name), VariantConfiguration(logs, name), envs(name), false, present)
  }

  /** The variant that threw, and why. */
  datatype VariantFailure = VariantFailure(name: string, cause: Failure)

  /**
   * The runner after some variants: the events so far, the analyses
   * collected, the failure that ended the run if any, the log files, the
   * properties, whether a build is on disk, and how many cycles were run.
   */
  datatype Run = Run(
    events: seq<Event>,
    analysis: map<string, AnalysisResults>,
    failure: Option<VariantFailure>,
    files: map<string, seq<string>>,
    properties: map<string, string>,
    buildExists: bool,
    tested: nat)

  /** No name appears twice. */
  predicate Distinct(names: seq<string>)
  {
    forall i, j :: 0 <= i < j < |names| ==> names[i] != names[j]
  }

  /** One iteration of the runner's loop for `name` from the state `s`, with `cycle` giving each variant's cycle. */
  function VariantStep(logs: string, cycle: (string, bool) -> Outcome, flag: string -> bool, name: string, s: Run): Run
  {
    var path := LogPath(logs, name);
    var o := cycle(name, path in s.files);
    Run(
      s.events + (if s.buildExists then [BuildDeleted] else []) + o.events,
      if o.result.Ok? then s.analysis[name := o.result.value] else s.analysis,
      if o.result.Err? then Some(VariantFailure(name, o.result.error)) else None,
      Logged(s.files, path, o.log),
      Transformed(s.properties, flag(name)),
      true,
      s.tested + 1)
  }

  /** The runner over `names` in order, starting from `files`, `properties` and `build`; a failure stops it. */
  function Runs(logs: string, cycle: (string, bool) -> Outcome, flag: string -> bool, names: seq<string>,
                files: map<string, seq<string>>, properties: map<string, string>, build: bool): (r: Run)
    ensures r.tested <= |names|
    ensures r.failure.None? ==> r.tested == |names|
    ensures r.failure.Some? ==> r.tested > 0
    decreases |names|
  {
    if names == [] then Run([], map[], None, files, properties, build, 0)
    else
      var s := Runs(logs, cycle, flag, names[..|names| - 1], files, properties, build);
      if s.failure.Some? then s
      else VariantStep(logs, cycle, flag, names[|names| - 1], s)
  }

  /** The cycle `name` runs when it finds its log as it was at the start. */
  function Expected(logs: string, cycle: (string, bool) -> Outcome, name: string, files: map<string, seq<string>>): Outcome
  {
    cycle(name, LogPath(logs, name) in files)
  }

  /** The variants whose cycles returned results. */
  function Succeeded(r: Run): nat
  {
    if r.failure.Some? && r.tested > 0 then r.tested - 1 else r.tested
  }

  /** A log whose path is no variant's is left as it was. */
  lemma {:induction false} RunsFilesOutside(logs: string, cycle: (string, bool) -> Outcome, flag: string -> bool, names: seq<string>,
                                            files: map<string, seq<string>>, properties: map<string, string>, build: bool, path: string)
    requires forall k :: 0 <= k < |names| ==> path != LogPath(logs, names[k])
    ensures path in Runs(logs, cycle, flag, names, files, properties, build).files <==> path in files
    ensures path in files ==> Runs(logs, cycle, flag, names, files, properties, build).files[path] == files[path]
    decreases |names|
  {
    if names != [] {
      RunsLast(logs, cycle, flag, names, files, properties, build);
      RunsFilesOutside(logs, cycle, flag, names[..|names| - 1], files, properties, build, path);
    }
  }

  /** Whether the variant at position `n` finds its log in place is decided by the files at the start. */
  lemma RunsReach(logs: string, cycle: (string, bool) -> Outcome, flag: string -> bool, names: seq<string>,
                  files: map<string, seq<string>>, properties: map<string, string>, build: bool, n: nat)
    requires Distinct(names) && n < |names|
    ensures LogPath(logs, names[n]) in Runs(logs, cycle, flag, names[..n], files, properties, build).files
        <==> LogPath(logs, names[n]) in files
  {
    forall k | 0 <= k < n ensures LogPath(logs, names[n]) != LogPath(logs, names[..n][k]) {
      LogPathInjective(logs, names[n], names[k]);
    }
    RunsFilesOutside(logs, cycle, flag, names[..n], files, properties, build, LogPath(logs, names[n]));
  }

  /**
   * One more variant, reached with no failure so far and a name not seen
   * before: its cycle is the one `Expected` gives.
   */
  lemma RunsStep(logs: string, cycle: (string, bool) -> Outcome, flag: string -> bool, names: seq<string>,
                 files: map<string, seq<string>>, properties: map<string, string>, build: bool)
    requires Distinct(names) && names != []
    requires Runs(logs, cycle, flag, names[..|names| - 1], files, properties, build).failure.None?
    ensures Runs(logs, cycle, flag, names, files, properties, build)
      == VariantStep(logs, cycle, flag, names[|names| - 1], Runs(logs, cycle, flag, names[..|names| - 1], files, properties, build))
    ensures cycle(names[|names| - 1], LogPath(logs, names[|names| - 1]) in Runs(logs, cycle, flag, names[..|names| - 1], files, properties, build).files)
      == Expected(logs, cycle, names[|names| - 1], files)
  {
    RunsLast(logs, cycle, flag, names, files, properties, build);
    RunsReach(logs, cycle, flag, names, files, properties, build, |names| - 1);
  }

  /** The run fails exactly with the first cycle that fails, and names that variant. */
  lemma {:induction false} RunsFailure(logs: string, cycle: (string, bool) -> Outcome, flag: string -> bool, names: seq<string>,
                                       files: map<string, seq<string>>, properties: map<string, string>, build: bool)
    requires Distinct(names)
    ensures var r := Runs(logs, cycle, flag, names, files, properties, build);
      r.failure.Some? ==>
        (&& Expected(logs, cycle, names[r.tested - 1], files).result.Err?
         && r.failure.value == VariantFailure(names[r.tested - 1], Expected(logs, cycle, names[r.tested - 1], files).result.error))
    decreases |names|
  {
    if names != [] {
      RunsLast(logs, cycle, flag, names, files, properties, build);
      var n := |names| - 1;
      var init := names[..n];
      var s := Runs(logs, cycle, flag, init, files, properties, build);
      if s.failure.None? {
        RunsStep(logs, cycle, flag, names, files, properties, build);
      } else {
        RunsFailure(logs, cycle, flag, init, files, properties, build);
        assert init[s.tested - 1] == names[s.tested - 1];
      }
    }
  }

  /** Every variant before the failure, or every variant if none failed, is bound to its own cycle's results. */
  lemma {:induction false} RunsAnalysis(logs: string, cycle: (string, bool) -> Outcome, flag: string -> bool, names: seq<string>,
                                        files: map<string, seq<string>>, properties: map<string, string>, build: bool)
    requires Distinct(names)
    ensures var r := Runs(logs, cycle, flag, names, files, properties, build);
      forall k :: 0 <= k < Succeeded(r) ==>
        && Expected(logs, cycle, names[k], files).result.Ok?
        && names[k] in r.analysis
        && r.analysis[names[k]] == Expected(logs, cycle, names[k], files).result.value
    decreases |names|
  {
    if names != [] {
      RunsLast(logs, cycle, flag, names, files, properties, build);
      var n := |names| - 1;
      var init := names[..n];
      var r := Runs(logs, cycle, flag, names, files, properties, build);
      var s := Runs(logs, cycle, flag, init, files, properties, build);
      RunsAnalysis(logs, cycle, flag, init, files, properties, build);
      if s.failure.None? {
        RunsStep(logs, cycle, flag, names, files, properties, build);
        var o := Expected(logs, cycle, names[n], files);
        forall k | 0 <= k < Succeeded(r)
          ensures Expected(logs, cycle, names[k], files).result.Ok?
          ensures names[k] in r.analysis && r.analysis[names[k]] == Expected(logs, cycle, names[k], files).result.value
        {
          if k < n {
            assert init[k] == names[k] && names[k] != names[n];
          } else {
            assert r.failure.None? && o.result.Ok?;
          }
        }
      } else {
        forall k | 0 <= k < Succeeded(r) ensures init[k] == names[k] { }
      }
    }
  }

  /** One step keeps the analysis map's names among those of the variants that returned results. */
  lemma StepAnalysisNames(logs: string, cycle: (string, bool) -> Outcome, flag: string -> bool, names: seq<string>, s: Run, r: Run)
    requires names != [] && s.failure.None? && Succeeded(s) == |names| - 1
    requires forall name :: name in s.analysis ==> name in names[..|names| - 1]
    requires r == VariantStep(logs, cycle, flag, names[|names| - 1], s)
    ensures forall name :: name in r.analysis ==> name in names[..Succeeded(r)]
  {
    var n := |names| - 1;
    assert names[..n] <= names[..Succeeded(r)];
    assert r.analysis.Keys <= s.analysis.Keys + {names[n]};
    assert r.analysis.Keys != s.analysis.Keys ==> Succeeded(r) == n + 1;
  }

  /** The analysis map holds no name but those of the variants whose cycles returned results. */
  lemma {:induction false} RunsAnalysisNames(logs: string, cycle: (string, bool) -> Outcome, flag: string -> bool, names: seq<string>,
                                             files: map<string, seq<string>>, properties: map<string, string>, build: bool)
    ensures forall name :: name in Runs(logs, cycle, flag, names, files, properties, build).analysis ==>
      name in names[..Succeeded(Runs(logs, cycle, flag, names, files, properties, build))]
    decreases |names|
  {
    if names != [] {
      RunsLast(logs, cycle, flag, names, files, properties, build);
      var n := |names| - 1;
      var init := names[..n];
      var s := Runs(logs, cycle, flag, init, files, properties, build);
      RunsAnalysisNames(logs, cycle, flag, init, files, properties, build);
      if s.failure.None? {
        assert Succeeded(s) == n && init[..n] == init;
        StepAnalysisNames(logs, cycle, flag, names, s, Runs(logs, cycle, flag, names, files, properties, build));
      } else {
        assert Succeeded(s) <= n;
        assert names[..Succeeded(s)] == init[..Succeeded(s)];
      }
    }
  }

  /** Each variant that ran left the log its cycle wrote at `<logs>/<name>`. */
  lemma {:induction false} RunsLogs(logs: string, cycle: (string, bool) -> Outcome, flag: string -> bool, names: seq<string>,
                                    files: map<string, seq<string>>, properties: map<string, string>, build: bool)
    requires Distinct(names)
    ensures var r := Runs(logs, cycle, flag, names, files, properties, build);
      forall k :: 0 <= k < r.tested && Expected(logs, cycle, names[k], files).log.Some? ==>
        LogPath(logs, names[k]) in r.files && r.files[LogPath(logs, names[k])] == Expected(logs, cycle, names[k], files).log.value
    decreases |names|
  {
    if names != [] {
      RunsLast(logs, cycle, flag, names, files, properties, build);
      var n := |names| - 1;
      var init := names[..n];
      var r := Runs(logs, cycle, flag, names, files, properties, build);
      var s := Runs(logs, cycle, flag, init, files, properties, build);
      RunsLogs(logs, cycle, flag, init, files, properties, build);
      if s.failure.None? {
        RunsStep(logs, cycle, flag, names, files, properties, build);
        var path := LogPath(logs, names[n]);
        forall k | 0 <= k < r.tested && Expected(logs, cycle, names[k], files).log.Some?
          ensures LogPath(logs, names[k]) in r.files && r.files[LogPath(logs, names[k])] == Expected(logs, cycle, names[k], files).log.value
        {
          if k < n {
            assert init[k] == names[k] && names[k] != names[n];
            LogPathInjective(logs, names[k], names[n]);
          }
        }
      } else {
        forall k | 0 <= k < r.tested ensures init[k] == names[k] { }
      }
    }
  }

  /** The runner over a non-empty sequence is the runner over its prefix, then one step unless that failed. */
  lemma RunsLast(logs: string, cycle: (string, bool) -> Outcome, flag: string -> bool, names: seq<string>,
                 files: map<string, seq<string>>, properties: map<string, string>, build: bool)
    requires names != []
    ensures Runs(logs, cycle, flag, names, files, properties, build)
      == (var s := Runs(logs, cycle, flag, names[..|names| - 1], files, properties, build);
          if s.failure.Some? then s else VariantStep(logs, cycle, flag, names[|names| - 1], s))
  {
  }

  /** One step leaves the properties with the flag of the variant it ran, whatever flag came before. */
  lemma StepProperties(logs: string, cycle: (string, bool) -> Outcome, flag: string -> bool, init: seq<string>, name: string,
                       properties: map<string, string>, s: Run)
    requires s.tested == |init|
    requires s.tested == 0 ==> s.properties == properties
    requires s.tested > 0 ==> s.properties == Transformed(properties, flag(init[s.tested - 1]))
    ensures VariantStep(logs, cycle, flag, name, s).tested == |init| + 1
    ensures VariantStep(logs, cycle, flag, name, s).properties == Transformed(properties, flag(name))
  {
    if s.tested > 0 {
      TransformedLastWins(properties, flag(init[s.tested - 1]), flag(name));
    }
  }

  /** The properties keep the flag of the last variant run, or are untouched when none ran. */
  lemma {:induction false} RunsProperties(logs: string, cycle: (string, bool) -> Outcome, flag: string -> bool, names: seq<string>,
                                          files: map<string, seq<string>>, properties: map<string, string>, build: bool)
    ensures Runs(logs, cycle, flag, names, files, properties, build).tested == 0 ==>
      Runs(logs, cycle, flag, names, files, properties, build).properties == properties
    ensures Runs(logs, cycle, flag, names, files, properties, build).tested > 0 ==>
      Runs(logs, cycle, flag, names, files, properties, build).properties
        == Transformed(properties, flag(names[Runs(logs, cycle, flag, names, files, properties, build).tested - 1]))
    decreases |names|
  {
    if names != [] {
      RunsLast(logs, cycle, flag, names, files, properties, build);
      var n := |names| - 1;
      var init := names[..n];
      var s := Runs(logs, cycle, flag, init, files, properties, build);
      RunsProperties(logs, cycle, flag, init, files, properties, build);
      RunsLast(logs, cycle, flag, names, files, properties, build);
      if s.failure.None? {
        StepProperties(logs, cycle, flag, init, names[n], properties, s);
      } else {
        assert init[s.tested - 1] == names[s.tested - 1];
      }
    }
  }

  /** A build is on disk once any cycle ran, and is as it was when none did. */
  lemma {:induction false} RunsBuild(logs: string, cycle: (string, bool) -> Outcome, flag: string -> bool, names: seq<string>,
                                     files: map<string, seq<string>>, properties: map<string, string>, build: bool)
    ensures Runs(logs, cycle, flag, names, files, properties, build).buildExists
      == (build || Runs(logs, cycle, flag, names, files, properties, build).tested > 0)
    decreases |names|
  {
    if names != [] {
      RunsLast(logs, cycle, flag, names, files, properties, build);
      RunsBuild(logs, cycle, flag, names[..|names| - 1], files, properties, build);
    }
  }

  /**
   * What one cycle started on a removed build guarantees: it builds over no
   * stale build, launches the service at most once and, when it returns
   * results, has seen the service DOWN after launching it.
   */
  predicate Disciplined(o: Outcome)
  {
    NoStaleBuild(o.events) && AtMostOneLaunch(o.events) && (o.result.Ok? ==> AllTerminated(o.events))
  }

  /** Every cycle the runner starts is disciplined. */
  lemma CycleOfDisciplined(logs: string, envs: string -> Environment, name: string, present: bool)
    ensures Disciplined(CycleOf(logs, envs)(name, present))
  {
    var cfg := VariantConfiguration(logs, name);
    var o := CycleOf(logs, envs)(name, present);
    assert o == CycleSpec(Loom(name), cfg, envs(name), false, present);
    CycleBuilds(Loom(name), cfg, envs(name), false, present, o);
    CycleLaunchesOnce(Loom(name), cfg, envs(name), false, present, o);
    CycleTerminates(Loom(name), cfg, envs(name), false, present, o);
  }

  /** With disciplined cycles, no cycle of the runner builds over a stale build. */
  lemma {:induction false} RunsNoStaleBuild(logs: string, cycle: (string, bool) -> Outcome, flag: string -> bool, names: seq<string>,
                                            files: map<string, seq<string>>, properties: map<string, string>, build: bool)
    requires forall name, present :: Disciplined(cycle(name, present))
    ensures NoStaleBuild(Runs(logs, cycle, flag, names, files, properties, build).events)
    decreases |names|
  {
    if names != [] {
      var n := |names| - 1;
      RunsLast(logs, cycle, flag, names, files, properties, build);
      var s := Runs(logs, cycle, flag, names[..n], files, properties, build);
      RunsNoStaleBuild(logs, cycle, flag, names[..n], files, properties, build);
      if s.failure.None? {
        var o := cycle(names[n], LogPath(logs, names[n]) in s.files);
        assert Disciplined(o);
        var deleted: seq<Event> := if s.buildExists then [BuildDeleted] else [];
        NoStaleAppend(s.events, deleted);
        NoStaleAppend(s.events + deleted, o.events);
      }
    }
  }

  /**
   * With disciplined cycles, after a history whose services were all
   * observed DOWN, the runner never has two services up at once, and when
   * no cycle failed every service it launched was observed DOWN.
   */
  lemma {:induction false} RunsSeparated(logs: string, cycle: (string, bool) -> Outcome, flag: string -> bool, names: seq<string>,
                                         files: map<string, seq<string>>, properties: map<string, string>, build: bool, history: seq<Event>)
    requires forall name, present :: Disciplined(cycle(name, present))
    requires LaunchesSeparated(history) && AllTerminated(history)
    ensures LaunchesSeparated(history + Runs(logs, cycle, flag, names, files, properties, build).events)
    ensures Runs(logs, cycle, flag, names, files, properties, build).failure.None? ==>
      AllTerminated(history + Runs(logs, cycle, flag, names, files, properties, build).events)
    decreases |names|
  {
    if names == [] {
      assert history + [] == history;
    } else {
      var n := |names| - 1;
      RunsLast(logs, cycle, flag, names, files, properties, build);
      var s := Runs(logs, cycle, flag, names[..n], files, properties, build);
      RunsSeparated(logs, cycle, flag, names[..n], files, properties, build, history);
      if s.failure.None? {
        var o := cycle(names[n], LogPath(logs, names[n]) in s.files);
        assert Disciplined(o);
        var deleted: seq<Event> := if s.buildExists then [BuildDeleted] else [];
        QuietAppend(history + s.events, deleted);
        var before := history + s.events + deleted;
        SeparatedAppend(before, o.events);
        if o.result.Ok? {
          TerminatedAppend(before, o.events);
        }
        AppendAssoc(history, s.events, deleted);
        AppendAssoc(history, s.events + deleted, o.events);
      }
    }
  }

  /**
   * The runner as the application runs it: it never builds over a stale
   * build, never has two services up at once after a quiet history, and
   * when no cycle failed has seen every service it launched DOWN.
   */
  lemma RunnerDiscipline(logs: string, envs: string -> Environment, order: seq<string>,
                         files: map<string, seq<string>>, properties: map<string, string>, build: bool, history: seq<Event>)
    requires LaunchesSeparated(history) && AllTerminated(history)
    ensures NoStaleBuild(Runs(logs, CycleOf(logs, envs), Loom, order, files, properties, build).events)
    ensures LaunchesSeparated(history + Runs(logs, CycleOf(logs, envs), Loom, order, files, properties, build).events)
    ensures Runs(logs, CycleOf(logs, envs), Loom, order, files, properties, build).failure.None? ==>
      AllTerminated(history + Runs(logs, CycleOf(logs, envs), Loom, order, files, properties, build).events)
  {
    forall name, present ensures Disciplined(CycleOf(logs, envs)(name, present)) {
      CycleOfDisciplined(logs, envs, name, present);
    }
    RunsNoStaleBuild(logs, CycleOf(logs, envs), Loom, order, files, properties, build);
    RunsSeparated(logs, CycleOf(logs, envs), Loom, order, files, properties, build, history);
  }

  /** Once a variant has failed, later names change nothing: the run has been left. */
  lemma {:induction false} RunsStops(logs: string, cycle: (string, bool) -> Outcome, flag: string -> bool, names: seq<string>,
                                     files: map<string, seq<string>>, properties: map<string, string>, build: bool, n: nat)
    requires n <= |names| && Runs(logs, cycle, flag, names[..n], files, properties, build).failure.Some?
    ensures Runs(logs, cycle, flag, names, files, properties, build) == Runs(logs, cycle, flag, names[..n], files, properties, build)
    decreases |names| - n
  {
    if n < |names| {
      var init := names[..|names| - 1];
      assert init[..n] == names[..n];
      RunsStops(logs, cycle, flag, init, files, properties, build, n);
      RunsLast(logs, cycle, flag, names, files, properties, build);
    } else {
      assert names[..n] == names;
    }
  }

  /** The next iteration after `n` names, none of which failed. */
  lemma RunsNext(logs: string, cycle: (string, bool) -> Outcome, flag: string -> bool, names: seq<string>,
                 files: map<string, seq<string>>, properties: map<string, string>, build: bool, n: nat)
    requires n < |names| && Runs(logs, cycle, flag, names[..n], files, properties, build).failure.None?
    ensures Runs(logs, cycle, flag, names[..n + 1], files, properties, build)
      == VariantStep(logs, cycle, flag, names[n], Runs(logs, cycle, flag, names[..n], files, properties, build))
  {
    assert names[..n + 1][..n] == names[..n];
    RunsLast(logs, cycle, flag, names[..n + 1], files, properties, build);
  }

  /** `order` lists each variant exactly once: the iteration order of the variants' map, which the source leaves open. */
  ghost predicate IterationOrder(order: seq<string>)
  {
    Distinct(order) && forall name :: name in order <==> name in Variants
  }

  /**
   * When no cycle fails, the runner's map holds exactly the variants, each
   * bound to the results of its own cycle; when one fails, that variant is
   * one of the two, its cycle failed, and it has no entry in the map. That
   * it is the first to fail is `RunsFailure`, and that the map holds only
   * the variants run before it is `RunsAnalysisNames`.
   */
  lemma RunnerResults(logs: string, cycle: (string, bool) -> Outcome, flag: string -> bool, order: seq<string>,
                      files: map<string, seq<string>>, properties: map<string, string>, build: bool)
    requires IterationOrder(order)
    ensures var r := Runs(logs, cycle, flag, order, files, properties, build);
      r.failure.None? ==>
        (&& r.analysis.Keys == Variants.Keys
         && forall name :: name in Variants ==>
              name in r.analysis && Expected(logs, cycle, name, files).result.Ok?
              && r.analysis[name] == Expected(logs, cycle, name, files).result.value)
    ensures var r := Runs(logs, cycle, flag, order, files, properties, build);
      r.failure.Some? ==>
        (&& r.failure.value.name in Variants && r.failure.value.name !in r.analysis
         && Expected(logs, cycle, r.failure.value.name, files).result.Err?)
  {
    var r := Runs(logs, cycle, flag, order, files, properties, build);
    RunsAnalysis(logs, cycle, flag, order, files, properties, build);
    RunsAnalysisNames(logs, cycle, flag, order, files, properties, build);
    RunsFailure(logs, cycle, flag, order, files, properties, build);
    if r.failure.None? {
      assert order[..Succeeded(r)] == order;
      forall name | name in Variants ensures name in r.analysis && r.analysis[name] == Expected(logs, cycle, name, files).result.value {
        var k :| 0 <= k < |order| && order[k] == name;
      }
    } else {
      assert order[r.tested - 1] in order;
    }
  }

  /**
   * One iteration of the runner's loop: remove the build if it exists, then
   * run the cycle of `name`. The harness is in the state `s` describes after
   * `history`, and ends in the state `VariantStep` gives.
   */
  method RunVariant(h: Harness, logs: string, name: string, envs: string -> Environment, ghost history: seq<Event>, ghost s: Run)
      returns (result: Result<AnalysisResults, Failure>)
    requires name in Variants
    requires h.trace == history + s.events && h.logFiles == s.files && h.properties == s.properties && h.buildExists == s.buildExists
    modifies h
    ensures var r := VariantStep(logs, CycleOf(logs, envs), Loom, name, s);
      && h.trace == history + r.events
      && h.logFiles == r.files && h.properties == r.properties && h.buildExists == r.buildExists
      && (result.Ok? ==> r.analysis == s.analysis[name := result.value] && r.failure.None?)
      && (result.Err? ==> r.analysis == s.analysis && r.failure == Some(VariantFailure(name, result.error)))
  {
    ghost var deleted: seq<Event> := if h.buildExists then [BuildDeleted] else [];
    if h.buildExists {
      h.DeleteBuild();
    }
    var loom := Variants[name];
    var cfg := ApacheBenchConfiguration(LogPath(logs, name), Threads, Concurrency);
    ghost var present := cfg.log in h.logFiles;
    assert loom == Loom(name) && cfg == VariantConfiguration(logs, name);
    ghost var o := CycleOf(logs, envs)(name, present);
    assert o == CycleSpec(loom, cfg, envs(name), false, present);
    ghost var r := VariantStep(logs, CycleOf(logs, envs), Loom, name, s);
    assert r.events == s.events + deleted + o.events && r.files == Logged(s.files, cfg.log, o.log);
    assert r.properties == Transformed(s.properties, loom) && r.buildExists;
    AppendAssoc(history, s.events, deleted);
    assert h.trace == history + s.events + deleted;
    result := h.Test(loom, cfg, envs(name));
    AppendAssoc(history + s.events, deleted, o.events);
    AppendAssoc(history, s.events + deleted, o.events);
  }

  /**
   * The runner: for each variant in `order`, remove the build if it exists,
   * then run its cycle with the log at `<logs>/<name>`, and put its results
   * under its name. A failing cycle ends the loop; its failure is returned
   * beside the results collected so far.
   */
  method RunVariants(h: Harness, logs: string, order: seq<string>, envs: string -> Environment)
      returns (analysis: map<string, AnalysisResults>, failure: Option<VariantFailure>)
    requires IterationOrder(order)
    modifies h
    ensures var r := Runs(logs, CycleOf(logs, envs), Loom, order, old(h.logFiles), old(h.properties), old(h.buildExists));
      && h.trace == old(h.trace) + r.events
      && analysis == r.analysis && failure == r.failure
      && h.logFiles == r.files && h.properties == r.properties && h.buildExists == r.buildExists
  {
    ghost var cycle := CycleOf(logs, envs);
    ghost var flag := Loom;
    ghost var run := Runs(logs, cycle, flag, order[..0], old(h.logFiles), old(h.properties), old(h.buildExists));
    analysis := map[];
    failure := None;
    var i := 0;
    while i < |order| && failure.None?
      invariant i <= |order|
      invariant run == Runs(logs, cycle, flag, order[..i], old(h.logFiles), old(h.properties), old(h.buildExists))
      invariant h.trace == old(h.trace) + run.events
      invariant analysis == run.analysis && failure == run.failure
      invariant h.logFiles == run.files && h.properties == run.properties && h.buildExists == run.buildExists
    {
      var name := order[i];
      assert name in order;
      var result := RunVariant(h, logs, name, envs, old(h.trace), run);
      if result.Ok? {
        analysis := analysis[name := result.value];
      } else {
        failure := Some(VariantFailure(name, result.error));
      }
      RunsNext(logs, cycle, flag, order, old(h.logFiles), old(h.properties), old(h.buildExists), i);
      run := VariantStep(logs, cycle, flag, name, run);
      i := i + 1;
    }
    if failure.Some? {
      RunsStops(logs, cycle, flag, order, old(h.logFiles), old(h.properties), old(h.buildExists), i);
    } else {
      assert order[..i] == order;
    }
  }
}
