# Benchmark harness: a Dafny model

The harness compares two builds of one Spring service: "traditional", on platform threads, and "loom", on virtual threads. For each variant the runner does three things:

1. It removes the old `build` directory.
2. It runs one benchmark cycle, `Harness.test`.
3. It collects that cycle's three averages under the variant's name.

One cycle runs these steps in order:

1. Rewrite `spring.threads.virtual.enabled` in the service's `application.properties`.
2. Build the service with `gradlew nativeCompile`.
3. Hand the launch to an executor.
4. Poll the health endpoint every 500 ms until it answers UP.
5. Remove the old log and start a new one holding a single line separator.
6. Run `ab -n 1000 -c 10 http://localhost:8080/customers` ten times, each run appending to that log.
7. Request a shutdown, then poll until the service is DOWN.
8. Reduce the log to three averages:
   - the total test duration;
   - the time per request across all concurrent requests;
   - the requests per second.

Any failing step throws and ends the cycle, and with it the whole run.

The project has nine modules:

- `Wrappers`: `Option` and `Result`.
- `JavaText`: the parts of `java.lang.String` the analysis uses. These are `contains`, `trim`, `strip`, `split` on a single character (trailing empty strings are dropped), `Boolean.toString` and `Integer.toString`.
- `Stats`: the mean, the `FloatSummary` class that collects samples, and the `findMean` method.
- `ResultParser`: `analyzeApacheBenchResults`. Each metric has a filter, a token extraction, a number parser and a mean.
- `Trace`: the steps a cycle records, the phases they belong to, and trace predicates. The predicates say:
  - phases never go back;
  - every launched service was later seen DOWN;
  - no two services run at once;
  - no build runs over stale output.
- `HealthPoller`: `pollUntilApplicationHealthIs` as a function of the endpoint's successive answers.
- `Cycle`: one call of `test` as a function of the answers the outside world gives. It returns the events recorded, the result or the failure thrown, and the final log. The ordering and abort rules are proved here.
- `Orchestrator`: the class `Harness`. Its fields are the state a cycle changes:
  - the property map;
  - whether a build exists;
  - the log files;
  - the trace.

  Every private step of the source is a method, and `Test` is proved to follow `Cycle.CycleSpec`.
- `VariantRunner`: the runner's loop. It is a function `Runs` over any iteration order of the two variants, with lemmas about the final map, the failure, the logs, the properties and the build. The methods `RunVariant` and `RunVariants` are proved against `Runs`.

The outside world is passed in as parameters of `Cycle.Environment`:

- the build's exit status;
- the health answers while waiting for UP, and those while waiting for DOWN;
- whether an existing log can be deleted;
- each `ab` run's exit status and output lines;
- the shutdown answer;
- `Float.parseFloat`, as a partial function from strings to reals.

### Points of the code the model keeps as they are

- **Stale build.** `test` does not remove the old build before compiling. The runner removes it at lines 50–53, before each call of `test`. So the model records in every `Compiled` event whether a stale build was present:
  - `Cycle.CycleBuilds` proves that a cycle is free of stale builds exactly when it starts without one;
  - `VariantRunner.RunnerDiscipline` proves that the runner never builds over stale output.
- **Variant order.** The runner iterates `Map.of(...)`, whose iteration order is unspecified. The runner is therefore modelled for every order (`VariantRunner.IterationOrder`).
- **"Terminated".** Before starting the next variant, the code only waits until the health endpoint stops answering 2xx; it does not check that the process has exited. "Terminated" in the model means exactly that: a poll that observed DOWN.

## Model

| member | source | states |
|---|---|---|
| JavaText.ContainsIff | src/main/java/com/example/harness/HarnessApplication.java:217 | `Contains` holds exactly when the label occurs at some position of the line |
| JavaText.Contains | src/main/java/com/example/harness/HarnessApplication.java:217 | definition of `String.contains`: the label is a prefix of some suffix of the line |
| JavaText.IsTrimmable | src/main/java/com/example/harness/HarnessApplication.java:218 | definition of the characters `trim` removes: code units at or below U+0020 |
| JavaText.IsWhitespace | src/main/java/com/example/harness/HarnessApplication.java:219 | definition of the characters `strip` removes: those `Character.isWhitespace` accepts |
| JavaText.Trim | src/main/java/com/example/harness/HarnessApplication.java:218 | `trim` is the slice of the string with only characters at or below U+0020 before and after it, and neither of its ends is such a character; it is empty exactly when every character is one |
| JavaText.Strip | src/main/java/com/example/harness/HarnessApplication.java:219 | `strip` is the slice of the string with only whitespace before and after it, and neither of its ends is whitespace; it is empty exactly when the string is all whitespace |
| JavaText.UpTo | src/main/java/com/example/harness/HarnessApplication.java:218 | the text before the first separator is a prefix without the separator, followed in the string by the separator when shorter |
| JavaText.PiecesFirst | src/main/java/com/example/harness/HarnessApplication.java:218 | the first field of a split is the text before the first separator |
| JavaText.PiecesAtFirst | src/main/java/com/example/harness/HarnessApplication.java:218 | splitting at the first separator gives its prefix, then the fields of the rest |
| JavaText.JoinPieces | src/main/java/com/example/harness/HarnessApplication.java:218 | joining the fields with the separator gives back the string: split loses nothing |
| JavaText.PiecesWithoutSeparator | src/main/java/com/example/harness/HarnessApplication.java:218 | no field holds the separator |
| JavaText.PiecesNonEmpty | src/main/java/com/example/harness/HarnessApplication.java:218 | some field is non-empty exactly when the string holds a character other than the separator |
| JavaText.DropTrailingEmpty | src/main/java/com/example/harness/HarnessApplication.java:218 | `split` drops exactly the trailing empty fields: a prefix of the fields, ending in a non-empty one |
| JavaText.Split | src/main/java/com/example/harness/HarnessApplication.java:218 | definition of `split` on a one-character separator: every field between separators, without the trailing empty ones |
| JavaText.BoolText | src/main/java/com/example/harness/HarnessApplication.java:129 | definition of `Boolean.toString`: "true" or "false" |
| JavaText.IntToDecimal | src/main/java/com/example/harness/HarnessApplication.java:277 | definition of `Integer.toString`: a minus sign for negatives, then the decimal digits |
| JavaText.NatToDecimalRoundTrip | src/main/java/com/example/harness/HarnessApplication.java:277 | reading back the decimal digits written for a number gives the number |
| JavaText.NatToDecimalInjective | src/main/java/com/example/harness/HarnessApplication.java:277 | different non-negative numbers have different decimal digits |
| JavaText.IntToDecimalSign | src/main/java/com/example/harness/HarnessApplication.java:277 | `Integer.toString` starts with a minus sign exactly for negative numbers, followed by the digits of the magnitude |
| JavaText.IntToDecimalInjective | src/main/java/com/example/harness/HarnessApplication.java:277 | `Integer.toString` is injective, so `ab`'s arguments determine the thread and concurrency counts |
| Stats.Mean | src/main/java/com/example/harness/HarnessApplication.java:243-247 | there is no mean exactly when there are no samples |
| Stats.SumAppend | src/main/java/com/example/harness/HarnessApplication.java:258-261 | the sum of two concatenated sample sequences is the sum of their sums, so combining summaries is exact |
| Stats.SumPermutation | src/main/java/com/example/harness/HarnessApplication.java:244 | the sum does not depend on the order in which samples are accepted |
| Stats.MeanPermutation | src/main/java/com/example/harness/HarnessApplication.java:244 | the mean does not depend on the order of the samples |
| Stats.SumRepeat | src/main/java/com/example/harness/HarnessApplication.java:171-173 | `n` copies of the same samples sum to `n` times their sum |
| Stats.MeanRepeat | src/main/java/com/example/harness/HarnessApplication.java:171-173 | repeating the same samples in several runs leaves their mean unchanged |
| Stats.MeanBounds | src/main/java/com/example/harness/HarnessApplication.java:246 | the mean lies between any lower and upper bound of the samples |
| Stats.FloatSummary.constructor | src/main/java/com/example/harness/HarnessApplication.java:249-251 | a new summary has sum 0 and count 0 for no samples |
| Stats.FloatSummary.Accept | src/main/java/com/example/harness/HarnessApplication.java:253-256 | accepting a value adds it to the sum and counts it, keeping sum and count equal to those of the samples accepted |
| Stats.FloatSummary.Combine | src/main/java/com/example/harness/HarnessApplication.java:258-261 | combining absorbs the other summary's samples, after this one's own, even when the other is this one |
| Stats.FindMean | src/main/java/com/example/harness/HarnessApplication.java:243-247 | collecting samples into a summary gives their mean, and fails on no samples |
| ResultParser.Selector | src/main/java/com/example/harness/HarnessApplication.java:215-235 | definition of each metric's filter as a function value |
| ResultParser.Selects | src/main/java/com/example/harness/HarnessApplication.java:215-235 | definition of the three filters: "Time taken for tests"; "Time per request" and "across all concurrent requests"; "Requests per second" |
| ResultParser.Selected | src/main/java/com/example/harness/HarnessApplication.java:215-217 | a filter keeps only lines of the log that pass it |
| ResultParser.SelectedComplete | src/main/java/com/example/harness/HarnessApplication.java:215-217 | every line that passes the filter is kept |
| ResultParser.SelectedSubMultiset | src/main/java/com/example/harness/HarnessApplication.java:215-217 | no line is kept more often than it occurs in the log |
| ResultParser.SelectedAll | src/main/java/com/example/harness/HarnessApplication.java:215-217 | a log whose every line passes the filter is kept whole |
| ResultParser.SelectedAppend | src/main/java/com/example/harness/HarnessApplication.java:215-217 | filtering two logs one after the other keeps the first one's lines, then the second one's, so the filter keeps log order |
| ResultParser.SelectedOne | src/main/java/com/example/harness/HarnessApplication.java:215-217 | a single line is kept exactly when it passes the filter |
| ResultParser.DropTrailingEmptyLength | src/main/java/com/example/harness/HarnessApplication.java:218 | a split has more than `n` fields exactly when a non-empty field follows the first `n` |
| ResultParser.SecondFieldIsSegment | src/main/java/com/example/harness/HarnessApplication.java:218 | `split(":")[1]` exists exactly when something other than ':' follows the first ':', and is then the text up to the second ':' |
| ResultParser.FirstWordOfTrimmed | src/main/java/com/example/harness/HarnessApplication.java:218 | `split(" ")[0]` of a trimmed string always exists and is its first word |
| ResultParser.Segment | src/main/java/com/example/harness/HarnessApplication.java:218 | definition of the text between the first and the second ':' of a line, or up to its end |
| ResultParser.Token | src/main/java/com/example/harness/HarnessApplication.java:218-219 | definition of `split(":")[1].trim().split(" ")[0].strip()`, with no token where an index is past the end of a split and Java throws |
| ResultParser.TokenIsFirstWordOfSegment | src/main/java/com/example/harness/HarnessApplication.java:218-219 | a line yields a token exactly when a non-':' character follows its first ':', and the token is the stripped first word of the trimmed second field |
| ResultParser.ReadSample | src/main/java/com/example/harness/HarnessApplication.java:218-220 | definition of the stream's `map` steps on one line: the token, parsed; `MissingToken` of the line where Java's split index fails, `NotANumber` of the token where `parseFloat` throws |
| ResultParser.Reader | src/main/java/com/example/harness/HarnessApplication.java:218-220 | definition of the stream's `map` steps as a function value |
| ResultParser.Samples | src/main/java/com/example/harness/HarnessApplication.java:215-220 | definition of one metric's stream, `filter` then `map`, consumed in log order; the first kept line that yields no sample ends it with that line's error |
| ResultParser.SamplesOk | src/main/java/com/example/harness/HarnessApplication.java:215-220 | a metric's stream succeeds exactly when every selected line is readable, and then holds one sample per selected line in log order |
| ResultParser.SamplesFirstError | src/main/java/com/example/harness/HarnessApplication.java:215-220 | a failing stream fails with the error of the first selected line that yields no sample |
| ResultParser.FirstErrorShifted | src/main/java/com/example/harness/HarnessApplication.java:215-220 | a readable selected line in front moves the first unreadable line one place later, with every earlier line still readable |
| ResultParser.SamplesOfSelected | src/main/java/com/example/harness/HarnessApplication.java:215-217 | a stream's samples depend only on the lines its filter keeps |
| ResultParser.SamplesAppend | src/main/java/com/example/harness/HarnessApplication.java:213-220 | the samples of two logs read one after the other are those of the first, then those of the second, and the first error wins |
| ResultParser.SamplesOfRepeat | src/main/java/com/example/harness/HarnessApplication.java:171-173 | the samples of repeated identical output are the repeated samples |
| ResultParser.MetricMean | src/main/java/com/example/harness/HarnessApplication.java:238-247 | definition of `findMean` of one metric's stream: the stream's error, a failure on no samples, or the mean |
| ResultParser.Analyze | src/main/java/com/example/harness/HarnessApplication.java:212-241 | definition of `analyzeApacheBenchResults` on the log's lines: the three means in argument order, the first failure winning |
| ResultParser.AnalyzeSpec | src/main/java/com/example/harness/HarnessApplication.java:212-241 | the analysis succeeds exactly when every metric's stream is readable and non-empty, and each figure is the mean of its metric's samples |
| ResultParser.AnalyzeError | src/main/java/com/example/harness/HarnessApplication.java:212-241 | the analysis fails exactly when some metric's `findMean` fails, and it then reports the error of the first failing metric in argument order: duration, then latency, then throughput |
| ResultParser.AnalyzeIdenticalRuns | src/main/java/com/example/harness/HarnessApplication.java:164-179 | when every run writes the same report, the analysis of the log (blank first line, then every run's output) is that of one report |
| Trace.OrderedAppend | src/main/java/com/example/harness/HarnessApplication.java:150-182 | ordered steps up to a phase, followed by ordered steps from that phase, are ordered |
| Trace.OrderedPairs | src/main/java/com/example/harness/HarnessApplication.java:150-182 | in an ordered trace no step belongs to an earlier phase than any step before it |
| Trace.AbRunsAppend | src/main/java/com/example/harness/HarnessApplication.java:171-173 | the `ab` runs of two traces in turn are those of the first, then those of the second |
| Trace.SeparatedAppend | src/main/java/com/example/harness/HarnessApplication.java:45-57 | a cycle that launches at most once, after a history whose services were all seen DOWN, keeps launches separated |
| Trace.TerminatedAfter | src/main/java/com/example/harness/HarnessApplication.java:175-177 | a DOWN poll after every launch leaves no launched service running |
| HealthPoller.Observe | src/main/java/com/example/harness/HarnessApplication.java:196-201 | definition of one poll's observation: UP for a 2xx answer, DOWN for any other status or a thrown failure |
| HealthPoller.FirstMatch | src/main/java/com/example/harness/HarnessApplication.java:186-206 | the wait returns at the first answer observed as the target, having seen none before it, and never returns when no answer matches |
| HealthPoller.PollStep | src/main/java/com/example/harness/HarnessApplication.java:187-204 | proof step: one unfolding of `PollEvents` — one round sleeps, polls, and returns on a match or goes on with the remaining answers |
| HealthPoller.PollEvents | src/main/java/com/example/harness/HarnessApplication.java:186-206 | definition of the steps of one wait: a 500 ms sleep and a poll per answer, up to the first answer observed as the target |
| HealthPoller.PollEventsSpec | src/main/java/com/example/harness/HarnessApplication.java:186-206 | `k` polls mean `k` sleeps of 500 ms, each before its poll, and poll `i` records how answer `i` is observed (UP iff 2xx; a thrown failure is DOWN) |
| HealthPoller.PollEventsEnd | src/main/java/com/example/harness/HarnessApplication.java:201-203 | a wait ends with a poll that saw the target exactly when some answer matches |
| Cycle.Transformed | src/main/java/com/example/harness/HarnessApplication.java:124-133 | the rewritten properties hold every earlier key, plus the virtual-threads key set to `Boolean.toString(loom)`, and leave other keys unchanged |
| Cycle.TransformedLastWins | src/main/java/com/example/harness/HarnessApplication.java:129 | a second rewrite replaces the first: the last flag wins |
| Cycle.TransformedIdempotent | src/main/java/com/example/harness/HarnessApplication.java:129 | rewriting twice with the same flag is rewriting once |
| Cycle.AbCommand | src/main/java/com/example/harness/HarnessApplication.java:277 | definition of `ab`'s argument list: `ab`, `-n <threads>`, `-c <concurrency>`, the customers URL |
| Cycle.Benchmark | src/main/java/com/example/harness/HarnessApplication.java:171-174 | definition of the first `k` iterations of the `ab` loop: the runs made, the output appended, and the run that failed, after which nothing more happens |
| Cycle.AbCommandDetermines | src/main/java/com/example/harness/HarnessApplication.java:277 | the `ab` argument list names `ab` and the customers endpoint, and determines both numbers it was built from |
| Cycle.BenchmarkNext | src/main/java/com/example/harness/HarnessApplication.java:172-173 | proof step: one unfolding of `Benchmark` — an iteration of the loop that has not failed runs `ab` once more and appends its output |
| Cycle.BenchmarkSucceeds | src/main/java/com/example/harness/HarnessApplication.java:171-174 | the loop runs to the end exactly when every run exits 0 |
| Cycle.BenchmarkSpec | src/main/java/com/example/harness/HarnessApplication.java:171-174 | the loop stops at the first non-zero exit, after exactly that many runs plus one, with every earlier run exiting 0 and every run's output appended |
| Cycle.BenchmarkCount | src/main/java/com/example/harness/HarnessApplication.java:171-173 | until a run fails the loop has made one run per iteration |
| Cycle.BenchmarkEvent | src/main/java/com/example/harness/HarnessApplication.java:172-173 | run `i` of the loop, once made, used the loop's arguments and log and exited as that run did |
| Cycle.BenchmarkEvents | src/main/java/com/example/harness/HarnessApplication.java:172-173 | every run uses the same arguments and the same log |
| Cycle.BenchmarkStops | src/main/java/com/example/harness/HarnessApplication.java:171-174 | after a failed run no later iteration changes anything |
| Cycle.CycleSpec | src/main/java/com/example/harness/HarnessApplication.java:150-182 | definition of one `test`: rewrite the properties, build, and, if the build exited 0, the launch stage |
| Cycle.LaunchStage | src/main/java/com/example/harness/HarnessApplication.java:153-165 | definition of the launch, the wait for UP and the removal of an old log, then the benchmark stage |
| Cycle.BenchmarkStage | src/main/java/com/example/harness/HarnessApplication.java:167-175 | definition of the new log, up to ten `ab` runs stopping at the first failure, then the shutdown stage |
| Cycle.ShutdownStage | src/main/java/com/example/harness/HarnessApplication.java:175-177 | definition of the shutdown request, failing without a 2xx answer, then the wait for DOWN, then the analysis stage |
| Cycle.AnalysisStage | src/main/java/com/example/harness/HarnessApplication.java:179 | definition of the analysis of the log, reported as the cycle's result |
| Cycle.ShutdownStageQuiet | src/main/java/com/example/harness/HarnessApplication.java:175-179 | the shutdown stage runs no `ab`, launches nothing, keeps the log and reports no failed run |
| Cycle.ShutdownStageSteps | src/main/java/com/example/harness/HarnessApplication.java:175-179 | the analysis happens exactly when the shutdown got a 2xx and the service was seen DOWN; it is then the last step and decides the result, otherwise the stage fails |
| Cycle.ShutdownStageOrdered | src/main/java/com/example/harness/HarnessApplication.java:175-179 | the shutdown stage's steps are in phase order, from the shutdown phase on |
| Cycle.BenchmarkStageOrdered | src/main/java/com/example/harness/HarnessApplication.java:164-179 | the benchmark stage's steps are in phase order, from the benchmark phase on |
| Cycle.LaunchStageOrdered | src/main/java/com/example/harness/HarnessApplication.java:153-179 | the launch stage starts with the launch and its steps are in phase order |
| Cycle.BenchmarkStageAborts | src/main/java/com/example/harness/HarnessApplication.java:164-174 | the benchmark stage fails on `ab` exactly when some run exits non-zero: the first such run is its last step, earlier runs exited 0, and the log holds the output of the runs made |
| Cycle.BenchmarkStageContinues | src/main/java/com/example/harness/HarnessApplication.java:164-175 | when every run exits 0 the stage goes on with the shutdown of the log so written |
| Cycle.BenchmarkStageRuns | src/main/java/com/example/harness/HarnessApplication.java:164-174 | the benchmark stage starts with the log reset and records exactly the loop's runs |
| Cycle.BenchmarkStageAnalyzed | src/main/java/com/example/harness/HarnessApplication.java:164-179 | the benchmark stage analyses the log exactly when every run exited 0 and the service then stopped |
| Cycle.BenchmarkStageTerminates | src/main/java/com/example/harness/HarnessApplication.java:164-179 | the benchmark stage launches nothing, and when it returns results it saw the service DOWN |
| Cycle.LaunchStageContinues | src/main/java/com/example/harness/HarnessApplication.java:153-169 | after the launch the stage waits for UP. It then goes on with the benchmark, or fails with no log when the service never came UP or the old log could not be deleted |
| Cycle.LaunchStageEvents | src/main/java/com/example/harness/HarnessApplication.java:153-167 | proof step: one unfolding of `LaunchStage` — the launch, the readiness polls, then the benchmark stage's events once the service is UP and any old log was removed |
| Cycle.LaunchStageRuns | src/main/java/com/example/harness/HarnessApplication.java:153-174 | `ab` runs only after UP was seen and the old log removed |
| Cycle.LaunchStageAnalyzed | src/main/java/com/example/harness/HarnessApplication.java:153-179 | the launch stage analyses the log exactly when every later step succeeds |
| Cycle.LaunchStageTerminates | src/main/java/com/example/harness/HarnessApplication.java:153-179 | a launch stage that returns results has seen its service DOWN after launching it |
| Cycle.CycleOrdered | src/main/java/com/example/harness/HarnessApplication.java:150-182 | a cycle never returns to an earlier phase, whichever step ends it |
| Cycle.CycleShape | src/main/java/com/example/harness/HarnessApplication.java:150-159 | every cycle rewrites the properties and builds first; a failed build ends it; otherwise the launch follows, and no later step is of an earlier phase |
| Cycle.CycleRuns | src/main/java/com/example/harness/HarnessApplication.java:150-174 | a cycle runs `ab` exactly when the build succeeded, UP was seen and the old log removed, and then runs the loop's runs |
| Cycle.CycleAnalyzed | src/main/java/com/example/harness/HarnessApplication.java:150-182 | the analysis happens exactly when every earlier step succeeded, and has happened whenever a cycle returns results |
| Cycle.CycleAnalysisRuns | src/main/java/com/example/harness/HarnessApplication.java:171-174 | a cycle that reaches the analysis ran `ab` exactly 10 times, with the same arguments and log, each exiting 0 |
| Cycle.CycleAnalysisSteps | src/main/java/com/example/harness/HarnessApplication.java:162-179 | a cycle that reaches the analysis saw UP, reset the log, had its shutdown accepted, saw DOWN, and analysed last |
| Cycle.CycleAnalysisResult | src/main/java/com/example/harness/HarnessApplication.java:164-179 | a cycle that reaches the analysis leaves a blank line followed by every run's output, and returns that log's analysis |
| Cycle.CycleAbortsOnAb | src/main/java/com/example/harness/HarnessApplication.java:171-174 | a cycle fails on `ab` exactly when it got to the benchmark and some run exits non-zero; the first such run is reported with its exit code |
| Cycle.CycleAbortRuns | src/main/java/com/example/harness/HarnessApplication.java:171-174 | an aborted benchmark records exactly the runs up to the failing one, and no further `ab` |
| Cycle.CycleAbortTrace | src/main/java/com/example/harness/HarnessApplication.java:162-174 | an aborted benchmark's failing run is the cycle's last step, after UP was seen and the log reset |
| Cycle.CycleAbortPhases | src/main/java/com/example/harness/HarnessApplication.java:171-179 | an aborted benchmark has no shutdown, no wait for DOWN and no analysis |
| Cycle.CycleLaunchesOnce | src/main/java/com/example/harness/HarnessApplication.java:150-159 | a cycle launches at most once, and launches exactly when the build exited 0 |
| Cycle.CycleBuilds | src/main/java/com/example/harness/HarnessApplication.java:150-152 | a cycle builds over stale output exactly when it starts with one, and deletes no build itself |
| Cycle.CycleTerminates | src/main/java/com/example/harness/HarnessApplication.java:175-179 | a cycle that returns results saw its service DOWN after launching it |
| Orchestrator.Logged | src/main/java/com/example/harness/HarnessApplication.java:164-169 | a step that leaves a log changes only that path, and a step that leaves none changes nothing |
| Orchestrator.Harness.constructor | src/main/java/com/example/harness/HarnessApplication.java:73-84 | a new harness starts with an emptied logs root and nothing done |
| Orchestrator.Harness.DeleteBuild | src/main/java/com/example/harness/HarnessApplication.java:50-53 | removing the build leaves no build on disk and changes nothing else |
| Orchestrator.Harness.TransformProperties | src/main/java/com/example/harness/HarnessApplication.java:124-133 | the stored properties are the loaded ones with the flag set, and nothing else changes |
| Orchestrator.Harness.Compile | src/main/java/com/example/harness/HarnessApplication.java:135-145 | the build succeeds exactly when it exits 0; it records whether it ran over a stale build, and leaves a build on disk |
| Orchestrator.Harness.Launch | src/main/java/com/example/harness/HarnessApplication.java:153-159 | the launch is submitted and nothing else changes |
| Orchestrator.Harness.PollUntilApplicationHealthIs | src/main/java/com/example/harness/HarnessApplication.java:186-206 | the loop returns exactly when an answer matches, after one sleep and one poll per answer up to the first match |
| Orchestrator.Harness.ResetLog | src/main/java/com/example/harness/HarnessApplication.java:164-169 | an old log that cannot be deleted fails the step with nothing changed; otherwise the log holds one empty line |
| Orchestrator.Harness.Ab | src/main/java/com/example/harness/HarnessApplication.java:276-286 | one run with `ab -n <threads> -c <concurrency> <url>`, appending its output to the log; it succeeds exactly on exit 0 |
| Orchestrator.Harness.ShutdownNativeProcess | src/main/java/com/example/harness/HarnessApplication.java:264-274 | the shutdown counts as accepted exactly on a 2xx answer |
| Orchestrator.Harness.MeanOfMetric | src/main/java/com/example/harness/HarnessApplication.java:243-247 | `findMean` of a metric's stream is the mean of its samples, or the stream's error, or fails on no samples |
| Orchestrator.Harness.AnalyzeApacheBenchResults | src/main/java/com/example/harness/HarnessApplication.java:212-241 | reading a log and taking the three means gives `Analyze` of its lines |
| Orchestrator.Harness.Test | src/main/java/com/example/harness/HarnessApplication.java:150-182 | one cycle records exactly the steps of `CycleSpec`, returns its result, leaves its log, and leaves the properties rewritten and a build on disk |
| Orchestrator.Harness.LaunchPhase | src/main/java/com/example/harness/HarnessApplication.java:153-182 | the steps from the launch on follow `LaunchStage` |
| Orchestrator.Harness.BenchmarkPhase | src/main/java/com/example/harness/HarnessApplication.java:164-182 | the steps from the new log on follow `BenchmarkStage` |
| Orchestrator.Harness.AbRound | src/main/java/com/example/harness/HarnessApplication.java:172-173 | one iteration of the loop extends the trace and the log exactly as one more step of `Benchmark` |
| Orchestrator.Harness.RunAb | src/main/java/com/example/harness/HarnessApplication.java:171-174 | the loop records exactly `Benchmark`'s runs, appends their output to the log and reports the failing run |
| Orchestrator.Harness.ShutdownPhase | src/main/java/com/example/harness/HarnessApplication.java:175-179 | the steps from the shutdown on follow `ShutdownStage` and leave the log unchanged |
| VariantRunner.LogPathInjective | src/main/java/com/example/harness/HarnessApplication.java:48 | different variants get different logs |
| VariantRunner.LogPath | src/main/java/com/example/harness/HarnessApplication.java:48 | definition of a variant's log: `<logs>/<name>` |
| VariantRunner.CycleOf | src/main/java/com/example/harness/HarnessApplication.java:45-56 | definition of each variant's cycle: `test` with the variant's flag and log, 1000 requests, concurrency 10, over a removed build |
| VariantRunner.VariantStep | src/main/java/com/example/harness/HarnessApplication.java:46-56 | definition of one iteration: remove the build, run the cycle, and put its result under the variant's name, or stop with its failure |
| VariantRunner.Runs | src/main/java/com/example/harness/HarnessApplication.java:45-57 | the runner tests every variant unless one fails, and a failure comes from a variant it tested |
| VariantRunner.RunsFilesOutside | src/main/java/com/example/harness/HarnessApplication.java:45-57 | a file that is no variant's log is left as it was |
| VariantRunner.RunsReach | src/main/java/com/example/harness/HarnessApplication.java:48 | whether a variant finds an old log in place is decided by the files at the start |
| VariantRunner.RunsStep | src/main/java/com/example/harness/HarnessApplication.java:45-57 | each variant reached runs the cycle it would run on the files at the start |
| VariantRunner.RunsFailure | src/main/java/com/example/harness/HarnessApplication.java:56 | the run fails exactly with the first failing cycle, naming its variant |
| VariantRunner.RunsAnalysis | src/main/java/com/example/harness/HarnessApplication.java:56 | every variant before the failure is bound to the results of its own cycle |
| VariantRunner.RunsAnalysisNames | src/main/java/com/example/harness/HarnessApplication.java:44-57 | the map holds no name but those of variants whose cycles returned results |
| VariantRunner.RunsLogs | src/main/java/com/example/harness/HarnessApplication.java:48-56 | each variant that ran left its cycle's log at `<logs>/<name>` |
| VariantRunner.RunsProperties | src/main/java/com/example/harness/HarnessApplication.java:45-56 | the properties keep the flag of the last variant run, or are untouched when none ran |
| VariantRunner.RunsBuild | src/main/java/com/example/harness/HarnessApplication.java:50-56 | a build is on disk once any cycle ran, and is as it was when none did |
| VariantRunner.CycleOfDisciplined | src/main/java/com/example/harness/HarnessApplication.java:50-56 | a cycle started after the build's removal builds fresh, launches at most once, and saw DOWN when it returned results |
| VariantRunner.RunsNoStaleBuild | src/main/java/com/example/harness/HarnessApplication.java:50-56 | with such cycles no build of the runner runs over stale output |
| VariantRunner.RunsSeparated | src/main/java/com/example/harness/HarnessApplication.java:45-57 | with such cycles no two services run at once, and every launched service was seen DOWN when no cycle failed |
| VariantRunner.RunnerDiscipline | src/main/java/com/example/harness/HarnessApplication.java:45-57 | the application's runner deletes the build before every test, never runs two services at once, and saw every service DOWN when no cycle failed |
| VariantRunner.RunsStops | src/main/java/com/example/harness/HarnessApplication.java:45-57 | after a failed variant no later variant runs |
| VariantRunner.RunsNext | src/main/java/com/example/harness/HarnessApplication.java:45-57 | each iteration after a successful prefix runs the next variant |
| VariantRunner.RunnerResults | src/main/java/com/example/harness/HarnessApplication.java:44-57 | without failure the map holds exactly the two variants, each bound to its own cycle's results; with one, the failing variant is absent and its cycle failed |
| VariantRunner.RunVariant | src/main/java/com/example/harness/HarnessApplication.java:46-56 | one iteration removes the build, runs the variant's cycle with log `<logs>/<name>` and its flag, and stores its result under its name |
| VariantRunner.RunVariants | src/main/java/com/example/harness/HarnessApplication.java:44-57 | the loop follows `Runs` in the given order: trace, map, failure, logs, properties and build |

## Left out

- Process execution, the executor and `launch()`: the build's and each `ab` run's exit status and output are parameters. The launch is a recorded step, and the detached task's own failure (lines 153–159, 288–300) is not modelled.
- HTTP: each health or shutdown request is a parameter, either a status code or a thrown failure.
- Sleep timing: the 500 ms pause is recorded in each `Slept` step, not waited for.
- Waiting forever: the source's poll loops are unbounded. A finite sequence of answers with no match stands for still waiting, and the model reports it as the failures `NeverUp` and `NeverDown`, which the source never throws.
- The `Properties` file format, loading and storing: the property file is a map from keys to values.
- `Float.parseFloat` and float arithmetic: numbers are reals, parsing is the partial function `parse`, and rounding of `float` sums and quotients is not modelled.
- Stats.FloatSummary: `count` is an unbounded integer, so the 32-bit wrap-around of `int` after more than 2^31 samples is not modelled; ten runs produce far fewer.
- Stats.FloatSummary.Combine: `collect` never calls it on a sequential stream, so it appears only as a method with its contract.
- File I/O failures other than the old log that cannot be deleted (lines 165): reading and writing logs and properties is assumed to succeed, and `readAllLines` on a missing log cannot happen because `test` creates it first.
- Log content granularity: each `ab` run's output is a sequence of whole lines, and the line separator written at line 168 is read back as one empty line.
- `errors` and `output` (lines 118–121), which collect the build's and the service's output, are not modelled: nothing in the core reads them.
- Build output: after any build, successful or not, the `build` directory is taken to exist.
- The root-directory and logs-directory assertions (lines 76, 81–82, 116) and Spring wiring (lines 35–37, 62–70, 88–90): the harness is created over an emptied logs root.
- Map.of iteration order: the runner takes the order as a parameter, any listing of the two variants (`VariantRunner.IterationOrder`).
- Printing (lines 52, 58): the final map is returned beside the failure, if any, instead of printed. In the source a failure propagates out of the runner and the collected map is never printed.
- VariantRunner.Runs and its lemmas take the cycle and the variant flag as parameters. `RunnerDiscipline`, `RunVariant` and `RunVariants` instantiate them with the application's cycle and flag.
- Cycle.CycleSpec splits `test` into stages, `LaunchStage`, `BenchmarkStage` and `ShutdownStage`; `Orchestrator.Harness.Test` calls the matching phase methods in turn.
