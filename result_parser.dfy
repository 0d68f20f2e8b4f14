/**
 * `analyzeApacheBenchResults`: the lines of the load generator's log are
 * filtered by fixed labels, one filter per metric; from every selected line
 * the pipeline `split(":")[1].trim().split(" ")[0].strip()` takes a token,
 * the token is parsed as a number, and each metric's samples are averaged.
 * Number parsing is the abstract partial function `parse`.
 */
module ResultParser {
  import opened Wrappers
  import opened JavaText
  import Stats

  datatype Metric = TotalDuration | Latency | Throughput

  const TimeTakenLabel := "Time taken for tests"
  const TimePerRequestLabel := "Time per request"
  const AcrossAllLabel := "across all concurrent requests"
  const RequestsPerSecondLabel := "Requests per second"

  /** The filter of metric `m`'s stream. */
  predicate Selects(m: Metric, line: string) {
    match m
    case TotalDuration => Contains(line, TimeTakenLabel)
    case Latency => Contains(line, TimePerRequestLabel) && Contains(line, AcrossAllLabel)
    case Throughput => Contains(line, RequestsPerSecondLabel)
  }

  /** Metric `m`'s filter as a function value. */
  function Selector(m: Metric): (keep: string -> bool)
  {
    line => Selects(m, line)
  }

  /**
   * The lines `keep` accepts, in log order: a stream's `filter`. Every line
   * it accepts is kept, as often as it occurs, and no other line.
   */
  function Selected(lines: seq<string>, keep: string -> bool): (r: seq<string>)
    ensures |r| <= |lines|
    ensures forall k :: 0 <= k < |r| ==> keep(r[k]) && r[k] in lines
  {
    if lines == [] then []
    else if keep(lines[0]) then [lines[0]] + Selected(lines[1..], keep)
    else Selected(lines[1..], keep)
  }

  /** Every line the filter accepts is kept. */
  lemma {:induction false} SelectedComplete(lines: seq<string>, keep: string -> bool)
    ensures forall i :: 0 <= i < |lines| && keep(lines[i]) ==> lines[i] in Selected(lines, keep)
    decreases |lines|
  {
    if lines != [] {
      SelectedComplete(lines[1..], keep);
      forall i | 1 <= i < |lines| && keep(lines[i])
        ensures lines[i] in Selected(lines, keep)
      {
        assert lines[i] == lines[1..][i - 1];
      }
    }
  }

  /** No line is kept more often than it occurs in the log. */
  lemma {:induction false} SelectedSubMultiset(lines: seq<string>, keep: string -> bool)
    ensures multiset(Selected(lines, keep)) <= multiset(lines)
    decreases |lines|
  {
    if lines != [] {
      SelectedSubMultiset(lines[1..], keep);
      assert lines == [lines[0]] + lines[1..];
    }
  }

  /** A log whose every line passes the filter is kept whole. */
  lemma {:induction false} SelectedAll(lines: seq<string>, keep: string -> bool)
    requires forall i :: 0 <= i < |lines| ==> keep(lines[i])
    ensures Selected(lines, keep) == lines
    decreases |lines|
  {
    if lines != [] {
      SelectedAll(lines[1..], keep);
      assert lines == [lines[0]] + lines[1..];
    }
  }

  /** Filtering two logs one after the other keeps the first's lines, then the second's. */
  lemma {:induction false} SelectedAppend(a: seq<string>, b: seq<string>, keep: string -> bool)
    ensures Selected(a + b, keep) == Selected(a, keep) + Selected(b, keep)
    decreases |a|
  {
    if a == [] {
      assert a + b == b;
    } else {
      assert (a + b)[0] == a[0] && (a + b)[1..] == a[1..] + b;
      SelectedAppend(a[1..], b, keep);
      if keep(a[0]) {
        assert [a[0]] + (Selected(a[1..], keep) + Selected(b, keep))
            == ([a[0]] + Selected(a[1..], keep)) + Selected(b, keep);
      }
    }
  }

  /** A single line is kept exactly when it passes the filter. */
  lemma SelectedOne(line: string, keep: string -> bool)
    ensures Selected([line], keep) == if keep(line) then [line] else []
  {
    assert [line][1..] == [];
  }

  /**
   * The token the source's `map` steps extract from a line; `None` where they
   * index past the end of a `split` result and throw.
   */
  function Token(line: string): Option<string>
  {
    var fields := Split(line, ':');
    if |fields| < 2 then None
    else
      var words := Split(Trim(fields[1]), ' ');
      if words == [] then None else Some(Strip(words[0]))
  }

  /** The text between the first and the second ':' of `line` (or its end). */
  function Segment(line: string): string
    requires ':' in line
  {
    UpTo(line[IndexOf(line, ':') + 1..], ':')
  }

  /** Trailing empty strings are all that `DropTrailingEmpty` removes. */
  lemma DropTrailingEmptyLength(ps: seq<string>, n: nat)
    ensures |DropTrailingEmpty(ps)| > n <==> exists k :: n <= k < |ps| && ps[k] != []
  {
    var r := DropTrailingEmpty(ps);
    if |r| > n {
      assert ps[|r| - 1] == r[|r| - 1] != [];
    }
  }

  /** The second field of `split(":")` exists exactly when something other than ':' follows the first ':'. */
  lemma SecondFieldIsSegment(line: string)
    requires ':' in line
    ensures |Split(line, ':')| >= 2 <==> exists j :: IndexOf(line, ':') < j < |line| && line[j] != ':'
    ensures |Split(line, ':')| >= 2 ==> Split(line, ':')[1] == Segment(line)
  {
    var i := IndexOf(line, ':');
    var rest := line[i + 1..];
    var ps := Pieces(line, ':');
    PiecesAtFirst(line, ':');
    DropTrailingEmptyLength(ps, 1);
    PiecesNonEmpty(rest, ':');
    LaterPieceNonEmpty(line[..i], Pieces(rest, ':'));
    CharAfter(line, i, rest);
    var fields := Split(line, ':');
    if |fields| >= 2 {
      PiecesFirst(rest, ':');
      assert fields == DropTrailingEmpty(ps) <= ps;
      assert fields[1] == ps[1] == Pieces(rest, ':')[0];
    }
  }

  lemma LaterPieceNonEmpty(first: string, tail: seq<string>)
    ensures (exists k :: 1 <= k < |[first] + tail| && ([first] + tail)[k] != [])
        <==> (exists k :: 0 <= k < |tail| && tail[k] != [])
  {
    var ps := [first] + tail;
    if exists k :: 1 <= k < |ps| && ps[k] != [] {
      var k :| 1 <= k < |ps| && ps[k] != [];
      assert tail[k - 1] == ps[k];
    }
    if exists k :: 0 <= k < |tail| && tail[k] != [] {
      var k :| 0 <= k < |tail| && tail[k] != [];
      assert ps[k + 1] == tail[k];
    }
  }

  lemma CharAfter(line: string, i: nat, rest: string)
    requires i < |line| && rest == line[i + 1..]
    ensures (exists j :: 0 <= j < |rest| && rest[j] != ':')
        <==> (exists j :: i < j < |line| && line[j] != ':')
  {
    if exists j :: 0 <= j < |rest| && rest[j] != ':' {
      var j :| 0 <= j < |rest| && rest[j] != ':';
      assert line[i + 1 + j] == rest[j];
    }
    if exists j :: i < j < |line| && line[j] != ':' {
      var j :| i < j < |line| && line[j] != ':';
      assert rest[j - i - 1] == line[j];
    }
  }

  /** The first field of `split(" ")` on a trimmed string always exists and is its first word. */
  lemma FirstWordOfTrimmed(t: string)
    requires t == [] || !IsTrimmable(t[0])
    ensures Split(t, ' ') != [] && Split(t, ' ')[0] == UpTo(t, ' ')
  {
    if ' ' in t {
      PiecesFirst(t, ' ');
      assert Pieces(t, ' ')[0] == UpTo(t, ' ') != [];
    }
  }

  /**
   * A line has a token exactly when some character other than ':' follows
   * its first ':', and the token is then the first ' '-delimited word of
   * the trimmed segment between the first and second ':', stripped.
   */
  lemma TokenIsFirstWordOfSegment(line: string)
    ensures Token(line).Some? <==>
      ':' in line && exists j :: IndexOf(line, ':') < j < |line| && line[j] != ':'
    ensures Token(line).Some? ==> Token(line).value == Strip(UpTo(Trim(Segment(line)), ' '))
  {
    if ':' in line {
      SecondFieldIsSegment(line);
      if |Split(line, ':')| >= 2 {
        FirstWordOfTrimmed(Trim(Segment(line)));
      }
    }
  }

  /** Why a selected line could not be turned into a sample. */
  datatype SampleError = MissingToken(line: string) | NotANumber(token: string)

  /** The sample a selected line yields: its token, parsed. */
  function ReadSample(line: string, parse: string -> Option<real>): (r: Result<real, SampleError>)
  {
    match Token(line)
    case None => Err(MissingToken(line))
    case Some(token) =>
      match parse(token)
      case None => Err(NotANumber(token))
      case Some(v) => Ok(v)
  }

  /** `ReadSample` with a fixed parser, as a function value. */
  function Reader(parse: string -> Option<real>): (read: string -> Result<real, SampleError>)
  {
    line => ReadSample(line, parse)
  }

  /**
   * A stream `lines.filter(keep).map(read)` consumed in log order: the first
   * kept line that yields no number ends it with that line's error, as the
   * exception does.
   */
  function Samples(lines: seq<string>, keep: string -> bool, read: string -> Result<real, SampleError>)
    : Result<seq<real>, SampleError>
  {
    if lines == [] then Ok([])
    else if !keep(lines[0]) then Samples(lines[1..], keep, read)
    else
      var v :- read(lines[0]);
      var rest :- Samples(lines[1..], keep, read);
      Ok([v] + rest)
  }

  /** Every line of `sel` yields a sample. */
  predicate AllReadable(sel: seq<string>, read: string -> Result<real, SampleError>) {
    forall k :: 0 <= k < |sel| ==> read(sel[k]).Ok?
  }

  /**
   * The samples exist exactly when every kept line is readable, and are then
   * one value per kept line, in log order.
   */
  lemma {:induction false} SamplesOk(lines: seq<string>, keep: string -> bool, read: string -> Result<real, SampleError>)
    ensures Samples(lines, keep, read).Ok? <==> AllReadable(Selected(lines, keep), read)
    ensures Samples(lines, keep, read).Ok? ==>
      && |Samples(lines, keep, read).value| == |Selected(lines, keep)|
      && forall k :: 0 <= k < |Selected(lines, keep)| ==>
           Samples(lines, keep, read).value[k] == read(Selected(lines, keep)[k]).value
  {
    if lines != [] {
      SamplesOk(lines[1..], keep, read);
      var sel, sel' := Selected(lines, keep), Selected(lines[1..], keep);
      if keep(lines[0]) {
        assert sel == [lines[0]] + sel';
        assert Samples(lines, keep, read).Ok? <==> read(lines[0]).Ok? && Samples(lines[1..], keep, read).Ok?;
        if read(lines[0]).Ok? && Samples(lines[1..], keep, read).Ok? {
          var vs, vs' := Samples(lines, keep, read).value, Samples(lines[1..], keep, read).value;
          assert vs == [read(lines[0]).value] + vs';
          forall k | 0 <= k < |sel| ensures read(sel[k]).Ok? && vs[k] == read(sel[k]).value {
            if k > 0 {
              assert vs[k] == vs'[k - 1] && sel[k] == sel'[k - 1];
            }
          }
        } else if read(lines[0]).Err? {
          assert read(sel[0]).Err?;
        } else {
          var k :| 0 <= k < |sel'| && read(sel'[k]).Err?;
          assert read(sel[k + 1]).Err?;
        }
      } else {
        assert sel == sel';
        assert Samples(lines, keep, read) == Samples(lines[1..], keep, read);
      }
    }
  }

  /** A failed stream reports the error of the first kept line that yields no number. */
  lemma {:induction false} SamplesFirstError(lines: seq<string>, keep: string -> bool, read: string -> Result<real, SampleError>)
    requires Samples(lines, keep, read).Err?
    ensures exists k ::
              && 0 <= k < |Selected(lines, keep)| && read(Selected(lines, keep)[k]).Err?
              && (forall j :: 0 <= j < k ==> read(Selected(lines, keep)[j]).Ok?)
              && Samples(lines, keep, read).error == read(Selected(lines, keep)[k]).error
  {
    var sel, sel' := Selected(lines, keep), Selected(lines[1..], keep);
    if !keep(lines[0]) {
      assert Samples(lines, keep, read) == Samples(lines[1..], keep, read);
      SamplesFirstError(lines[1..], keep, read);
      assert sel == sel';
      var k :| 0 <= k < |sel'| && read(sel'[k]).Err?
        && (forall j :: 0 <= j < k ==> read(sel'[j]).Ok?)
        && Samples(lines[1..], keep, read).error == read(sel'[k]).error;
      assert read(sel[k]).Err?;
    } else if read(lines[0]).Err? {
      assert sel[0] == lines[0];
    } else {
      SamplesFirstError(lines[1..], keep, read);
      assert sel == [lines[0]] + sel';
      var k :| 0 <= k < |sel'| && read(sel'[k]).Err?
        && (forall j :: 0 <= j < k ==> read(sel'[j]).Ok?)
        && Samples(lines[1..], keep, read).error == read(sel'[k]).error;
      FirstErrorShifted(lines[0], sel', read, k);
      assert read(sel[k + 1]).Err? && read(sel[k + 1]).error == read(sel'[k]).error;
    }
  }

  /** A readable line in front moves the first unreadable line one place on. */
  lemma FirstErrorShifted(first: string, rest: seq<string>, read: string -> Result<real, SampleError>, k: nat)
    requires read(first).Ok? && k < |rest|
    requires forall j :: 0 <= j < k ==> read(rest[j]).Ok?
    ensures ([first] + rest)[k + 1] == rest[k]
    ensures forall j :: 0 <= j < k + 1 ==> read(([first] + rest)[j]).Ok?
  {
    forall j | 0 <= j < k + 1
      ensures read(([first] + rest)[j]).Ok?
    {
      if j > 0 {
        assert ([first] + rest)[j] == rest[j - 1];
      }
    }
  }

  /** A stream's samples depend only on the lines it keeps. */
  lemma {:induction false} SamplesOfSelected(lines: seq<string>, keep: string -> bool, read: string -> Result<real, SampleError>)
    ensures Samples(lines, keep, read) == Samples(Selected(lines, keep), keep, read)
  {
    if lines != [] {
      SamplesOfSelected(lines[1..], keep, read);
      if keep(lines[0]) {
        var sel := Selected(lines, keep);
        assert sel[1..] == Selected(lines[1..], keep);
      }
    }
  }

  /**
   * Scanning two logs one after the other: the samples of the concatenation
   * are those of the first followed by those of the second, and an error in
   * the first is the error of the whole.
   */
  lemma {:induction false} SamplesAppend(a: seq<string>, b: seq<string>, keep: string -> bool,
                                         read: string -> Result<real, SampleError>)
    ensures Samples(a, keep, read).Err? ==> Samples(a + b, keep, read) == Samples(a, keep, read)
    ensures Samples(a, keep, read).Ok? && Samples(b, keep, read).Err? ==>
      Samples(a + b, keep, read) == Samples(b, keep, read)
    ensures Samples(a, keep, read).Ok? && Samples(b, keep, read).Ok? ==>
      Samples(a + b, keep, read) == Ok(Samples(a, keep, read).value + Samples(b, keep, read).value)
  {
    if a == [] {
      assert a + b == b;
      if Samples(b, keep, read).Ok? {
        assert [] + Samples(b, keep, read).value == Samples(b, keep, read).value;
      }
    } else {
      var ab := a + b;
      assert ab[1..] == a[1..] + b;
      assert ab[0] == a[0];
      SamplesAppend(a[1..], b, keep, read);
      if keep(a[0]) && read(a[0]).Ok? && Samples(a[1..], keep, read).Ok? && Samples(b, keep, read).Ok? {
        var v := read(a[0]).value;
        var xa, xb := Samples(a[1..], keep, read).value, Samples(b, keep, read).value;
        assert [v] + (xa + xb) == ([v] + xa) + xb;
      }
    }
  }

  /** The three means `analyzeApacheBenchResults` reports. */
  datatype AnalysisResults = AnalysisResults(
    allTestsRunAverage: real, timePerRequestAverage: real, requestsPerSecondAverage: real)

  /** Why the analysis failed: a metric's stream broke, or it had no samples. */
  datatype AnalysisError = Unreadable(metric: Metric, cause: SampleError) | NoSamples(metric: Metric)

  /** `findMean` applied to metric `m`'s stream. */
  function MetricMean(lines: seq<string>, m: Metric, parse: string -> Option<real>): (r: Result<real, AnalysisError>)
  {
    match Samples(lines, Selector(m), Reader(parse))
    case Err(e) => Err(Unreadable(m, e))
    case Ok(xs) => if xs == [] then Err(NoSamples(m)) else Ok(Stats.Mean(xs).value)
  }

  /**
   * `analyzeApacheBenchResults` on the lines of a log: the means are taken in
   * the order the record's arguments are evaluated, so the first failing
   * metric (duration, then latency, then throughput) is the one reported.
   */
  function Analyze(lines: seq<string>, parse: string -> Option<real>): Result<AnalysisResults, AnalysisError>
  {
    var duration :- MetricMean(lines, TotalDuration, parse);
    var latency :- MetricMean(lines, Latency, parse);
    var throughput :- MetricMean(lines, Throughput, parse);
    Ok(AnalysisResults(duration, latency, throughput))
  }

  /**
   * The analysis succeeds exactly when every metric has samples and all its
   * selected lines are readable; each reported figure is the mean of its
   * metric's samples.
   */
  lemma AnalyzeSpec(lines: seq<string>, parse: string -> Option<real>)
    ensures Analyze(lines, parse).Ok? <==>
      forall m: Metric :: Samples(lines, Selector(m), Reader(parse)).Ok? && Samples(lines, Selector(m), Reader(parse)).value != []
    ensures Analyze(lines, parse).Ok? ==>
      var a := Analyze(lines, parse).value;
      && Some(a.allTestsRunAverage) == Stats.Mean(Samples(lines, Selector(TotalDuration), Reader(parse)).value)
      && Some(a.timePerRequestAverage) == Stats.Mean(Samples(lines, Selector(Latency), Reader(parse)).value)
      && Some(a.requestsPerSecondAverage) == Stats.Mean(Samples(lines, Selector(Throughput), Reader(parse)).value)
  {
    var d, l, t := MetricMean(lines, TotalDuration, parse), MetricMean(lines, Latency, parse),
      MetricMean(lines, Throughput, parse);
    assert Analyze(lines, parse).Ok? <==> d.Ok? && l.Ok? && t.Ok?;
    if d.Ok? && l.Ok? && t.Ok? {
      forall m: Metric ensures Samples(lines, Selector(m), Reader(parse)).Ok? && Samples(lines, Selector(m), Reader(parse)).value != [] {
        match m
        case TotalDuration => assert MetricMean(lines, m, parse) == d;
        case Latency => assert MetricMean(lines, m, parse) == l;
        case Throughput => assert MetricMean(lines, m, parse) == t;
      }
    } else {
      var m: Metric := if d.Err? then TotalDuration else if l.Err? then Latency else Throughput;
      assert MetricMean(lines, m, parse).Err?;
      assert !(Samples(lines, Selector(m), Reader(parse)).Ok? && Samples(lines, Selector(m), Reader(parse)).value != []);
    }
  }

  /** The metrics in the order `analyzeApacheBenchResults` passes them to the record. */
  const MetricOrder: seq<Metric> := [TotalDuration, Latency, Throughput]

  /**
   * The analysis fails exactly when some metric's mean fails, and then it
   * reports the error of the first metric in argument order whose mean fails.
   */
  lemma AnalyzeError(lines: seq<string>, parse: string -> Option<real>)
    ensures Analyze(lines, parse).Err? <==> exists i :: 0 <= i < |MetricOrder| && MetricMean(lines, MetricOrder[i], parse).Err?
    ensures Analyze(lines, parse).Err? ==>
      exists i :: 0 <= i < |MetricOrder| && MetricMean(lines, MetricOrder[i], parse).Err?
        && Analyze(lines, parse).error == MetricMean(lines, MetricOrder[i], parse).error
        && forall j :: 0 <= j < i ==> MetricMean(lines, MetricOrder[j], parse).Ok?
  {
    var d, l, t := MetricMean(lines, TotalDuration, parse), MetricMean(lines, Latency, parse),
      MetricMean(lines, Throughput, parse);
    assert MetricOrder[0] == TotalDuration && MetricOrder[1] == Latency && MetricOrder[2] == Throughput;
    if d.Err? {
      assert Analyze(lines, parse) == Err(d.error);
    } else if l.Err? {
      assert Analyze(lines, parse) == Err(l.error);
    } else if t.Err? {
      assert Analyze(lines, parse) == Err(t.error);
    } else {
      assert Analyze(lines, parse).Ok?;
      forall i | 0 <= i < |MetricOrder|
        ensures MetricMean(lines, MetricOrder[i], parse).Ok?
      {
      }
    }
  }

  /**
   * When every run writes the same report, the analysis of `n > 0` runs'
   * concatenated output (after the log's leading blank line) is the analysis
   * of one run: averaging identical runs changes nothing.
   */
  lemma AnalyzeIdenticalRuns(run: seq<string>, n: nat, parse: string -> Option<real>)
    requires n > 0
    requires Analyze(run, parse).Ok?
    ensures Analyze([""] + Stats.Repeat(run, n), parse) == Analyze(run, parse)
  {
    AnalyzeSpec(run, parse);
    forall m: Metric
      ensures Samples([""] + Stats.Repeat(run, n), Selector(m), Reader(parse)) == Ok(Stats.Repeat(Samples(run, Selector(m), Reader(parse)).value, n))
      ensures Stats.Mean(Stats.Repeat(Samples(run, Selector(m), Reader(parse)).value, n)) == Stats.Mean(Samples(run, Selector(m), Reader(parse)).value)
    {
      SamplesOfRepeat(run, n, Selector(m), Reader(parse));
      assert !Selects(m, "");
      SamplesAppend([""], Stats.Repeat(run, n), Selector(m), Reader(parse));
      Stats.MeanRepeat(Samples(run, Selector(m), Reader(parse)).value, n);
    }
    AnalyzeSpec([""] + Stats.Repeat(run, n), parse);
  }

  lemma {:induction false} SamplesOfRepeat(run: seq<string>, n: nat, keep: string -> bool, read: string -> Result<real, SampleError>)
    requires Samples(run, keep, read).Ok?
    ensures Samples(Stats.Repeat(run, n), keep, read) == Ok(Stats.Repeat(Samples(run, keep, read).value, n))
  {
    if n > 0 {
      SamplesOfRepeat(run, n - 1, keep, read);
      SamplesAppend(Stats.Repeat(run, n - 1), run, keep, read);
    }
  }
}
