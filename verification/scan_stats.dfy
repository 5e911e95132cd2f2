/**
 * The run summary: the records of all log files of one scan run, in the order they are
 * read, added up into totals and rates. The integer totals are exact; the rates are
 * exact rationals, before the rounding to one decimal the report applies.
 */
module ScanStats {
  import opened Results
  import opened Errors
  import opened LineRules
  import opened LogStats

  /** The integer fields of a log record that the summary adds up. */
  datatype Field = Visited | Sites | Links | LinksFailed | Restarts | SiteTimeouts | ExtTimeouts

  function Get(s: LogRecord, f: Field): nat {
    match f
    case Visited => s.visited
    case Sites => s.sites
    case Links => s.links
    case LinksFailed => s.linksFailed
    case Restarts => s.restarts
    case SiteTimeouts => s.timeoutsSite
    case ExtTimeouts => s.timeoutsExt
  }

  /** Python's `sum(i[f] for i in rs)`, added left to right: no record contributes more than the total. */
  function Sum(rs: seq<LogRecord>, f: Field): (n: nat)
    ensures forall i | 0 <= i < |rs| :: Get(rs[i], f) <= n
    decreases |rs|
  {
    if rs == [] then 0 else Sum(rs[..|rs| - 1], f) + Get(rs[|rs| - 1], f)
  }

  /** `sum(i['error_rate'] for i in rs)`. */
  function RateSum(rs: seq<LogRecord>): real
    decreases |rs|
  {
    if rs == [] then 0.0 else RateSum(rs[..|rs| - 1]) + rs[|rs| - 1].errorRate
  }

  /** `max(i['error_rate'] for i in rs)`: the largest error rate, which some record has. */
  function MaxRate(rs: seq<LogRecord>): (m: real)
    requires rs != []
    ensures forall i | 0 <= i < |rs| :: rs[i].errorRate <= m
    ensures exists i | 0 <= i < |rs| :: rs[i].errorRate == m
    decreases |rs|
  {
    if |rs| == 1 then rs[0].errorRate
    else
      var m := MaxRate(rs[..|rs| - 1]);
      var last := rs[|rs| - 1].errorRate;
      if last > m then last else m
  }

  /** What the summary relies on of a record: some site, no more visited than counted, a rate in [0, 100]. */
  predicate Bounded(s: LogRecord) {
    0 < s.sites && s.visited <= s.sites && 0.0 <= s.errorRate <= 100.0
  }

  lemma ValidBounded(s: LogRecord)
    requires Valid(s)
    ensures Bounded(s)
  {
  }

  predicate AllBounded(rs: seq<LogRecord>) {
    forall i | 0 <= i < |rs| :: Bounded(rs[i])
  }

  /** A total is zero exactly when every record contributes zero. */
  lemma {:induction false} SumZero(rs: seq<LogRecord>, f: Field)
    ensures Sum(rs, f) == 0 <==> forall i | 0 <= i < |rs| :: Get(rs[i], f) == 0
    decreases |rs|
  {
    if rs != [] {
      var n := |rs| - 1;
      SumZero(rs[..n], f);
      assert forall i | 0 <= i < n :: rs[..n][i] == rs[i];
    }
  }

  /** A field no larger than another in every record has a total no larger either. */
  lemma {:induction false} SumLe(rs: seq<LogRecord>, f: Field, g: Field)
    requires forall i | 0 <= i < |rs| :: Get(rs[i], f) <= Get(rs[i], g)
    ensures Sum(rs, f) <= Sum(rs, g)
    decreases |rs|
  {
    if rs != [] {
      var n := |rs| - 1;
      assert forall i | 0 <= i < n :: rs[..n][i] == rs[i];
      SumLe(rs[..n], f, g);
    }
  }

  /** Every parsed record counts at least one site, so the run counts at least one per log. */
  lemma {:induction false} SitesAtLeastLogs(rs: seq<LogRecord>)
    requires AllBounded(rs)
    ensures |rs| <= Sum(rs, Sites)
    decreases |rs|
  {
    if rs != [] {
      var n := |rs| - 1;
      assert forall i | 0 <= i < n :: rs[..n][i] == rs[i];
      SitesAtLeastLogs(rs[..n]);
    }
  }

  /** `n` copies of `m` added up. */
  function Times(n: nat, m: real): real
    decreases n
  {
    if n == 0 then 0.0 else Times(n - 1, m) + m
  }

  lemma {:induction false} TimesIsProduct(n: nat, m: real)
    ensures Times(n, m) == n as real * m
    decreases n
  {
    if n > 0 {
      TimesIsProduct(n - 1, m);
      assert (n - 1) as real * m + m == n as real * m;
    }
  }

  /** The sum of the error rates lies between none and `m` per log, for any bound `m` of them. */
  lemma {:induction false} RateSumBounds(rs: seq<LogRecord>, m: real)
    requires AllBounded(rs)
    requires forall i | 0 <= i < |rs| :: rs[i].errorRate <= m
    ensures 0.0 <= RateSum(rs) <= Times(|rs|, m)
    decreases |rs|
  {
    if rs != [] {
      var n := |rs| - 1;
      var pre := rs[..n];
      assert forall i | 0 <= i < n :: pre[i] == rs[i];
      RateSumBounds(pre, m);
    }
  }

  /** An average of values that are each between zero and `m` lies between zero and `m`. */
  lemma AverageBetween(total: real, n: nat, m: real)
    requires 0 < n && 0.0 <= total <= Times(n, m)
    ensures 0.0 <= total / n as real <= m
  {
    TimesIsProduct(n, m);
    var avg := total / n as real;
    assert avg * n as real == total;
  }

  /** The largest error rate is at most 100, since every rate is. */
  lemma MaxRateAtMost(rs: seq<LogRecord>)
    requires rs != [] && AllBounded(rs)
    ensures MaxRate(rs) <= 100.0
  {
    var i :| 0 <= i < |rs| && rs[i].errorRate == MaxRate(rs);
    assert Bounded(rs[i]);
  }

  /** The average error rate lies between zero and the largest one, which is at most 100. */
  lemma ErrorAverageBounds(rs: seq<LogRecord>)
    requires rs != [] && AllBounded(rs)
    ensures 0.0 <= RateSum(rs) / |rs| as real <= MaxRate(rs) <= 100.0
  {
    var m := MaxRate(rs);
    assert 0.0 <= RateSum(rs) / |rs| as real <= m by {
      RateSumBounds(rs, m);
      AverageBetween(RateSum(rs), |rs|, m);
    }
    MaxRateAtMost(rs);
  }

  /** The run summary: totals and rates over the records of all logs. */
  datatype RunSummary = RunSummary(
    sitesSuccess: nat,
    sitesTotal: nat,
    linksTotal: nat,
    linkClickRate: real,
    linkFailureRate: real,
    errorAvg: real,
    errorMax: real,
    restartsTotal: nat,
    timeoutRate: real,
    timeoutsExtTotal: nat)

  /**
   * The summary of a run, or the error that aborts it: no log at all; no site visited,
   * so the link click rate divides by zero; or no link clicked, so the link failure rate
   * divides by zero. The checks come in that order. The timeout rate never divides by
   * zero, since every record counts at least one site.
   */
  function Summarize(rs: seq<LogRecord>): (r: Result<RunSummary, Error>)
    requires AllBounded(rs)
    ensures rs == [] ==> r == Failure(EmptyRun)
    ensures rs != [] && (forall i | 0 <= i < |rs| :: rs[i].visited == 0) ==> r == Failure(NoSitesVisited)
    ensures (exists i | 0 <= i < |rs| :: rs[i].visited > 0) && (forall i | 0 <= i < |rs| :: rs[i].links == 0) ==>
      r == Failure(NoLinksClicked)
    ensures r.Success? <==>
      (exists i | 0 <= i < |rs| :: rs[i].visited > 0) && (exists i | 0 <= i < |rs| :: rs[i].links > 0)
  {
    SumZero(rs, Visited);
    SumZero(rs, Links);
    if rs == [] then Failure(EmptyRun)
    else
      var success := Sum(rs, Visited);
      var sites := Sum(rs, Sites);
      var links := Sum(rs, Links);
      if success == 0 then Failure(NoSitesVisited)
      else if links == 0 then Failure(NoLinksClicked)
      else
        SitesAtLeastLogs(rs);
        Success(RunSummary(
          sitesSuccess := success,
          sitesTotal := sites,
          linksTotal := links,
          linkClickRate := links as real / success as real * 100.0,
          linkFailureRate := (Sum(rs, LinksFailed) * 100) as real / links as real,
          errorAvg := RateSum(rs) / |rs| as real,
          errorMax := MaxRate(rs),
          restartsTotal := Sum(rs, Restarts),
          timeoutRate := (Sum(rs, SiteTimeouts) * 100) as real / sites as real,
          timeoutsExtTotal := Sum(rs, ExtTimeouts)))
  }

  /**
   * The bounds a successful summary keeps: no more sites succeed than are visited, every
   * log counts at least one site, the average error rate lies between zero and the largest
   * one, which is one of the logs' rates and at most 100, and the rates are not negative.
   */
  lemma SummarizeBounds(rs: seq<LogRecord>)
    requires AllBounded(rs) && Summarize(rs).Success?
    ensures var s := Summarize(rs).value;
      && s.sitesSuccess <= s.sitesTotal && |rs| <= s.sitesTotal
      && 0.0 <= s.errorAvg <= s.errorMax <= 100.0
      && (exists i | 0 <= i < |rs| :: rs[i].errorRate == s.errorMax)
      && 0.0 < s.linkClickRate && 0.0 <= s.linkFailureRate && 0.0 <= s.timeoutRate
  {
    SummarySites(rs);
    SummaryErrorRates(rs);
    SummaryRates(rs);
  }

  /**
   * The link failure rate divides by zero exactly when a site was visited and no link was
   * clicked; an empty run and a run without a visited site fail before it.
   */
  lemma SummarizeNoLinksClicked(rs: seq<LogRecord>)
    requires AllBounded(rs)
    ensures Summarize(rs) == Failure(NoLinksClicked) <==>
      (exists i | 0 <= i < |rs| :: rs[i].visited > 0) && (forall i | 0 <= i < |rs| :: rs[i].links == 0)
  {
  }

  /** The site totals of a summary: no more sites succeed than are counted, and each log counts one at least. */
  lemma SummarySites(rs: seq<LogRecord>)
    requires AllBounded(rs) && Summarize(rs).Success?
    ensures Summarize(rs).value.sitesSuccess <= Summarize(rs).value.sitesTotal
    ensures |rs| <= Summarize(rs).value.sitesTotal
  {
    SumLe(rs, Visited, Sites);
    SitesAtLeastLogs(rs);
  }

  /** The error rates of a summary: the average lies between zero and the largest, which is some log's rate and at most 100. */
  lemma SummaryErrorRates(rs: seq<LogRecord>)
    requires AllBounded(rs) && Summarize(rs).Success?
    ensures 0.0 <= Summarize(rs).value.errorAvg <= Summarize(rs).value.errorMax <= 100.0
    ensures exists i | 0 <= i < |rs| :: rs[i].errorRate == Summarize(rs).value.errorMax
  {
    ErrorAverageBounds(rs);
  }

  /** The percentages of a summary: the click rate is positive, and the failure and timeout rates are not negative. */
  lemma SummaryRates(rs: seq<LogRecord>)
    requires AllBounded(rs) && Summarize(rs).Success?
    ensures 0.0 < Summarize(rs).value.linkClickRate
    ensures 0.0 <= Summarize(rs).value.linkFailureRate && 0.0 <= Summarize(rs).value.timeoutRate
  {
    var s := Summarize(rs).value;
    var success, sites, links := Sum(rs, Visited), Sum(rs, Sites), Sum(rs, Links);
    assert 0 < success && 0 < links && 0 < sites by {
      SitesAtLeastLogs(rs);
    }
    assert s.linkClickRate == links as real / success as real * 100.0;
    assert s.linkFailureRate == (Sum(rs, LinksFailed) * 100) as real / links as real;
    assert s.timeoutRate == (Sum(rs, SiteTimeouts) * 100) as real / sites as real;
    RatioSign(links as real, success as real);
    RatioSign((Sum(rs, LinksFailed) * 100) as real, links as real);
    RatioSign((Sum(rs, SiteTimeouts) * 100) as real, sites as real);
  }

  /** A quotient of a non-negative number by a positive one is not negative, and positive when the number is. */
  lemma RatioSign(a: real, b: real)
    requires 0.0 <= a && 0.0 < b
    ensures 0.0 <= a / b
    ensures 0.0 < a ==> 0.0 < a / b
  {
  }

  /**
   * The records of the logs of a run, given the outcome of parsing each log in the order
   * they are read. The first log that cannot be parsed aborts the run with its error.
   */
  function Collect(ps: seq<Result<LogRecord, Error>>): (r: Result<seq<LogRecord>, Error>)
    ensures r.Success? <==> forall i | 0 <= i < |ps| :: ps[i].Success?
    ensures r.Success? ==> |r.value| == |ps| && forall i | 0 <= i < |ps| :: r.value[i] == ps[i].value
    decreases |ps|
  {
    if ps == [] then Success([])
    else
      var n := |ps| - 1;
      match Collect(ps[..n])
      case Failure(err) => Failure(err)
      case Success(rs) =>
        match ps[n]
        case Failure(err) => Failure(err)
        case Success(s) => Success(rs + [s])
  }

  /** Outcome `i` is the first failure. */
  predicate IsFirstFailure(ps: seq<Result<LogRecord, Error>>, i: int) {
    && 0 <= i < |ps| && ps[i].Failure?
    && forall j | 0 <= j < i :: ps[j].Success?
  }

  /** The run fails with the error of its first unparseable log. */
  lemma {:induction false} CollectFirstFailure(ps: seq<Result<LogRecord, Error>>, i: int)
    requires IsFirstFailure(ps, i)
    ensures Collect(ps) == Failure(ps[i].error)
    decreases |ps|
  {
    var n := |ps| - 1;
    if i < n {
      assert IsFirstFailure(ps[..n], i);
      CollectFirstFailure(ps[..n], i);
    } else {
      assert forall j | 0 <= j < n :: ps[..n][j] == ps[j];
    }
  }

  /** The outcome of parsing each log of a run. */
  function Parses(logs: seq<seq<string>>): (ps: seq<Result<LogRecord, Error>>)
    ensures |ps| == |logs|
    ensures forall i | 0 <= i < |logs| :: ps[i].Success? ==> Bounded(ps[i].value)
  {
    seq(|logs|, i requires 0 <= i < |logs| => ParseLog(logs[i]))
  }

  /** The whole report of a run: parse every log, then summarize the records. */
  function RunReport(logs: seq<seq<string>>): (r: Result<RunSummary, Error>)
    ensures logs == [] ==> r == Failure(EmptyRun)
    ensures r.Success? ==> forall i | 0 <= i < |logs| :: Parses(logs)[i].Success?
  {
    match Collect(Parses(logs))
    case Failure(err) => Failure(err)
    case Success(rs) => Summarize(rs)
  }

  /** The first log of a run that cannot be parsed aborts the report with its own error. */
  lemma RunReportFirstFailure(logs: seq<seq<string>>, i: int)
    requires 0 <= i < |logs| && ParseLog(logs[i]).Failure?
    requires forall j | 0 <= j < i :: ParseLog(logs[j]).Success?
    ensures RunReport(logs) == Failure(ParseLog(logs[i]).error)
  {
    var ps := Parses(logs);
    assert IsFirstFailure(ps, i);
    CollectFirstFailure(ps, i);
  }

  /** The number of lines of kind `k` over all logs of a run. */
  function LineTotal(logs: seq<seq<string>>, k: LineKind): nat
    decreases |logs|
  {
    if logs == [] then 0 else LineTotal(logs[..|logs| - 1], k) + LinesOf(logs[|logs| - 1], k)
  }

  /** A total of the records is the total of the corresponding lines in the logs. */
  lemma {:induction false} SumOfLines(logs: seq<seq<string>>, rs: seq<LogRecord>, f: Field, k: LineKind)
    requires |rs| == |logs|
    requires forall i | 0 <= i < |logs| :: Get(rs[i], f) == LinesOf(logs[i], k)
    ensures Sum(rs, f) == LineTotal(logs, k)
    decreases |logs|
  {
    if logs != [] {
      var n := |logs| - 1;
      assert forall i | 0 <= i < n :: rs[..n][i] == rs[i] && logs[..n][i] == logs[i];
      SumOfLines(logs[..n], rs[..n], f, k);
    }
  }

  /** The counters of a record parsed from a log are the numbers of the log's lines of each kind. */
  lemma ParsedCounts(lines: seq<string>, r: LogRecord)
    requires ParseLog(lines) == Success(r)
    ensures Get(r, Links) == LinesOf(lines, LinkClick)
    ensures Get(r, Restarts) == LinesOf(lines, Restart)
    ensures Get(r, ExtTimeouts) == LinesOf(lines, ExtensionTimeout)
  {
    assert Get(r, Links) == r.links && Get(r, Restarts) == r.restarts && Get(r, ExtTimeouts) == r.timeoutsExt;
    assert r.links == LinesOf(lines, LinkClick) && r.restarts == LinesOf(lines, Restart)
      && r.timeoutsExt == LinesOf(lines, ExtensionTimeout) by {
      ParseLogCounts(lines);
    }
  }

  /** The counters of each collected record are the numbers of its log's lines of each kind. */
  lemma RecordCounts(logs: seq<seq<string>>, i: int)
    requires 0 <= i < |logs| && forall j | 0 <= j < |logs| :: ParseLog(logs[j]).Success?
    ensures Collect(Parses(logs)).Success?
    ensures var r := Collect(Parses(logs)).value[i];
      && Get(r, Links) == LinesOf(logs[i], LinkClick)
      && Get(r, Restarts) == LinesOf(logs[i], Restart)
      && Get(r, ExtTimeouts) == LinesOf(logs[i], ExtensionTimeout)
  {
    var ps := Parses(logs);
    assert forall j | 0 <= j < |logs| :: ps[j] == ParseLog(logs[j]);
    var r := Collect(ps).value[i];
    assert ParseLog(logs[i]) == Success(r) by {
      assert ps[i].Success? && r == ps[i].value;
    }
    ParsedCounts(logs[i], r);
  }

  /**
   * The run totals count lines across all logs: links clicked, browser restarts and
   * extension page timeouts are the numbers of such lines in the whole run.
   */
  lemma RunReportTotals(logs: seq<seq<string>>)
    ensures RunReport(logs).Success? ==>
      && RunReport(logs).value.linksTotal == LineTotal(logs, LinkClick)
      && RunReport(logs).value.restartsTotal == LineTotal(logs, Restart)
      && RunReport(logs).value.timeoutsExtTotal == LineTotal(logs, ExtensionTimeout)
  {
    if RunReport(logs).Failure? {
      return;
    }
    var rs := Collect(Parses(logs)).value;
    assert forall j | 0 <= j < |logs| :: Parses(logs)[j] == ParseLog(logs[j]);
    forall i | 0 <= i < |logs|
      ensures Get(rs[i], Links) == LinesOf(logs[i], LinkClick)
      ensures Get(rs[i], Restarts) == LinesOf(logs[i], Restart)
      ensures Get(rs[i], ExtTimeouts) == LinesOf(logs[i], ExtensionTimeout)
    {
      RecordCounts(logs, i);
    }
    SumOfLines(logs, rs, Links, LinkClick);
    SumOfLines(logs, rs, Restarts, Restart);
    SumOfLines(logs, rs, ExtTimeouts, ExtensionTimeout);
  }
}
