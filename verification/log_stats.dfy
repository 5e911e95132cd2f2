/**
 * One log file read top to bottom: every line is classified by the rule chain, counters
 * are bumped, and the start and end of the scan are remembered. The outcome is one
 * record of statistics, or the error that aborts the parse.
 */
module LogStats {
  import opened Results
  import opened Errors
  import opened LineRules
  import SiteCounts

  /** A log timestamp, kept as the text it was read from. */
  type Timestamp = string

  /** Width of the `YYYY-MM-DD HH:MM:SS,mmm` prefix that starts every log line. */
  const StampWidth := 23

  /** The timestamp prefix of a line: its first 23 characters, or all of a shorter line. */
  function StampOf(line: string): (t: Timestamp)
    ensures |t| == if |line| < StampWidth then |line| else StampWidth
    ensures t <= line
  {
    if |line| <= StampWidth then line else line[..StampWidth]
  }

  /** The five event counters of a log file. */
  datatype Counters = Counters(
    links: nat,
    linksFailed: nat,
    extTimeouts: nat,
    siteTimeouts: nat,
    restarts: nat)

  const NoCounts := Counters(0, 0, 0, 0, 0)

  function Total(c: Counters): nat {
    c.links + c.linksFailed + c.extTimeouts + c.siteTimeouts + c.restarts
  }

  /** The kinds of line that bump a counter. */
  predicate IsCounted(k: LineKind) {
    k.LinkClick? || k.LinkFailure? || k.ExtensionTimeout? || k.SiteTimeout? || k.Restart?
  }

  type CountedKind = k: LineKind | IsCounted(k) witness LinkClick

  /** One line's effect on the counters: the counter of its kind goes up by one. */
  function Bump(c: Counters, k: LineKind): (c': Counters)
    ensures Total(c') == Total(c) + (if IsCounted(k) then 1 else 0)
    ensures c'.links >= c.links && c'.linksFailed >= c.linksFailed && c'.extTimeouts >= c.extTimeouts
    ensures c'.siteTimeouts >= c.siteTimeouts && c'.restarts >= c.restarts
  {
    match k
    case LinkClick => c.(links := c.links + 1)
    case LinkFailure => c.(linksFailed := c.linksFailed + 1)
    case ExtensionTimeout => c.(extTimeouts := c.extTimeouts + 1)
    case SiteTimeout => c.(siteTimeouts := c.siteTimeouts + 1)
    case Restart => c.(restarts := c.restarts + 1)
    case _ => c
  }

  /** What a "Finished scan" line reports: when, and how many sites were visited and errored. */
  datatype Finish = Finish(stamp: Timestamp, visited: nat, errored: nat)

  /** A finish that reports at least one site, so that its error rate is defined. */
  type SiteFinish = f: Finish | f.visited + f.errored > 0 witness Finish([], 1, 0)

  /**
   * Reading a "Finished scan" line. A line without the site-count fragment aborts the parse,
   * and so does one reporting no site at all, since its error rate divides by zero.
   */
  function ParseFinish(line: string): (r: Result<SiteFinish, Error>)
    ensures r.Success? ==> r.value.stamp == StampOf(line)
    ensures r.Failure? ==> r.error == MalformedFinish || r.error == ZeroSites
  {
    match SiteCounts.Search(line)
    case None => Failure(MalformedFinish)
    case Some(sc) =>
      if sc.visited + sc.errored == 0 then Failure(ZeroSites)
      else Success(Finish(StampOf(line), sc.visited, sc.errored))
  }

  /** A "Finished scan" line that carries the site counts as the crawler writes them. */
  lemma ParseFinishRendered(pre: string, sc: SiteCounts.SiteCount, post: string)
    requires 'V' !in pre
    requires post == [] || !Strings.IsDigit(post[0])
    ensures var line := pre + SiteCounts.Render(sc) + post;
      ParseFinish(line) ==
        if sc.visited + sc.errored == 0 then Failure(ZeroSites)
        else Success(Finish(StampOf(line), sc.visited, sc.errored))
  {
    SiteCounts.SearchReadsRendered(pre, sc, post);
  }

  /** A line the site-count pattern does not match is malformed. */
  lemma ParseFinishMalformed(line: string)
    requires forall j: nat | j <= |line| :: SiteCounts.MatchAt(line, j).None?
    ensures ParseFinish(line) == Failure(MalformedFinish)
  {
    SiteCounts.SearchLeftmost(line);
  }

  /**
   * A finish line is malformed exactly when the text from no index has the shape
   * "Visited N sites and errored on M" with the numbers read as maximal digit runs.
   */
  lemma ParseFinishMalformedIff(line: string)
    ensures ParseFinish(line) == Failure(MalformedFinish) <==>
      forall j: nat, d1, d2, post, sc | j <= |line| :: !SiteCounts.Shape(line[j..], d1, d2, post, sc)
  {
    SiteCounts.SearchLeftmost(line);
    if ParseFinish(line) == Failure(MalformedFinish) {
      forall j: nat, d1, d2, post, sc | j <= |line|
        ensures !SiteCounts.Shape(line[j..], d1, d2, post, sc)
      {
        if SiteCounts.Shape(line[j..], d1, d2, post, sc) {
          SiteCounts.ShapeMatches(line, j, d1, d2, post, sc);
        }
      }
    } else if forall j: nat, d1, d2, post, sc | j <= |line| :: !SiteCounts.Shape(line[j..], d1, d2, post, sc) {
      forall j: nat | j <= |line|
        ensures SiteCounts.MatchAt(line, j).None?
      {
        if SiteCounts.MatchAt(line, j).Some? {
          SiteCounts.MatchAtShape(line, j, SiteCounts.MatchAt(line, j).value);
        }
      }
      assert false;
    }
  }

  /** What one log line contributes to the scan, by the first rule it satisfies. */
  datatype Event =
    | Counted(kind: CountedKind)
    | Started(stamp: Timestamp)
    | Finished(reading: Result<SiteFinish, Error>)
    | Ignored

  /** The rule kind an event stems from. */
  function KindOf(e: Event): LineKind {
    match e
    case Counted(k) => k
    case Started(_) => CrawlStart
    case Finished(_) => ScanFinish
    case Ignored => Unmatched
  }

  /** The event of one line: its kind, and for start and finish lines what they carry. */
  function EventOf(line: string): (e: Event)
    ensures KindOf(e) == Classify(line)
    ensures e.Started? ==> e.stamp == StampOf(line)
    ensures e.Finished? ==> e.reading == ParseFinish(line)
  {
    match Classify(line)
    case CrawlStart => Started(StampOf(line))
    case ScanFinish => Finished(ParseFinish(line))
    case Unmatched => Ignored
    case k => Counted(k)
  }

  /**
   * A line that an earlier rule claims sets neither time: a start or finish marker only
   * takes effect on a line that holds none of the counted markers.
   */
  lemma EarlierRuleSetsNoTime(line: string)
    ensures EventOf(line).Started? <==>
      && Strings.Contains(line, StartMarker)
      && !Strings.Contains(line, ClickMarker) && !Strings.Contains(line, LinkFailMarker)
      && !Strings.Contains(line, TimeoutMarker) && !Strings.Contains(line, RestartMarker)
    ensures EventOf(line).Finished? <==>
      && Strings.Contains(line, FinishMarker) && !Strings.Contains(line, StartMarker)
      && !Strings.Contains(line, ClickMarker) && !Strings.Contains(line, LinkFailMarker)
      && !Strings.Contains(line, TimeoutMarker) && !Strings.Contains(line, RestartMarker)
  {
    ExtensionTimeoutShadowsSiteTimeout(line);
  }

  /** The events of the lines, in order. */
  function Events(lines: seq<string>): (es: seq<Event>)
    ensures |es| == |lines|
    ensures forall i | 0 <= i < |lines| :: es[i] == EventOf(lines[i])
  {
    seq(|lines|, i requires 0 <= i < |lines| => EventOf(lines[i]))
  }

  /** The scan so far: counters, and the last start and finish seen. */
  datatype ScanState = ScanState(counters: Counters, start: Option<Timestamp>, finish: Option<SiteFinish>)

  const Initial := ScanState(NoCounts, None, None)

  /** A "Finished scan" event whose reading failed. */
  predicate IsBad(e: Event) {
    e.Finished? && e.reading.Failure?
  }

  /**
   * One iteration of the parse loop. Only a start line sets the start, only a finish
   * line sets the finish, and only an unreadable finish line fails.
   */
  function Step(st: ScanState, e: Event): (r: Result<ScanState, Error>)
    ensures r.Failure? <==> IsBad(e)
    ensures r.Success? ==> r.value.counters == Bump(st.counters, KindOf(e))
    ensures r.Success? && !e.Started? ==> r.value.start == st.start
    ensures r.Success? && !e.Finished? ==> r.value.finish == st.finish
  {
    var counted := st.(counters := Bump(st.counters, KindOf(e)));
    match e
    case Started(t) => Success(counted.(start := Some(t)))
    case Finished(Failure(err)) => Failure(err)
    case Finished(Success(f)) => Success(counted.(finish := Some(f)))
    case _ => Success(counted)
  }

  /**
   * The parse loop over the events of a log, stopping at the first failure. The only error
   * it can end with is that of some unreadable finish line.
   */
  function Scan(es: seq<Event>): (r: Result<ScanState, Error>)
    ensures r.Failure? ==> exists i | 0 <= i < |es| :: IsBad(es[i]) && es[i].reading.error == r.error
    decreases |es|
  {
    if es == [] then Success(Initial)
    else
      var n := |es| - 1;
      match Scan(es[..n])
      case Failure(err) =>
        assert forall j | 0 <= j < n :: es[..n][j] == es[j];
        Failure(err)
      case Success(st) => Step(st, es[n])
  }

  /** The kinds of the events, in order. */
  function KindsOf(es: seq<Event>): (ks: seq<LineKind>)
    ensures |ks| == |es|
    ensures forall i | 0 <= i < |es| :: ks[i] == KindOf(es[i])
  {
    seq(|es|, i requires 0 <= i < |es| => KindOf(es[i]))
  }

  /** How many of the events stem from lines of kind `k`. */
  function CountOf(es: seq<Event>, k: LineKind): nat {
    multiset(KindsOf(es))[k]
  }

  /** The counters as they follow from counting lines of each kind. */
  function CountersOf(es: seq<Event>): Counters {
    Counters(
      CountOf(es, LinkClick),
      CountOf(es, LinkFailure),
      CountOf(es, ExtensionTimeout),
      CountOf(es, SiteTimeout),
      CountOf(es, Restart))
  }

  predicate HasKind(es: seq<Event>, k: LineKind) {
    exists i | 0 <= i < |es| :: KindOf(es[i]) == k
  }

  /** Event `i` is the last one of kind `k`. */
  predicate IsLast(es: seq<Event>, k: LineKind, i: int) {
    && 0 <= i < |es| && KindOf(es[i]) == k
    && forall j | i < j < |es| :: KindOf(es[j]) != k
  }

  /** Event `i` is the first unreadable finish. */
  predicate IsFirstBad(es: seq<Event>, i: int) {
    && 0 <= i < |es| && IsBad(es[i])
    && forall j | 0 <= j < i :: !IsBad(es[j])
  }

  predicate NoBad(es: seq<Event>) {
    forall i | 0 <= i < |es| :: !IsBad(es[i])
  }

  /** A log the parser accepts: a start line, a finish line, and every finish line readable. */
  predicate WellFormed(es: seq<Event>) {
    HasKind(es, CrawlStart) && HasKind(es, ScanFinish) && NoBad(es)
  }

  lemma CountOfSnoc(es: seq<Event>, k: LineKind)
    requires es != []
    ensures CountOf(es, k) == CountOf(es[..|es| - 1], k) + if KindOf(es[|es| - 1]) == k then 1 else 0
  {
    assert KindsOf(es) == KindsOf(es[..|es| - 1]) + [KindOf(es[|es| - 1])];
  }

  /** The counters the loop keeps are the numbers of lines of each counted kind. */
  lemma {:induction false} ScanCounts(es: seq<Event>)
    requires Scan(es).Success?
    ensures Scan(es).value.counters == CountersOf(es)
    decreases |es|
  {
    if es != [] {
      var pre := es[..|es| - 1];
      ScanCounts(pre);
      CountOfSnoc(es, LinkClick);
      CountOfSnoc(es, LinkFailure);
      CountOfSnoc(es, ExtensionTimeout);
      CountOfSnoc(es, SiteTimeout);
      CountOfSnoc(es, Restart);
    }
  }

  /** Every line is of exactly one kind, so the counted kinds and the rest add up to the line count. */
  lemma {:induction false} CountsPartition(es: seq<Event>)
    ensures Total(CountersOf(es)) + CountOf(es, CrawlStart) + CountOf(es, ScanFinish)
      + CountOf(es, Unmatched) == |es|
    decreases |es|
  {
    if es != [] {
      CountsPartition(es[..|es| - 1]);
      CountOfSnoc(es, LinkClick);
      CountOfSnoc(es, LinkFailure);
      CountOfSnoc(es, ExtensionTimeout);
      CountOfSnoc(es, SiteTimeout);
      CountOfSnoc(es, Restart);
      CountOfSnoc(es, CrawlStart);
      CountOfSnoc(es, ScanFinish);
      CountOfSnoc(es, Unmatched);
    }
  }

  lemma HasKindCount(es: seq<Event>, k: LineKind)
    ensures HasKind(es, k) <==> CountOf(es, k) > 0
  {
    if HasKind(es, k) {
      var i :| 0 <= i < |es| && KindOf(es[i]) == k;
      assert KindsOf(es)[i] == k;
    } else {
      assert k !in KindsOf(es);
    }
  }

  /** A failure among the first `i` events is the failure of the whole parse. */
  lemma {:induction false} ScanFailureSticks(es: seq<Event>, i: nat)
    requires i <= |es| && Scan(es[..i]).Failure?
    ensures Scan(es) == Scan(es[..i])
    decreases |es|
  {
    if i == |es| {
      assert es[..i] == es;
    } else {
      var pre := es[..|es| - 1];
      assert pre[..i] == es[..i];
      ScanFailureSticks(pre, i);
    }
  }

  lemma BadSnoc(es: seq<Event>)
    requires es != []
    ensures var n := |es| - 1;
      && (NoBad(es) <==> NoBad(es[..n]) && !IsBad(es[n]))
      && forall i :: IsFirstBad(es, i) <==> if i < n then IsFirstBad(es[..n], i) else i == n && NoBad(es[..n]) && IsBad(es[n])
  {
    var n := |es| - 1;
    assert forall i | 0 <= i < n :: es[..n][i] == es[i];
  }

  /**
   * The parse succeeds exactly when every finish line is readable; otherwise it fails
   * with the error of the first finish line that is not.
   */
  lemma {:induction false} ScanOutcome(es: seq<Event>)
    ensures Scan(es).Success? <==> NoBad(es)
    ensures forall i | IsFirstBad(es, i) :: Scan(es) == Failure(es[i].reading.error)
    decreases |es|
  {
    if es != [] {
      var n := |es| - 1;
      ScanOutcome(es[..n]);
      BadSnoc(es);
    }
  }

  /** How the kinds present, and the last event of a kind, change when an event is appended. */
  lemma LastOfSnoc(es: seq<Event>, k: LineKind)
    requires es != []
    ensures var n := |es| - 1;
      && (HasKind(es, k) <==> HasKind(es[..n], k) || KindOf(es[n]) == k)
      && forall i :: IsLast(es, k, i) <==> if KindOf(es[n]) == k then i == n else IsLast(es[..n], k, i)
  {
    var n := |es| - 1;
    assert forall i | 0 <= i < n :: es[..n][i] == es[i];
  }

  /** Some event of kind `k` is the last one of that kind. */
  lemma {:induction false} LastExists(es: seq<Event>, k: LineKind)
    requires HasKind(es, k)
    ensures exists i :: IsLast(es, k, i)
    decreases |es|
  {
    var n := |es| - 1;
    LastOfSnoc(es, k);
    if KindOf(es[n]) == k {
      assert IsLast(es, k, n);
    } else {
      LastExists(es[..n], k);
    }
  }

  /**
   * Last one wins, for the start: the start remembered is the timestamp of the last
   * "Starting new crawl" line, and there is none exactly when no such line occurs.
   */
  lemma {:induction false} ScanLastStart(es: seq<Event>)
    requires Scan(es).Success?
    ensures Scan(es).value.start.Some? <==> HasKind(es, CrawlStart)
    ensures forall i | IsLast(es, CrawlStart, i) :: Scan(es).value.start == Some(es[i].stamp)
    decreases |es|
  {
    if es != [] {
      var n := |es| - 1;
      ScanLastStart(es[..n]);
      LastOfSnoc(es, CrawlStart);
      assert Scan(es) == Step(Scan(es[..n]).value, es[n]);
    }
  }

  /**
   * Last one wins, for the finish: the finish remembered is what the last "Finished scan"
   * line reports, and there is none exactly when no such line occurs.
   */
  lemma {:induction false} ScanLastFinish(es: seq<Event>)
    requires Scan(es).Success?
    ensures Scan(es).value.finish.Some? <==> HasKind(es, ScanFinish)
    ensures forall i | IsLast(es, ScanFinish, i) ::
      es[i].reading.Success? && Scan(es).value.finish == Some(es[i].reading.value)
    decreases |es|
  {
    if es != [] {
      var n := |es| - 1;
      ScanLastFinish(es[..n]);
      LastOfSnoc(es, ScanFinish);
      assert Scan(es) == Step(Scan(es[..n]).value, es[n]);
    }
  }

  /**
   * The error rate of a scan in percent, `errored / (visited + errored) * 100`, as an exact
   * rational: it lies in [0, 100], is 0 exactly when nothing errored and 100 exactly when
   * nothing was visited.
   */
  function ErrorRate(visited: nat, errored: nat): (p: real)
    requires visited + errored > 0
    ensures 0.0 <= p <= 100.0
    ensures p == 0.0 <==> errored == 0
    ensures p == 100.0 <==> visited == 0
  {
    var sites := (visited + errored) as real;
    assert errored as real <= sites;
    errored as real / sites * 100.0
  }

  /** The statistics of one log file. */
  datatype LogRecord = LogRecord(
    errorRate: real,
    linksFailed: nat,
    links: nat,
    restarts: nat,
    sites: nat,
    timeoutsExt: nat,
    timeoutsSite: nat,
    visited: nat,
    timeEnd: Timestamp,
    timeStart: Timestamp)

  /** The relations every parsed record satisfies. */
  predicate Valid(s: LogRecord) {
    && 0 < s.sites && s.visited <= s.sites
    && s.errorRate == ErrorRate(s.visited, s.sites - s.visited)
  }

  /**
   * The record built after the last line. Reading the end time comes first, so a log with
   * no finish line fails for that even when its start line is missing too.
   */
  function Conclude(st: ScanState): (r: Result<LogRecord, Error>)
    ensures r.Success? <==> st.start.Some? && st.finish.Some?
    ensures r.Failure? ==> r.error == if st.finish.None? then MissingFinish else MissingStart
    ensures r.Success? ==> Valid(r.value)
    ensures r.Success? ==>
      && st.finish == Some(Finish(r.value.timeEnd, r.value.visited, r.value.sites - r.value.visited))
      && st.start == Some(r.value.timeStart)
      && r.value.links == st.counters.links && r.value.linksFailed == st.counters.linksFailed
      && r.value.timeoutsExt == st.counters.extTimeouts && r.value.timeoutsSite == st.counters.siteTimeouts
      && r.value.restarts == st.counters.restarts
  {
    if st.finish.None? then Failure(MissingFinish)
    else if st.start.None? then Failure(MissingStart)
    else
      var f := st.finish.value;
      var c := st.counters;
      Success(LogRecord(
        errorRate := ErrorRate(f.visited, f.errored),
        linksFailed := c.linksFailed,
        links := c.links,
        restarts := c.restarts,
        sites := f.visited + f.errored,
        timeoutsExt := c.extTimeouts,
        timeoutsSite := c.siteTimeouts,
        visited := f.visited,
        timeEnd := f.stamp,
        timeStart := st.start.value))
  }

  /** The statistics of a log given as the events of its lines, or the error that aborts it. */
  function ParseEvents(es: seq<Event>): (r: Result<LogRecord, Error>)
    ensures r.Success? ==> Valid(r.value)
  {
    match Scan(es)
    case Failure(err) => Failure(err)
    case Success(st) => Conclude(st)
  }

  /** The events are accepted exactly when they hold a start, a finish, and no unreadable finish. */
  lemma ParseEventsAccepts(es: seq<Event>)
    ensures ParseEvents(es).Success? <==> WellFormed(es)
  {
    ScanOutcome(es);
    if Scan(es).Success? {
      ScanLastStart(es);
      ScanLastFinish(es);
    }
  }

  /** Last one wins for the start: the start time is that of the last start event. */
  lemma ParseEventsLastStart(es: seq<Event>, i: int)
    requires ParseEvents(es).Success? && IsLast(es, CrawlStart, i)
    ensures ParseEvents(es).value.timeStart == es[i].stamp
  {
    ScanOutcome(es);
    ScanLastStart(es);
  }

  /** Last one wins for the finish: end time and site counts are those of the last finish event. */
  lemma ParseEventsLastFinish(es: seq<Event>, i: int)
    requires ParseEvents(es).Success? && IsLast(es, ScanFinish, i)
    ensures var s := ParseEvents(es).value;
      es[i].reading == Success(Finish(s.timeEnd, s.visited, s.sites - s.visited))
  {
    ScanOutcome(es);
    ScanLastFinish(es);
  }

  /** The statistics of one log file given as its lines, or the error that aborts reading it. */
  function ParseLog(lines: seq<string>): (r: Result<LogRecord, Error>)
    ensures r.Success? ==> Valid(r.value)
  {
    ParseEvents(Events(lines))
  }

  /** The loop's next iteration: one more event applied to the state so far. */
  lemma ScanSnoc(es: seq<Event>, i: nat)
    requires i < |es| && Scan(es[..i]).Success?
    ensures Scan(es[..i + 1]) == Step(Scan(es[..i]).value, es[i])
  {
    assert es[..i + 1][..i] == es[..i];
    ScanUnfold(es[..i + 1]);
  }

  /** One step of the fold: the last event applied to the state after the others. */
  lemma ScanUnfold(xs: seq<Event>)
    requires xs != [] && Scan(xs[..|xs| - 1]).Success?
    ensures Scan(xs) == Step(Scan(xs[..|xs| - 1]).value, xs[|xs| - 1])
  {
  }

  /** The parse loop, run over the events of the lines and left at the first failure. */
  method RunScan(es: seq<Event>) returns (r: Result<ScanState, Error>)
    ensures r == Scan(es)
  {
    var st := Initial;
    var i := 0;
    while i < |es|
      invariant i <= |es|
      invariant Scan(es[..i]) == Success(st)
    {
      ScanSnoc(es, i);
      var next := Step(st, es[i]);
      if next.Failure? {
        ScanFailureSticks(es, i + 1);
        return Failure(next.error);
      }
      st := next.value;
      i := i + 1;
    }
    assert es[..i] == es;
    return Success(st);
  }

  /** The log parser: the loop over the lines, then the record built from what it kept. */
  method GetLogStats(lines: seq<string>) returns (r: Result<LogRecord, Error>)
    ensures r == ParseLog(lines)
  {
    var es := Events(lines);
    var scanned := RunScan(es);
    if scanned.Failure? {
      return Failure(scanned.error);
    }
    ScanOutcome(es);
    r := Conclude(scanned.value);
  }

  // Statements about a log in terms of its lines.

  /** The kinds of the lines, in order. */
  function LineKinds(lines: seq<string>): (ks: seq<LineKind>)
    ensures |ks| == |lines|
    ensures forall i | 0 <= i < |lines| :: ks[i] == Classify(lines[i])
  {
    seq(|lines|, i requires 0 <= i < |lines| => Classify(lines[i]))
  }

  /** How many lines are of kind `k`. */
  function LinesOf(lines: seq<string>, k: LineKind): nat {
    multiset(LineKinds(lines))[k]
  }

  predicate HasLine(lines: seq<string>, k: LineKind) {
    exists i | 0 <= i < |lines| :: Classify(lines[i]) == k
  }

  /** Line `i` is the last line of kind `k`. */
  predicate IsLastLine(lines: seq<string>, k: LineKind, i: int) {
    && 0 <= i < |lines| && Classify(lines[i]) == k
    && forall j | i < j < |lines| :: Classify(lines[j]) != k
  }

  /** A "Finished scan" line that cannot be read. */
  predicate Unreadable(line: string) {
    Classify(line) == ScanFinish && ParseFinish(line).Failure?
  }

  predicate AllReadable(lines: seq<string>) {
    forall i | 0 <= i < |lines| :: !Unreadable(lines[i])
  }

  /** Line `i` is the first unreadable finish line. */
  predicate IsFirstUnreadable(lines: seq<string>, i: int) {
    && 0 <= i < |lines| && Unreadable(lines[i])
    && forall j | 0 <= j < i :: !Unreadable(lines[j])
  }

  /** Each event has the kind of its line, and is bad exactly when its line is unreadable. */
  lemma EventsOfLines(lines: seq<string>)
    ensures KindsOf(Events(lines)) == LineKinds(lines)
    ensures forall i | 0 <= i < |lines| :: IsBad(Events(lines)[i]) <==> Unreadable(lines[i])
  {
  }

  /** A log is accepted exactly when it has a start line and a finish line, and every finish line reads. */
  lemma ParseLogAccepts(lines: seq<string>)
    ensures ParseLog(lines).Success? <==>
      HasLine(lines, CrawlStart) && HasLine(lines, ScanFinish) && AllReadable(lines)
  {
    EventsOfLines(lines);
    ParseEventsAccepts(Events(lines));
  }

  /**
   * The counters of a parsed log are the numbers of lines of each counted kind. Each line
   * bumps at most one of them and an accepted log has a start and a finish line, so
   * together they stay at least two below the number of lines.
   */
  lemma ParseLogCounts(lines: seq<string>)
    requires ParseLog(lines).Success?
    ensures var s := ParseLog(lines).value;
      && s.links == LinesOf(lines, LinkClick)
      && s.linksFailed == LinesOf(lines, LinkFailure)
      && s.timeoutsExt == LinesOf(lines, ExtensionTimeout)
      && s.timeoutsSite == LinesOf(lines, SiteTimeout)
      && s.restarts == LinesOf(lines, Restart)
      && s.links + s.linksFailed + s.timeoutsExt + s.timeoutsSite + s.restarts <= |lines| - 2
  {
    var es := Events(lines);
    EventsOfLines(lines);
    ParseEventsAccepts(es);
    ScanCounts(es);
    CountsPartition(es);
    HasKindCount(es, CrawlStart);
    HasKindCount(es, ScanFinish);
  }

  /** The last line of a kind is the line of the last event of that kind. */
  lemma LastLine(lines: seq<string>, k: LineKind, i: int)
    ensures IsLastLine(lines, k, i) <==> IsLast(Events(lines), k, i)
  {
    var es := Events(lines);
    if 0 <= i < |lines| {
      assert KindOf(es[i]) == Classify(lines[i]);
      assert forall j | i < j < |lines| :: KindOf(es[j]) == Classify(lines[j]);
    }
  }

  /** A parsed log has a last start line and a last finish line. */
  lemma ParseLogHasLast(lines: seq<string>)
    requires ParseLog(lines).Success?
    ensures exists i :: IsLastLine(lines, CrawlStart, i)
    ensures exists i :: IsLastLine(lines, ScanFinish, i)
  {
    var es := Events(lines);
    ParseEventsAccepts(es);
    LastExists(es, CrawlStart);
    LastExists(es, ScanFinish);
    var a :| IsLast(es, CrawlStart, a);
    var b :| IsLast(es, ScanFinish, b);
    LastLine(lines, CrawlStart, a);
    LastLine(lines, ScanFinish, b);
  }

  /** Last one wins for the start: the start time of a parsed log is that of its last start line. */
  lemma ParseLogLastStart(lines: seq<string>, i: int)
    requires ParseLog(lines).Success? && IsLastLine(lines, CrawlStart, i)
    ensures ParseLog(lines).value.timeStart == StampOf(lines[i])
  {
    var es := Events(lines);
    LastLine(lines, CrawlStart, i);
    ParseEventsLastStart(es, i);
  }

  /**
   * Last one wins for the finish: the end time and site counts of a parsed log are those
   * its last finish line reports.
   */
  lemma ParseLogLastFinish(lines: seq<string>, i: int)
    requires ParseLog(lines).Success? && IsLastLine(lines, ScanFinish, i)
    ensures ParseFinish(lines[i]).Success?
    ensures var s, f := ParseLog(lines).value, ParseFinish(lines[i]).value;
      f.stamp == s.timeEnd && f.visited == s.visited && f.errored == s.sites - s.visited
  {
    var es := Events(lines);
    LastLine(lines, ScanFinish, i);
    ParseEventsLastFinish(es, i);
    assert es[i].reading == ParseFinish(lines[i]);
  }

  /**
   * How a parse fails: with the error of the first unreadable finish line if there is
   * one; otherwise for a missing finish line before a missing start line.
   */
  lemma ParseLogErrors(lines: seq<string>)
    ensures forall i | IsFirstUnreadable(lines, i) :: ParseLog(lines) == Failure(ParseFinish(lines[i]).error)
    ensures AllReadable(lines) && !HasLine(lines, ScanFinish) ==> ParseLog(lines) == Failure(MissingFinish)
    ensures AllReadable(lines) && HasLine(lines, ScanFinish) && !HasLine(lines, CrawlStart) ==>
      ParseLog(lines) == Failure(MissingStart)
  {
    var es := Events(lines);
    EventsOfLines(lines);
    assert forall i :: IsFirstUnreadable(lines, i) <==> IsFirstBad(es, i);
    ScanOutcome(es);
    if AllReadable(lines) {
      ScanLastStart(es);
      ScanLastFinish(es);
    }
  }
}
