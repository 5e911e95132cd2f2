# Scan statistics of a badger-swarm run, modelled in Dafny

badger-swarm runs many Badger Sett crawls and keeps one log file per crawl. Its
statistics script reads each log top to bottom and turns it into one record:
- how many links were clicked;
- how many link visits failed;
- how many extension pages and how many sites timed out;
- how often the browser restarted;
- when the crawl started and finished;
- how many sites it visited and how many errored, and the error rate.

The script then adds the records of a run into a summary: totals, and rates in percent.

This project models that core as pure functions over strings and sequences and proves
what it promises.

- `Strings` (strings.dfy) models substring containment (`pat in line`) and ASCII digits. It
  models `int(...)` on a digit run and `str(n)`, with a round trip between the two.
- `LineRules` (line_rules.dfy) models the ordered `if`/`elif` chain of substring tests that
  decides what a line records (`Classify`). A second form of the same chain is an explicit
  rule table (`Rules`, `FirstFiring`), and the two are proved equal. The table is the
  independent definition that `ClassifyFirstRule` is stated against. The facts about the
  timeout markers (`ExtensionTimeoutShadowsSiteTimeout`, `EarlierRuleSetsNoTime`) are stated
  against `Classify` and substring containment directly.
- `SiteCounts` (site_counts.dfy) models `re.search(r'Visited (\d+) sites and errored on (\d+)', line)`.
  The search takes the leftmost match. Each greedy `\d+` is the longest digit run at its
  place. A match at an index is characterized both ways by the text from there: "Visited ",
  two maximal digit runs around " sites and errored on ", and the count they read as
  (`Shape`). A line that carries a count written in the crawler's own format reads back as
  that count, when no match can start before it and no digit follows it.
- `LogStats` (log_stats.dfy) models `get_log_stats`:
  - each line becomes an event;
  - a fold (`Scan`, run as a loop by `RunScan`) bumps counters and keeps the last start and finish;
  - `Conclude` builds the record or reports what is missing.
- `ScanStats` (scan_stats.dfy) models the integer sums and the rates of `print_scan_stats`.
  It also models the loop that parses every log of a run and stops at the first log that
  fails.
- `Results`, `Errors` (results.dfy) hold the `Option`/`Result` wrappers and the error
  kinds. An exception the script would raise becomes a `Failure`:
  - `MissingStart` / `MissingFinish`: the local variable is unbound, at stats.py:46.
  - `MalformedFinish`: the regex finds no match and `.group` fails, at stats.py:41.
  - `ZeroSites`: division by zero at stats.py:44.
  - `EmptyRun`: indexing an empty list at stats.py:71-72.
  - `NoSitesVisited` / `NoLinksClicked`: division by zero at stats.py:76 and stats.py:77.

The checks run in the order Python evaluates them:
- On a "Finished scan" line, the failed match is raised before the division by zero.
- After the loop, `end_time - start_time` loads `end_time` first. So a log with neither
  line fails for the missing finish.
- In the summary, the empty run fails first, then zero visited sites, then zero links.

A timestamp is the 23-character prefix of its line, kept as text. Python's `line[:23]`
gives the whole line when the line is shorter, and so does `StampOf`. Rates are exact
rationals (`real`), taken before the rounding the report applies.

Two behaviours of the code are worth stating on their own:
- A log may hold any number of "Starting new crawl" and "Finished scan" lines, and the
  last of each wins (`ParseLogLastStart`, `ParseLogLastFinish`).
- Once some site was visited, `links_total == 0` raises at stats.py:77 whatever the failure
  count is, since `x * 100 / 0` divides by zero. `Summarize` fails with `NoLinksClicked`
  exactly then (`SummarizeNoLinksClicked`). An empty run fails earlier at stats.py:71-72, and
  a run with no visited site at stats.py:76.

## Model

| member | source | states |
|---|---|---|
| `Strings.Contains` | stats.py:24-37 | `pat in line` holds only for a pattern no longer than the line |
| `Strings.DigitsValue` | stats.py:41-42 | `int()` of k decimal digits is a count below 10^k |
| `Strings.ShowRoundTrip` | stats.py:41-42 | reading back the decimal digits of a count gives the count, so `int()` inverts how the crawler writes a number |
| `Strings.DigitRunMaximal` | stats.py:40 | the run a greedy `\d+` takes is all digits and is not followed by another digit |
| `LineRules.TimeoutMarkersNest` | stats.py:28-30 | a line with the skin or extension-page timeout marker also holds the generic "Timed out loading " marker |
| `LineRules.Classify` | stats.py:24-37 | a line is a timeout of either kind exactly when it holds "Timed out loading " and neither the click nor the link-failure marker |
| `LineRules.FirstFiring` | stats.py:24-44 | the table lookup returns the first rule that fires, with no earlier rule firing, and nothing exactly when no rule fires |
| `LineRules.ClassifyIsTable` | stats.py:24-44 | the `if`/`elif` chain and the ordered rule table classify every line alike |
| `LineRules.ClassifyFirstRule` | stats.py:24-44 | first match wins: a line has the kind of rule i exactly when rule i fires and no earlier rule does; it is unmatched exactly when no rule fires. For i = 0, a line with "Clicking on " is a link click whatever other marker it holds |
| `LineRules.ExtensionTimeoutShadowsSiteTimeout` | stats.py:28-31 | every extension timeout also holds the generic timeout marker. A skin or extension-page timeout is never a site timeout. A site timeout is exactly a generic timeout with no click, link-failure or extension marker |
| `SiteCounts.MatchAt` | stats.py:40 | the pattern matches at i only where "Visited " occurs at i |
| `SiteCounts.FindFromLeftmost` | stats.py:40 | the scan finds the leftmost place from i on where the pattern matches, and finds nothing only when the pattern matches nowhere from i on |
| `SiteCounts.Search` | stats.py:40 | `re.search` finds a match only in a line that contains "Visited " |
| `SiteCounts.SearchLeftmost` | stats.py:40 | `re.search` fails exactly when the pattern matches nowhere, and otherwise reads the match that starts leftmost |
| `SiteCounts.MatchAtShape` | stats.py:40-42 | a match at i is "Visited ", a maximal digit run, " sites and errored on " and a digit run no digit continues, and its count is the two runs read as numbers |
| `SiteCounts.ShapeMatches` | stats.py:40-42 | text of that shape from i matches at i and reads as the count of its two runs |
| `SiteCounts.MatchAtIffShape` | stats.py:40-42 | the pattern matches at i with a count exactly when the text from i has the shape of that count |
| `SiteCounts.MatchAtPieces` | stats.py:40-42 | two digit runs around " sites and errored on ", the second not continued by a digit, match at the "Visited " before them and read as their values |
| `SiteCounts.MatchAtRendered` | stats.py:40-42 | the pattern anchored where a written count starts reads back that count, when a non-digit or the end of the line follows it |
| `SiteCounts.SearchReadsRendered` | stats.py:40-42 | searching a line that carries the crawler's "Visited N sites and errored on M" gives N and M, when no earlier 'V' and no trailing digit interferes |
| `LogStats.StampOf` | stats.py:36 | the timestamp is a prefix of the line, 23 characters long, or the whole line when it is shorter |
| `LogStats.Bump` | stats.py:24-33 | a line raises the counter total by one exactly when its kind is counted, and no counter goes down |
| `LogStats.ParseFinish` | stats.py:39-44 | reading a finish line stamps it with the line's prefix and fails only for a missing pattern or for zero sites |
| `LogStats.ParseFinishRendered` | stats.py:39-44 | a finish line carrying the crawler's counts reads as those counts, or fails with the zero-sites error when both are 0, when the text before the counts holds no 'V' and no digit follows them |
| `LogStats.ParseFinishMalformedIff` | stats.py:40-41 | a finish line fails as malformed exactly when the text from no index has the shape "Visited N sites and errored on M" |
| `LogStats.ParseFinishMalformed` | stats.py:40-41 | a finish line the pattern matches nowhere fails as malformed |
| `LogStats.EarlierRuleSetsNoTime` | stats.py:32-39 | a line sets the start time exactly when it holds the start marker and none of the markers the chain checks before it, and likewise for the finish time |
| `LogStats.EventOf` | stats.py:24-44 | a line's event has the line's kind; a start event carries the line's stamp; a finish event carries the line's reading |
| `LogStats.Step` | stats.py:23-44 | one iteration fails exactly on an unreadable finish line, bumps the counters by the line's kind, and changes the start or finish only on a start or finish line |
| `LogStats.Scan` | stats.py:23-44 | the loop can abort only with the error of some unreadable finish line of the log |
| `LogStats.ScanCounts` | stats.py:16-33 | after the loop each counter equals the number of lines of its kind |
| `LogStats.CountsPartition` | stats.py:24-44 | every line is of exactly one kind, so the counted lines, start lines, finish lines and the rest add up to the line count |
| `LogStats.ScanOutcome` | stats.py:37-42 | the loop completes exactly when every finish line reads, and otherwise fails with the error of the first unreadable finish line |
| `LogStats.ScanFailureSticks` | stats.py:23-44 | once a line aborts the loop, later lines change nothing |
| `LogStats.ScanLastStart` | stats.py:34-36 | the start kept is the stamp of the last start line, and there is none exactly when no start line occurs |
| `LogStats.ScanLastFinish` | stats.py:37-44 | the finish kept is what the last finish line reports, and there is none exactly when no finish line occurs |
| `LogStats.ErrorRate` | stats.py:43-44 | the error rate lies in [0, 100]. It is 0 exactly when nothing errored, and 100 exactly when nothing was visited |
| `LogStats.Conclude` | stats.py:46-61 | the record exists exactly when a start and a finish were seen, and a missing finish is reported first. The record holds the kept counters and times, with sites = visited + errored, visited ≤ sites, and the rate of those counts |
| `LogStats.ParseEventsAccepts` | stats.py:23-46 | a log's events are accepted exactly when they hold a start, a finish, and no unreadable finish |
| `LogStats.ParseEventsLastStart` | stats.py:34-36 | the start time of a parsed log is the stamp of its last start event |
| `LogStats.ParseEventsLastFinish` | stats.py:37-44 | the end time and site counts of a parsed log are those of its last finish event |
| `LogStats.RunScan` | stats.py:22-44 | the loop over the events of the lines computes the fold and stops at the first failure |
| `LogStats.GetLogStats` | stats.py:13-61 | the parser as a loop followed by the record agrees with the functional definition |
| `LogStats.EventsOfLines` | stats.py:24-44 | each event has the kind of its line, and is bad exactly when its line is an unreadable finish line |
| `LogStats.ParseLog` | stats.py:13-61 | every record the parser returns counts at least one site, visits no more sites than it counts, and carries the error rate of its counts |
| `LogStats.ParseLogAccepts` | stats.py:23-46 | a log parses exactly when it has a start line and a finish line, and every finish line reads |
| `LogStats.ParseLogCounts` | stats.py:16-33 | the five counters are the numbers of lines of their kinds, and together they stay at most the line count minus two |
| `LogStats.ParseLogHasLast` | stats.py:34-44 | a parsed log has a last start line and a last finish line |
| `LogStats.ParseLogLastStart` | stats.py:34-36 | last one wins: the start time is the prefix of the last start line |
| `LogStats.ParseLogLastFinish` | stats.py:37-44 | last one wins: the last finish line reads, and its stamp, visited count and errored count are the record's end time, visited and sites − visited |
| `LogStats.ParseLogErrors` | stats.py:40-46 | a failed parse reports the first unreadable finish line; with none, it reports a missing finish line before a missing start line |
| `ScanStats.MaxRate` | stats.py:79 | the maximum error rate is at least every record's rate and is the rate of some record |
| `ScanStats.ValidBounded` | stats.py:43-44 | every parsed record counts a site, visits no more sites than it counts, and has a rate in [0, 100] |
| `ScanStats.Sum` | stats.py:73-82 | no record contributes more to a total than the total itself |
| `ScanStats.SumZero` | stats.py:73-77 | a total is zero exactly when every record contributes zero |
| `ScanStats.SumLe` | stats.py:73-74 | a field no larger than another in every record has a total no larger either |
| `ScanStats.SitesAtLeastLogs` | stats.py:74 | the run counts at least one site per log, so `sites_total` is never zero for a non-empty run |
| `ScanStats.RateSumBounds` | stats.py:78 | the sum of the error rates lies between 0 and n times an upper bound on each rate |
| `ScanStats.ErrorAverageBounds` | stats.py:78-79 | the average error rate lies between 0 and the largest rate, which is at most 100 |
| `ScanStats.Summarize` | stats.py:72-82 | the summary fails for an empty run, then when no site was visited, then when no link was clicked. It succeeds exactly when some log visited a site and some log clicked a link |
| `ScanStats.SummarizeNoLinksClicked` | stats.py:71-77 | the summary fails for want of clicked links exactly when some log visited a site and no log clicked a link |
| `ScanStats.SummarySites` | stats.py:73-74 | in a summary `sites_success ≤ sites_total`, and the run counts at least one site per log |
| `ScanStats.SummaryErrorRates` | stats.py:78-79 | the average error rate lies between 0 and the largest rate, which is at most 100 and is the rate of some log |
| `ScanStats.SummaryRates` | stats.py:76-81 | the click rate of a summary is positive, and the link failure rate and timeout rate are not negative |
| `ScanStats.SummarizeBounds` | stats.py:73-82 | a summary has `sites_success ≤ sites_total` and at least one site per log. Its average error rate lies in [0, max] with max ≤ 100 and the max the rate of some log. Its rates are not negative, and the click rate is positive |
| `ScanStats.Collect` | stats.py:67-69 | the records are collected exactly when every log parses, one per log and in order |
| `ScanStats.CollectFirstFailure` | stats.py:67-69 | the run stops with the error of its first log that does not parse |
| `ScanStats.Parses` | stats.py:67-69 | one outcome per log, and every record parsed is bounded |
| `ScanStats.RunReport` | stats.py:66-82 | an empty run fails, and a successful report means every log parsed |
| `ScanStats.RunReportFirstFailure` | stats.py:67-69 | a report fails with the error of the first log that does not parse |
| `ScanStats.SumOfLines` | stats.py:75-82 | a total of per-log counters equals the number of such lines in the whole run |
| `ScanStats.ParsedCounts` | stats.py:24-33 | a record parsed from a log counts as many links, restarts and extension timeouts as the log has such lines |
| `ScanStats.RecordCounts` | stats.py:67-69 | when every log parses the records are collected, and each collected record's links, restarts and extension timeouts are the numbers of those lines in its log |
| `ScanStats.RunReportTotals` | stats.py:75-82 | `links_total`, `restarts_total` and `timeouts_ext_total` are the numbers of click, restart and extension-timeout lines in the whole run |

## Left out

- File and directory input is not modelled: opening a log, `glob('log.????.txt')`, and finding run directories (stats.py:22, 68, 104). A log is given as its sequence of lines, and a run as the sequence of its logs in the order they are read.
- Sorting logs by modification time, and the run start and end from file metadata, are not modelled (stats.py:68, 71-72). They depend on operating-system state. Only the failure of an empty run at stats.py:71-72 is modelled.
- `datetime.strptime` is not modelled (stats.py:36, 39). A timestamp is the text of the line's prefix, so a prefix that would not parse as a date (a `ValueError` in Python) is not an error here.
- `total_time`, `speed`, `time_end`/`time_start` as datetimes, and the time and speed aggregates are not modelled (stats.py:46, 57, 60, 83-87). These are timedelta and floating-point arithmetic on parsed dates. The division by zero in `speed` when start and end coincide is therefore not modelled.
- Rounding to one decimal is not modelled (stats.py:76-82). Rates are exact rationals, not IEEE doubles.
- Output formatting through `out` and `print` is not modelled (stats.py:63-64, 89-97).
- The command-line driver with its `fnmatch` filter is not modelled (stats.py:100-107).
- Python's `\d` matches every Unicode decimal digit, and `int()` accepts those digits. The model reads ASCII digits only.
- Python yields each line with its trailing newline, and the model takes a line as given. No marker holds a newline and a newline is not a digit, so whether the `\n` is kept changes no line's kind and no count read from it. It changes only the 23-character stamp of a line shorter than that, whose `strptime` is not modelled anyway.
- LogStats.ParseFinish: reads a digit run of any length as its value. CPython 3.11 and later (and the 3.10.7 and 3.9.14 releases) by default make `int()` raise `ValueError` on a string of more than 4300 digits. The limit depends on the interpreter version and its settings, so it is not modelled, and a finish line with such a count does not fail here.
- ScanStats.Summarize: keeps the link failure rate and the timeout rate as the source computes them, but states only that they are not negative.
- ScanStats.RunReportTotals: relates three of the run totals (links, restarts, extension timeouts) to line counts. `ScanStats.SummarizeBounds` relates sites_success and sites_total to each other. Summed failed links and site timeouts appear only inside the rates.
