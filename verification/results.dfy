/** The optional values and the outcomes with an error that the model passes around. */
module Results {

  /** An optional value. */
  datatype Option<+T> = None | Some(value: T)

  /** Either a value or the error that aborted the computation. */
  datatype Result<+T, +E> = Success(value: T) | Failure(error: E)
}

/** The ways one run of the statistics tool can abort. */
module Errors {

  datatype Error =
    /** no "Starting new crawl" line, so the start time is never bound */
    | MissingStart
    /** no "Finished scan" line, so the end time and site counts are never bound */
    | MissingFinish
    /** a "Finished scan" line without the "Visited N sites and errored on M" fragment */
    | MalformedFinish
    /** a "Finished scan" line reporting zero sites: the error rate divides by zero */
    | ZeroSites
    /** a run directory with no log files */
    | EmptyRun
    /** a run whose logs visited no site: the link click rate divides by zero */
    | NoSitesVisited
    /** a run whose logs clicked no link: the link failure rate divides by zero */
    | NoLinksClicked
}
