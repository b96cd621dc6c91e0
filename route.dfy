/**
 * The `GET` handler of the jobs API: the three queries, the conditional
 * search-log write, the envelope, and the catch-all error response.
 */
module JobsRoute {
  import opened Wrappers
  import opened Postings
  import opened Pagination
  import opened JobsQuery
  import opened Serialize

  /** The awaited steps of the handler, in the order it runs them; any of them may throw. */
  datatype Step = UniqueJobsQuery | LatestScrapeQuery | CountQuery | AuditWrite

  /** A row written to `search_logs`. */
  datatype AuditEntry = AuditEntry(query: string, timestamp: int)

  datatype Metadata = Metadata(latestScrapeDate: Option<int>, totalJobs: nat, currentPage: int, totalPages: nat)

  /** The JSON response: the envelope (status 200), or the error body with its status. */
  datatype Response =
    | Jobs(jobs: seq<Row>, metadata: Metadata)
    | Failed(status: int, error: string)

  const FetchError: string := "Failed to fetch jobs"

  /** The rows the `uniqueJobs` raw query hands back for the selected postings. */
  function DbRows(rows: seq<Posting>): (r: seq<Row>)
    ensures |r| == |rows|
    ensures forall i :: 0 <= i < |rows| ==> r[i] == DbRowOf(rows[i])
  {
    seq(|rows|, i requires 0 <= i < |rows| => DbRowOf(rows[i]))
  }

  lemma ProcessedRowsAreJson(rows: seq<Posting>, fetched: seq<Row>, processed: seq<Row>)
    requires fetched == DbRows(rows)
    requires |processed| == |fetched| && forall i :: 0 <= i < |fetched| ==> processed[i] == Formatted(fetched[i])
    ensures forall i :: 0 <= i < |rows| ==> processed[i] == JsonRowOf(rows[i])
  {
    forall i | 0 <= i < |rows| ensures processed[i] == JsonRowOf(rows[i]) {
      FormattedDbRow(rows[i]);
    }
  }

  /**
   * `GET /api/jobs?search=...&page=...` over the table contents `store`.
   * `fault` names the awaited step that throws, if any (an unreachable
   * database, a failed insert); `now` is the clock reading `new Date()` takes.
   * A page below 1 gives a negative OFFSET, which the database rejects.
   */
  method Get(store: seq<Posting>, search: string, page: int, now: int, fault: Option<Step>)
    returns (response: Response, audit: seq<AuditEntry>)
    ensures response.Failed? ==> response == Failed(500, FetchError)
    ensures response.Jobs? <==> (
      && page >= 1
      && fault != Some(UniqueJobsQuery)
      && fault != Some(LatestScrapeQuery)
      && fault != Some(CountQuery)
      && (search != "" ==> fault != Some(AuditWrite)))
    ensures audit == if response.Jobs? && search != "" then [AuditEntry(search, now)] else []
    ensures response.Jobs? ==> (
      page >= 1 &&
      var rows, total := UniqueJobs(store, search, page), TotalUniqueJobs(store, search);
      && |response.jobs| == |rows|
      && (forall i :: 0 <= i < |rows| ==> response.jobs[i] == JsonRowOf(rows[i]))
      && response.metadata == Metadata(MaxCreatedAt(store), total, page, TotalPages(total)))
  {
    if fault == Some(UniqueJobsQuery) || page < 1 {
      return Failed(500, FetchError), [];
    }
    var rows := UniqueJobs(store, search, page);
    var uniqueJobs := DbRows(rows);
    if fault == Some(LatestScrapeQuery) {
      return Failed(500, FetchError), [];
    }
    var latestScrapeDate := MaxCreatedAt(store);
    if fault == Some(CountQuery) {
      return Failed(500, FetchError), [];
    }
    var totalCount := TotalUniqueJobs(store, search);
    audit := [];
    if search != "" {
      if fault == Some(AuditWrite) {
        return Failed(500, FetchError), [];
      }
      audit := [AuditEntry(search, now)];
    }
    var processedJobs := ProcessDbResult(uniqueJobs);
    ProcessedRowsAreJson(rows, uniqueJobs, processedJobs);
    response := Jobs(processedJobs, Metadata(latestScrapeDate, totalCount, page, TotalPages(totalCount)));
  }
}
