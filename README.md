# Jobs feed query: a Dafny model

This project models the `GET /api/jobs` handler of a job-listing service
(`src/app/api/jobs/route.ts`). The handler serves postings that a scraper
appends to the `jobs_jobpost` table, one row per scrape run in which a job
was seen. On each request it:

- keeps only the rows of the latest scrape run, meaning rows whose
  `created_at` equals `MAX(created_at)` over the whole table;
- keeps the rows whose lower-cased title or company contains the
  lower-cased search term;
- keeps one row per case-folded (title, company) pair, using
  `ROW_NUMBER() ... rn = 1`;
- orders by `created_at` descending and returns page `page` of 10;
- counts the distinct pairs under the same WHERE clause;
- writes a search-log entry when the term is non-empty;
- converts bigint values to numbers and returns a JSON envelope, or
  `{error: 'Failed to fetch jobs'}` with status 500 when any step throws.

The table is a `seq<Posting>` in storage order. Each SQL statement is a pure
function over it: `MaxCreatedAt`, `Where`, `Ranked`, `SortDesc` and
`TotalUniqueJobs` in module `JobsQuery`, and `PageOf` in module
`Pagination`. `processDbResult` and `GET`
are methods with loops and early returns, as in the source. Modules:

- `Text`: `LOWER`, and `LIKE '%x%'` as substring containment;
- `Postings`: the row type and the folded pair;
- `Pagination`: `LIMIT`/`OFFSET` and the page count;
- `JobsQuery`: the three queries and their properties;
- `Serialize`: `formatBigInt` and `processDbResult`;
- `JobsRoute`: the handler.

Choices the model makes:

- `ROW_NUMBER()` with `ORDER BY created_at DESC` is modelled in full. The
  database leaves the order among equal `created_at` values open; the model
  breaks such ties by storage order. Every row that passes the WHERE clause
  has the same `created_at`. So `rn = 1` keeps the first row of each pair in
  storage order (`RankedIsFirstOccurrence`), and the final `ORDER BY`
  changes nothing (`SortDescSameRun`).
- On an empty table `MAX(created_at)` is NULL. No row passes the gate, and
  `latestScrapeDate` is `null` (`None`).
- The handler's steps that can throw are one input, `fault`. It names the
  awaited step (one of three queries or the log insert) that fails, if any.
  The clock reading for the log entry is the input `now`.
- A page below 1 gives a negative `OFFSET`. PostgreSQL rejects that, so the
  first query throws and the handler answers 500. The handler does not
  default a bad page to 1.
- A failed search-log insert makes the whole request answer 500: the
  handler does not keep a failed log insert apart from the response. The
  log entry holds the raw term: any
  non-empty term is logged, including one made only of spaces.
- `SELECT *` over the `RankedJobs` CTE (a named subquery in the SQL) also
  returns the `rn` column, a bigint. The JSON rows therefore carry `rn: 1`
  next to the five posting columns. The `id` column is taken to be a bigint.

In the model, the postconditions of `JobsRoute.Get` fix the response and the
log output uniquely from the inputs, because the model fixes one tie order
(storage order) for every query. The database promises no such order (see
"## Left out").

## Model

| member | source | states |
|---|---|---|
| `Text.Lower` | src/app/api/jobs/route.ts:50 | `LOWER(s)` (and `toLowerCase()`) keeps the length and folds each character on its own, ASCII letters to lower case |
| `Text.Contains` | src/app/api/jobs/route.ts:55-56 | `s LIKE '%needle%'`; a match needs a string at least as long as the needle (exact meaning in `ContainsIffOccurs`) |
| `Text.ContainsIffOccurs` | src/app/api/jobs/route.ts:55-56 | `LIKE '%needle%'` matches exactly when the needle occurs at some offset of the string |
| `Text.OccursThenContains` | src/app/api/jobs/route.ts:55-56 | an occurrence of the term at any offset makes `LIKE '%term%'` match |
| `Text.ContainsThenOccurs` | src/app/api/jobs/route.ts:55-56 | a `LIKE '%term%'` match yields an offset at which the term occurs |
| `Text.ContainsEmpty` | src/app/api/jobs/route.ts:55 | the pattern built from the empty term matches every string |
| `Postings.KeyOf` | src/app/api/jobs/route.ts:50 | the partition pair is the title and company folded character by character, of the same lengths |
| `Text.LowerCharIgnoresCase` | src/app/api/jobs/route.ts:50 | `LOWER` maps an ASCII upper-case letter and its lower-case form to the same character |
| `Postings.KeyOfIgnoresCase` | src/app/api/jobs/route.ts:50 | rows whose titles and companies differ, position by position, only in ASCII letter case (`'A'` against `'a'`) fall in one partition |
| `Postings.KeySet` | src/app/api/jobs/route.ts:74 | the set `COUNT(DISTINCT ...)` counts: it holds the pair of every row, and every pair in it belongs to some row |
| `Postings.KeySetSize` | src/app/api/jobs/route.ts:74 | there are never more distinct pairs than rows |
| `Postings.DistinctKeysCount` | src/app/api/jobs/route.ts:74 | rows whose folded pairs are pairwise distinct are exactly as many as their distinct pairs |
| `JobsQuery.MaxCreatedAt` | src/app/api/jobs/route.ts:67-71 | the aggregate is NULL exactly on an empty table, otherwise it is the `created_at` of some row and no row is later |
| `JobsQuery.Matches` | src/app/api/jobs/route.ts:55-56 | the search half of the WHERE clause: `LOWER(title) LIKE '%term%' OR LOWER(company) LIKE '%term%'` with the term lower-cased, decided on the folded pair alone (`MatchesReadsOnlyPair`); the empty term matches every row (`EmptySearchMatchesAll`) |
| `JobsQuery.MatchesReadsOnlyPair` | src/app/api/jobs/route.ts:55-56 | the search reads a row only through its folded (title, company) pair: two rows with one pair match the same searches |
| `JobsQuery.InLatestScrape` | src/app/api/jobs/route.ts:57 | `created_at = (SELECT MAX(created_at) ...)`: false for every row when the MAX is NULL, otherwise true exactly for rows whose `created_at` is the MAX |
| `JobsQuery.Where` | src/app/api/jobs/route.ts:54-57 | a row passes the WHERE clause exactly when it is in the table, matches the search and is from the latest scrape |
| `JobsQuery.WhereIsGateThenSearch` | src/app/api/jobs/route.ts:54-57 | the WHERE clause equals the search-independent latest-scrape gate followed by the search predicate |
| `JobsQuery.EmptySearchMatchesAll` | src/app/api/jobs/route.ts:55-56 | the empty search term matches every row |
| `JobsQuery.SortDesc` | src/app/api/jobs/route.ts:62 | `ORDER BY created_at DESC` returns a permutation of its input |
| `JobsQuery.SortDescSorted` | src/app/api/jobs/route.ts:62 | the ordered rows are sorted latest first |
| `JobsQuery.SortDescSameRun` | src/app/api/jobs/route.ts:57-62 | rows of one scrape run keep their order under the sort |
| `JobsQuery.RowNumberIsOne` | src/app/api/jobs/route.ts:49-52 | a row numbered 1 in its partition is not older than any row of that partition |
| `JobsQuery.RankedFrom` | src/app/api/jobs/route.ts:61 | the `rn = 1` filter over the rows from an index on keeps at most that many rows (`RankedFromMembers` gives its members) |
| `JobsQuery.RankedFromMembers` | src/app/api/jobs/route.ts:61 | a row is kept from index `i` on exactly when it sits at some index at or after `i` with row number 1 |
| `JobsQuery.Ranked` | src/app/api/jobs/route.ts:42-61 | `SELECT * FROM RankedJobs WHERE rn = 1` keeps at most as many rows as the CTE yields |
| `JobsQuery.RankedMembers` | src/app/api/jobs/route.ts:49-61 | `WHERE rn = 1` keeps exactly the rows whose row number in their partition is 1 |
| `JobsQuery.RowNumberOneIffFirst` | src/app/api/jobs/route.ts:49-52 | within one scrape run a row has row number 1 exactly when its pair does not occur before it |
| `JobsQuery.RankedIsFirstOccurrence` | src/app/api/jobs/route.ts:49-61 | within one scrape run `rn = 1` keeps exactly the first row of each pair |
| `JobsQuery.DistinctFromDistinct` | src/app/api/jobs/route.ts:59-61 | the deduplicated rows never hold two rows of one pair |
| `JobsQuery.DistinctFromKeys` | src/app/api/jobs/route.ts:59-61 | the deduplicated rows cover every pair of the input that was not already seen, and no other |
| `JobsQuery.FullList` | src/app/api/jobs/route.ts:41-62 | the `uniqueJobs` query without `LIMIT`/`OFFSET` has no more rows than the table (its order and contents in `FullListIsOrderedRanking`, `FullListIsFirstOccurrence`, `FullListRows`, `FullListDistinct`) |
| `JobsQuery.UniqueJobs` | src/app/api/jobs/route.ts:41-65 | the `uniqueJobs` query for a page returns at most 10 rows and no more than the table holds (its rows in `JobsAreLatestAndMatch`, `NoDuplicatePairs`) |
| `JobsQuery.FullListIsFirstOccurrence` | src/app/api/jobs/route.ts:41-62 | the unpaginated `uniqueJobs` result is the first row of each pair among the rows passing the WHERE clause |
| `JobsQuery.FullListIsOrderedRanking` | src/app/api/jobs/route.ts:59-62 | the unpaginated result is the `rn = 1` rows, sorted latest first and neither lost nor duplicated |
| `JobsQuery.FilterCommutesWithDistinct` | src/app/api/jobs/route.ts:49-57 | filtering by any condition on the folded pair before or after the dedup gives the same rows |
| `JobsQuery.SearchAfterDedup` | src/app/api/jobs/route.ts:49-61 | the result for a search is the result for the empty search restricted to the matching rows, so filtering before partitioning is the same as filtering the canonical rows |
| `JobsQuery.FullListRows` | src/app/api/jobs/route.ts:54-61 | every row of the unpaginated result is a table row of the latest scrape that matches the search |
| `JobsQuery.FullListDistinct` | src/app/api/jobs/route.ts:49-61 | the unpaginated result holds each folded pair at most once |
| `JobsQuery.JobsAreLatestAndMatch` | src/app/api/jobs/route.ts:54-57 | every returned row is in the table, has the table-wide maximum `created_at` and matches the search |
| `JobsQuery.NoDuplicatePairs` | src/app/api/jobs/route.ts:49-64 | no page holds two rows with the same (`lower(title)`, `lower(company)`) pair |
| `JobsQuery.TotalUniqueJobs` | src/app/api/jobs/route.ts:73-80 | the count is at most the number of table rows, and is 0 exactly when no row passes the WHERE clause |
| `JobsQuery.CountIsFullLength` | src/app/api/jobs/route.ts:73-79 | `COUNT(DISTINCT ...)` under the same WHERE clause equals the length of the unpaginated deduplicated result |
| `JobsQuery.PageAgreesWithCount` | src/app/api/jobs/route.ts:62-64 | the page length is what the count and the offset predict, and the page is empty exactly past `totalPages` |
| `JobsQuery.PagesReassembleFullList` | src/app/api/jobs/route.ts:62-64 | pages 1 to `totalPages` concatenated give the whole deduplicated, filtered, ordered result |
| `JobsQuery.PairOnPageAt` | src/app/api/jobs/route.ts:62-64 | a pair is shown on page `p` exactly when it is the pair of a row of the full ordered result whose index lies in `[10(p-1), 10p)` |
| `JobsQuery.KeyOnPageIff` | src/app/api/jobs/route.ts:63-64 | a pair occurs in a `LIMIT 10 OFFSET o` window exactly when some row of the whole result with index in `[o, o + 10)` carries it |
| `JobsQuery.KeyOnPage` | src/app/api/jobs/route.ts:63-64 | a pair occurs on page `p` of any ordered result exactly when a row of it with index in `[10(p-1), 10p)` carries it |
| `JobsQuery.PairOnSomePage` | src/app/api/jobs/route.ts:54-64 | every matching pair of the latest scrape run is shown on some page between 1 and `totalPages` |
| `JobsQuery.PairOnAtMostOnePage` | src/app/api/jobs/route.ts:59-64 | no pair is shown on two different pages |
| `JobsQuery.NoMatchGivesNothing` | src/app/api/jobs/route.ts:73-80 | when no row of the latest run matches, the result is empty, the count is 0 and `totalPages` is 0 |
| `JobsQuery.LatestRunOnlyExample` | src/app/api/jobs/route.ts:41-80 | three rows of one (title, company) pair from three scrape runs: the list is exactly the newest run's row and the count is 1 |
| `JobsQuery.ExampleWhere` | src/app/api/jobs/route.ts:54-57 | of three rows from three runs, only the row whose created_at is the store's maximum passes the latest-scrape gate |
| `JobsQuery.ExamplePairsCoincide` | src/app/api/jobs/route.ts:49-50 | "Engineer" at "Acme" and "engineer" at "ACME" fold to the same partition pair |
| `Pagination.Window` | src/app/api/jobs/route.ts:63-64 | `LIMIT n OFFSET o` returns `min(n, len - o)` rows (none when `o` is past the end), the k-th being row `o + k` |
| `Pagination.PageOf` | src/app/api/jobs/route.ts:38-64 | a page holds at most 10 rows |
| `Pagination.TotalPages` | src/app/api/jobs/route.ts:100 | `Math.ceil(total / 10)` is the least number of 10-row pages that hold `total` rows |
| `Pagination.TotalPagesZeroIff` | src/app/api/jobs/route.ts:100 | `totalPages` is 0 exactly when `totalJobs` is 0 |
| `Pagination.PageEmptyIffBeyondLast` | src/app/api/jobs/route.ts:63-64 | a page is empty exactly when its number exceeds the page count |
| `Pagination.PagesArePrefix` | src/app/api/jobs/route.ts:63-64 | the first n pages concatenated are the first `10 n` rows |
| `Pagination.PagesReassemble` | src/app/api/jobs/route.ts:63-64 | pages 1 to the page count reassemble the whole ordered result |
| `Pagination.RowOnItsPage` | src/app/api/jobs/route.ts:63-64 | row i is at position `i % 10` of page `i / 10 + 1`, which is within the page count |
| `Serialize.FormatBigInt` | src/app/api/jobs/route.ts:17-22 | a bigint becomes the number of the same value, every other value is returned unchanged, and no bigint is left |
| `Serialize.Formatted` | src/app/api/jobs/route.ts:24-31 | a converted row has the same columns, no bigint value, and every non-bigint value untouched |
| `Serialize.ProcessRow` | src/app/api/jobs/route.ts:26-30 | copying the row and overwriting each entry with its formatted value yields the converted row |
| `Serialize.ProcessDbResult` | src/app/api/jobs/route.ts:24-32 | as many rows as given, in order, each converted |
| `Serialize.DbRowOf` | src/app/api/jobs/route.ts:43-61 | a fetched row has the five posting columns plus `rn`, and `rn` is the bigint 1 |
| `Serialize.FormattedDbRow` | src/app/api/jobs/route.ts:17-31 | a fetched job row becomes the JSON row with numeric `id` and `rn`, the other columns unchanged |
| `JobsRoute.DbRows` | src/app/api/jobs/route.ts:41 | the raw query hands back one row per selected posting, in order, each that posting's database row |
| `JobsRoute.ProcessedRowsAreJson` | src/app/api/jobs/route.ts:91-95 | the converted `uniqueJobs` rows are the JSON rows of the selected postings, in order |
| `JobsRoute.Get` | src/app/api/jobs/route.ts:34-110 | any failing step or a page below 1 gives exactly the 500 error body and nothing else; otherwise the envelope holds the converted page and metadata `{latestScrapeDate = MAX, totalJobs = count, currentPage = page, totalPages = ceil(count/10)}`; a log entry with the raw term and `now` is written exactly when the term is non-empty and the request succeeds |

## Left out

- HTTP and the client library (`NextResponse`, the query client, `new URL(...)`
  and reading `search`/`page` from the query string): foreign library calls.
  The handler takes `search` and `page` as already read.
- `parseInt` on the `page` parameter: a non-numeric value gives `NaN`, which
  the integer `page` input cannot express.
- `Number(bigint)` narrowing: a JavaScript number is modelled as the integer
  it holds, without IEEE rounding above 2^53.
- SQL `LIKE` wildcards (`%`, `_`, the backslash escape) inside the search
  term: the code does not escape them, and the model treats the term as a
  literal substring.
- `LOWER` and `toLowerCase` beyond ASCII: both are modelled as ASCII case
  folding.
- The `::integer` cast of the count: a count above 2^31 - 1 makes
  PostgreSQL raise "integer out of range", and the handler answers 500.
  The model leaves out this error path and returns the count unbounded.
- `console.error` in the catch block: logging output only.
- The order in which the database returns rows of equal `created_at`: the
  model fixes it as storage order, for both the window function and the
  final `ORDER BY`. Every row that passes the WHERE clause has the same
  `created_at`, so `ORDER BY created_at DESC` puts no order on the result,
  and each page is a separate query with its own `LIMIT`/`OFFSET`. As
  written, the code can therefore repeat a pair on two pages or leave a
  pair off every page, and a repeated request can return a different page,
  or a different row of the same pair. `PagesReassembleFullList`,
  `PairOnSomePage`, `PairOnAtMostOnePage` and the uniqueness of `Get`'s
  result hold for the model's fixed order only, not for the database.
- Concurrency: the awaits run one after another against one unchanged
  table. The table's writer is the scraper, and the three queries are
  separate statements with no transaction. A scrape run that commits
  between them can make the page, `latestScrapeDate` and the count
  describe different runs. `CountIsFullLength` and `PageAgreesWithCount`
  then do not hold for the real handler.
- JSON serialisation of `Date` values to strings: a date stays an abstract
  timestamp.
- `src/app/page.tsx`, `src/components/ui/card.tsx` and `next.config.ts`:
  user interface and configuration, not part of this model.
