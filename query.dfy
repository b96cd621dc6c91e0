/**
 * The three SQL statements of the jobs route, as functions over the contents
 * of the `jobs_jobpost` table (a sequence of rows in storage order):
 *   - `uniqueJobs`: the RankedJobs CTE (WHERE, then ROW_NUMBER per pair),
 *     `rn = 1`, `ORDER BY created_at DESC`, `LIMIT`/`OFFSET`;
 *   - `latestScrapeDate`: `MAX(created_at)`;
 *   - `totalUniqueJobs`: `COUNT(DISTINCT (LOWER(title), LOWER(company)))`
 *     under the same WHERE clause.
 */
module JobsQuery {
  import opened Wrappers
  import opened Text
  import opened Postings
  import opened Pagination

  // ---------------------------------------------------------------- MAX

  /** `SELECT MAX(created_at) FROM jobs_jobpost`: NULL on an empty table. */
  function MaxCreatedAt(store: seq<Posting>): (r: Option<int>)
    ensures r.None? <==> store == []
    ensures r.Some? ==> forall p :: p in store ==> p.created_at <= r.value
    ensures r.Some? ==> exists i :: 0 <= i < |store| && store[i].created_at == r.value
  {
    if store == [] then None
    else
      var rest := MaxCreatedAt(store[1..]);
      if rest.None? || rest.value <= store[0].created_at then Some(store[0].created_at)
      else rest
  }

  // ---------------------------------------------------------------- WHERE

  /** `LOWER(title) LIKE '%lower(search)%' OR LOWER(company) LIKE '%lower(search)%'`, on the folded pair. */
  predicate MatchesPair(search: string, k: Key) {
    Contains(k.0, Lower(search)) || Contains(k.1, Lower(search))
  }

  /** The search predicate of the WHERE clause: it reads a row only through its folded pair. */
  predicate Matches(search: string, p: Posting) {
    MatchesPair(search, KeyOf(p))
  }

  /** Two rows with one folded pair match the same searches. */
  lemma MatchesReadsOnlyPair(search: string, p: Posting, q: Posting)
    requires KeyOf(p) == KeyOf(q)
    ensures Matches(search, p) <==> Matches(search, q)
  {
  }

  /** `created_at = (SELECT MAX(created_at) ...)`: false for every row when the maximum is NULL. */
  predicate InLatestScrape(latest: Option<int>, p: Posting)
    ensures latest.None? ==> !InLatestScrape(latest, p)
    ensures latest.Some? ==> (InLatestScrape(latest, p) <==> p.created_at == latest.value)
  {
    latest == Some(p.created_at)
  }

  /** The rows of `rows` that pass the WHERE clause, in storage order. */
  function Where(rows: seq<Posting>, search: string, latest: Option<int>): (r: seq<Posting>)
    ensures |r| <= |rows|
    ensures forall p :: p in r <==> p in rows && Matches(search, p) && InLatestScrape(latest, p)
  {
    if rows == [] then []
    else
      (if Matches(search, rows[0]) && InLatestScrape(latest, rows[0]) then [rows[0]] else [])
      + Where(rows[1..], search, latest)
  }

  /** The rows of `rows` whose pair satisfies `keep`, in order. */
  function FilterPairs(rows: seq<Posting>, keep: Key -> bool): (r: seq<Posting>)
    ensures forall p :: p in r <==> p in rows && keep(KeyOf(p))
  {
    if rows == [] then []
    else (if keep(KeyOf(rows[0])) then [rows[0]] else []) + FilterPairs(rows[1..], keep)
  }

  /** The rows of `rows` that satisfy the search predicate alone, in order. */
  function Search(rows: seq<Posting>, search: string): (r: seq<Posting>)
    ensures forall p :: p in r <==> p in rows && Matches(search, p)
  {
    FilterPairs(rows, k => MatchesPair(search, k))
  }

  // ---------------------------------------------------------------- ROW_NUMBER

  /**
   * `ROW_NUMBER() OVER (PARTITION BY LOWER(title), LOWER(company) ORDER BY
   * created_at DESC) = 1` for the row at index `i`: no row of its partition
   * is later, and none as late comes before it. The database leaves the
   * order among equal `created_at` open; the model fixes it as storage order.
   */
  predicate RowNumberIsOne(rows: seq<Posting>, i: int)
    requires 0 <= i < |rows|
    ensures RowNumberIsOne(rows, i) ==> forall j :: 0 <= j < |rows| && KeyOf(rows[j]) == KeyOf(rows[i]) ==> rows[j].created_at <= rows[i].created_at
  {
    forall j :: 0 <= j < |rows| && KeyOf(rows[j]) == KeyOf(rows[i]) ==>
      rows[j].created_at < rows[i].created_at || (rows[j].created_at == rows[i].created_at && i <= j)
  }

  /** The rows from index `i` on whose row number is 1, in order. */
  function RankedFrom(rows: seq<Posting>, i: int): (r: seq<Posting>)
    requires 0 <= i <= |rows|
    ensures |r| <= |rows| - i
    decreases |rows| - i
  {
    if i == |rows| then []
    else (if RowNumberIsOne(rows, i) then [rows[i]] else []) + RankedFrom(rows, i + 1)
  }

  /** `SELECT * FROM RankedJobs WHERE rn = 1` (before ordering). */
  function Ranked(rows: seq<Posting>): (r: seq<Posting>)
    ensures |r| <= |rows|
  {
    RankedFrom(rows, 0)
  }

  /** `RankedFrom(rows, i)` holds exactly the rows at index `i` or later whose row number is 1. */
  lemma {:induction false} RankedFromMembers(rows: seq<Posting>, i: int, p: Posting)
    requires 0 <= i <= |rows|
    ensures p in RankedFrom(rows, i) <==> exists j :: i <= j < |rows| && rows[j] == p && RowNumberIsOne(rows, j)
    decreases |rows| - i
  {
    if i < |rows| {
      RankedFromMembers(rows, i + 1, p);
      var head := if RowNumberIsOne(rows, i) then [rows[i]] else [];
      assert RankedFrom(rows, i) == head + RankedFrom(rows, i + 1);
      RankedFromStepMembers(rows, i, p, p in head, p in RankedFrom(rows, i + 1));
    }
  }

  /** One step of `RankedFromMembers`: index `i` itself, or a later index. */
  lemma RankedFromStepMembers(rows: seq<Posting>, i: int, p: Posting, inHead: bool, inTail: bool)
    requires 0 <= i < |rows|
    requires inHead <==> rows[i] == p && RowNumberIsOne(rows, i)
    requires inTail <==> exists j :: i + 1 <= j < |rows| && rows[j] == p && RowNumberIsOne(rows, j)
    ensures inHead || inTail <==> exists j :: i <= j < |rows| && rows[j] == p && RowNumberIsOne(rows, j)
  {
    if j :| i <= j < |rows| && rows[j] == p && RowNumberIsOne(rows, j) {
      if j > i {
        assert i + 1 <= j;
      }
    }
  }

  /** `WHERE rn = 1` keeps exactly the rows whose row number is 1. */
  lemma RankedMembers(rows: seq<Posting>, p: Posting)
    ensures p in Ranked(rows) <==> exists j :: 0 <= j < |rows| && rows[j] == p && RowNumberIsOne(rows, j)
  {
    RankedFromMembers(rows, 0, p);
  }

  // ---------------------------------------------------------------- ORDER BY

  predicate SortedDesc(s: seq<Posting>) {
    forall i, j :: 0 <= i < j < |s| ==> s[i].created_at >= s[j].created_at
  }

  /** Places `x` ahead of the first row that is not later than it. */
  function InsertDesc(x: Posting, s: seq<Posting>): (r: seq<Posting>)
    ensures multiset(r) == multiset(s) + multiset{x}
  {
    if s == [] || s[0].created_at <= x.created_at then [x] + s
    else
      assert s == [s[0]] + s[1..];
      [s[0]] + InsertDesc(x, s[1..])
  }

  /** Inserting a row no later than `bound` into rows no later than `bound` keeps them so. */
  lemma {:induction false} InsertDescBounded(x: Posting, s: seq<Posting>, bound: int)
    requires x.created_at <= bound
    requires forall y :: y in s ==> y.created_at <= bound
    ensures forall y :: y in InsertDesc(x, s) ==> y.created_at <= bound
  {
    if !(s == [] || s[0].created_at <= x.created_at) {
      assert forall y :: y in s[1..] ==> y in s;
      InsertDescBounded(x, s[1..], bound);
    }
  }

  lemma {:induction false} InsertDescSorted(x: Posting, s: seq<Posting>)
    requires SortedDesc(s)
    ensures SortedDesc(InsertDesc(x, s))
  {
    if !(s == [] || s[0].created_at <= x.created_at) {
      var tail := s[1..];
      InsertDescSorted(x, tail);
      var rest := InsertDesc(x, tail);
      assert forall m :: 0 <= m < |tail| ==> tail[m] == s[m + 1];
      InsertDescBounded(x, tail, s[0].created_at);
      var r := [s[0]] + rest;
      forall i, j | 0 <= i < j < |r| ensures r[i].created_at >= r[j].created_at {
        assert r[j] == rest[j - 1] && rest[j - 1] in rest;
        if i > 0 {
          assert r[i] == rest[i - 1];
        }
      }
    }
  }

  /** `ORDER BY created_at DESC`, stable: rows with equal `created_at` keep their order. */
  function SortDesc(rows: seq<Posting>): (r: seq<Posting>)
    ensures multiset(r) == multiset(rows)
  {
    if rows == [] then []
    else
      assert rows == [rows[0]] + rows[1..];
      InsertDesc(rows[0], SortDesc(rows[1..]))
  }

  /** The ordered result is sorted by `created_at`, latest first. */
  lemma {:induction false} SortDescSorted(rows: seq<Posting>)
    ensures SortedDesc(SortDesc(rows))
  {
    if rows != [] {
      SortDescSorted(rows[1..]);
      InsertDescSorted(rows[0], SortDesc(rows[1..]));
    }
  }

  // ---------------------------------------------------------------- the three queries

  /** The whole deduplicated, filtered, ordered result of the `uniqueJobs` query, before LIMIT/OFFSET. */
  function FullList(store: seq<Posting>, search: string): (r: seq<Posting>)
    ensures |r| <= |store|
  {
    var ranked := Ranked(Where(store, search, MaxCreatedAt(store)));
    assert |SortDesc(ranked)| == |multiset(SortDesc(ranked))| == |ranked|;
    SortDesc(ranked)
  }

  /** The `uniqueJobs` query for a page whose OFFSET is not negative. */
  function UniqueJobs(store: seq<Posting>, search: string, page: int): (r: seq<Posting>)
    requires page >= 1
    ensures |r| <= PageSize && |r| <= |store|
  {
    PageOf(FullList(store, search), page)
  }

  /** The `totalUniqueJobs` query. */
  function TotalUniqueJobs(store: seq<Posting>, search: string): (r: nat)
    ensures r <= |store|
    ensures r == 0 <==> Where(store, search, MaxCreatedAt(store)) == []
  {
    var rows := Where(store, search, MaxCreatedAt(store));
    KeySetSize(rows);
    |KeySet(rows)|
  }

  // ---------------------------------------------------------------- first-occurrence dedup

  /**
   * Keeps the first row of each pair not already in `seen`: the reference
   * definition that the ranking reduces to inside one scrape run.
   */
  function DistinctFrom(rows: seq<Posting>, seen: set<Key>): (r: seq<Posting>)
    ensures forall p :: p in r ==> p in rows && KeyOf(p) !in seen
  {
    if rows == [] then []
    else if KeyOf(rows[0]) in seen then DistinctFrom(rows[1..], seen)
    else [rows[0]] + DistinctFrom(rows[1..], seen + {KeyOf(rows[0])})
  }

  /** The first-occurrence dedup never keeps two rows of one pair. */
  lemma {:induction false} DistinctFromDistinct(rows: seq<Posting>, seen: set<Key>)
    ensures DistinctKeys(DistinctFrom(rows, seen))
  {
    if rows != [] {
      var k := KeyOf(rows[0]);
      if k in seen {
        DistinctFromDistinct(rows[1..], seen);
      } else {
        var rest := DistinctFrom(rows[1..], seen + {k});
        DistinctFromDistinct(rows[1..], seen + {k});
        DistinctKeysCons(rows[0], rest);
      }
    }
  }

  /** The first-occurrence dedup keeps one row for every pair not yet seen. */
  lemma {:induction false} DistinctFromKeys(rows: seq<Posting>, seen: set<Key>)
    ensures KeySet(DistinctFrom(rows, seen)) == KeySet(rows) - seen
  {
    if rows != [] {
      var k := KeyOf(rows[0]);
      assert KeySet(rows) == {k} + KeySet(rows[1..]);
      if k in seen {
        DistinctFromKeys(rows[1..], seen);
      } else {
        var rest := DistinctFrom(rows[1..], seen + {k});
        DistinctFromKeys(rows[1..], seen + {k});
        var r := [rows[0]] + rest;
        assert DistinctFrom(rows, seen) == r;
        assert r[1..] == rest;
        assert KeySet(r) == {k} + KeySet(rest);
      }
    }
  }

  predicate AllCreatedAt(rows: seq<Posting>, t: int) {
    forall p :: p in rows ==> p.created_at == t
  }

  /** Within one scrape run, a row has row number 1 exactly when its pair does not occur earlier. */
  lemma RowNumberOneIffFirst(rows: seq<Posting>, t: int, i: int)
    requires AllCreatedAt(rows, t) && 0 <= i < |rows|
    ensures RowNumberIsOne(rows, i) <==> KeyOf(rows[i]) !in KeySet(rows[..i])
  {
    if KeyOf(rows[i]) in KeySet(rows[..i]) {
      var j :| 0 <= j < i && KeyOf(rows[..i][j]) == KeyOf(rows[i]);
      assert rows[..i][j] == rows[j];
      assert rows[j] in rows && rows[i] in rows;
    } else {
      forall j | 0 <= j < |rows| && KeyOf(rows[j]) == KeyOf(rows[i])
        ensures rows[j].created_at == rows[i].created_at && i <= j
      {
        assert rows[j] in rows && rows[i] in rows;
      }
    }
  }

  lemma KeySetExtend(rows: seq<Posting>, i: int)
    requires 0 <= i < |rows|
    ensures KeySet(rows[..i + 1]) == KeySet(rows[..i]) + {KeyOf(rows[i])}
  {
    assert rows[..i + 1] == rows[..i] + [rows[i]];
    KeySetConcat(rows[..i], [rows[i]]);
  }

  lemma DistinctFromUnfold(rows: seq<Posting>, i: int, seen: set<Key>)
    requires 0 <= i < |rows|
    ensures DistinctFrom(rows[i..], seen) ==
      if KeyOf(rows[i]) in seen then DistinctFrom(rows[i + 1..], seen)
      else [rows[i]] + DistinctFrom(rows[i + 1..], seen + {KeyOf(rows[i])})
  {
    assert rows[i..][1..] == rows[i + 1..];
  }

  lemma {:induction false} RankedFromIsDistinctFrom(rows: seq<Posting>, t: int, i: int)
    requires AllCreatedAt(rows, t) && 0 <= i <= |rows|
    ensures RankedFrom(rows, i) == DistinctFrom(rows[i..], KeySet(rows[..i]))
    decreases |rows| - i
  {
    if i < |rows| {
      var seen, k := KeySet(rows[..i]), KeyOf(rows[i]);
      RankedFromIsDistinctFrom(rows, t, i + 1);
      RowNumberOneIffFirst(rows, t, i);
      KeySetExtend(rows, i);
      DistinctFromUnfold(rows, i, seen);
      RankedFromStep(rows, i, seen, seen + {k});
    }
  }

  /** One step of the induction above, with the facts it needs spelt out. */
  lemma RankedFromStep(rows: seq<Posting>, i: int, seen: set<Key>, seen': set<Key>)
    requires 0 <= i < |rows|
    requires seen' == seen + {KeyOf(rows[i])}
    requires RowNumberIsOne(rows, i) <==> KeyOf(rows[i]) !in seen
    requires RankedFrom(rows, i + 1) == DistinctFrom(rows[i + 1..], seen')
    requires DistinctFrom(rows[i..], seen) ==
      if KeyOf(rows[i]) in seen then DistinctFrom(rows[i + 1..], seen)
      else [rows[i]] + DistinctFrom(rows[i + 1..], seen')
    ensures RankedFrom(rows, i) == DistinctFrom(rows[i..], seen)
  {
    if KeyOf(rows[i]) in seen {
      assert seen' == seen;
    }
  }

  /** Within one scrape run, `rn = 1` keeps the first row of every pair. */
  lemma RankedIsFirstOccurrence(rows: seq<Posting>, t: int)
    requires AllCreatedAt(rows, t)
    ensures Ranked(rows) == DistinctFrom(rows, {})
  {
    RankedFromIsDistinctFrom(rows, t, 0);
    assert rows[0..] == rows;
    assert KeySet(rows[..0]) == {};
  }

  lemma InsertDescAtFront(x: Posting, s: seq<Posting>)
    requires s == [] || s[0].created_at <= x.created_at
    ensures InsertDesc(x, s) == [x] + s
  {
  }

  lemma AllCreatedAtTail(rows: seq<Posting>, t: int)
    requires rows != [] && AllCreatedAt(rows, t)
    ensures AllCreatedAt(rows[1..], t)
  {
    forall p | p in rows[1..] ensures p.created_at == t {
      assert p in rows;
    }
  }

  /** Within one scrape run, ordering by `created_at` leaves the rows as they are. */
  lemma {:induction false} SortDescSameRun(rows: seq<Posting>, t: int)
    requires AllCreatedAt(rows, t)
    ensures SortDesc(rows) == rows
  {
    if rows != [] {
      var tail := rows[1..];
      AllCreatedAtTail(rows, t);
      SortDescSameRun(tail, t);
      assert tail != [] ==> tail[0] in rows;
      InsertDescAtFront(rows[0], tail);
      assert rows == [rows[0]] + tail;
    }
  }

  /** The rows passing the WHERE clause all come from the latest scrape run. */
  lemma WhereIsOneRun(store: seq<Posting>, search: string)
    ensures AllCreatedAt(Where(store, search, MaxCreatedAt(store)), if store == [] then 0 else MaxCreatedAt(store).value)
  {
  }

  /** The canonical result: one row per pair (its first occurrence in storage order) among the rows passing the WHERE clause. */
  lemma FullListIsFirstOccurrence(store: seq<Posting>, search: string)
    ensures FullList(store, search) == DistinctFrom(Where(store, search, MaxCreatedAt(store)), {})
  {
    var rows := Where(store, search, MaxCreatedAt(store));
    var t := if store == [] then 0 else MaxCreatedAt(store).value;
    WhereIsOneRun(store, search);
    RankedIsFirstOccurrence(rows, t);
    var d := DistinctFrom(rows, {});
    SortDescSameRun(d, t);
  }

  // ---------------------------------------------------------------- filtering before or after partitioning

  /** The empty search term matches every row. */
  lemma EmptySearchMatchesAll(p: Posting)
    ensures Matches("", p)
  {
    assert Lower("") == "";
    ContainsEmpty(Lower(p.title));
  }

  /** The WHERE clause is the latest-scrape gate followed by the search predicate. */
  lemma {:induction false} WhereIsGateThenSearch(rows: seq<Posting>, search: string, latest: Option<int>)
    ensures Where(rows, search, latest) == Search(Where(rows, "", latest), search)
  {
    if rows != [] {
      var x, rest := rows[0], rows[1..];
      EmptySearchMatchesAll(x);
      WhereIsGateThenSearch(rest, search, latest);
      var gated := Where(rest, "", latest);
      if InLatestScrape(latest, x) {
        assert Where(rows, "", latest) == [x] + gated;
        assert ([x] + gated)[1..] == gated;
      } else {
        assert Where(rows, "", latest) == gated;
      }
    }
  }

  /** Marking as seen a pair that never occurs changes nothing. */
  lemma {:induction false} DistinctFromIgnoresAbsent(rows: seq<Posting>, seen: set<Key>, k: Key)
    requires k !in KeySet(rows)
    ensures DistinctFrom(rows, seen + {k}) == DistinctFrom(rows, seen)
  {
    if rows != [] {
      var k0 := KeyOf(rows[0]);
      assert KeySet(rows) == {k0} + KeySet(rows[1..]);
      if k0 !in seen {
        assert seen + {k} + {k0} == seen + {k0} + {k};
        DistinctFromIgnoresAbsent(rows[1..], seen + {k0}, k);
      } else {
        DistinctFromIgnoresAbsent(rows[1..], seen, k);
      }
    }
  }

  /** Filtering by any condition on the pair before or after the dedup gives the same rows. */
  lemma {:induction false} FilterCommutesWithDistinct(rows: seq<Posting>, keep: Key -> bool, seen: set<Key>)
    ensures DistinctFrom(FilterPairs(rows, keep), seen) == FilterPairs(DistinctFrom(rows, seen), keep)
  {
    if rows != [] {
      var x, rest, k := rows[0], rows[1..], KeyOf(rows[0]);
      var f := FilterPairs(rest, keep);
      if keep(k) {
        assert FilterPairs(rows, keep) == [x] + f;
        assert ([x] + f)[1..] == f;
      } else {
        assert FilterPairs(rows, keep) == f;
      }
      if k in seen {
        FilterCommutesWithDistinct(rest, keep, seen);
      } else {
        var d := DistinctFrom(rest, seen + {k});
        FilterCommutesWithDistinct(rest, keep, seen + {k});
        assert DistinctFrom(rows, seen) == [x] + d;
        assert ([x] + d)[1..] == d;
        if !keep(k) {
          assert k !in KeySet(f) by {
            forall j | 0 <= j < |f| ensures KeyOf(f[j]) != k {
              assert f[j] in f;
            }
          }
          DistinctFromIgnoresAbsent(f, seen, k);
        }
      }
    }
  }

  /**
   * The route filters before partitioning; because the predicate depends only
   * on the pair, this is the same as searching the canonical rows of the
   * whole latest scrape run.
   */
  lemma SearchAfterDedup(store: seq<Posting>, search: string)
    ensures FullList(store, search) == Search(FullList(store, ""), search)
  {
    var latest := MaxCreatedAt(store);
    FullListIsFirstOccurrence(store, search);
    FullListIsFirstOccurrence(store, "");
    WhereIsGateThenSearch(store, search, latest);
    FilterCommutesWithDistinct(Where(store, "", latest), k => MatchesPair(search, k), {});
  }

  // ---------------------------------------------------------------- what a page holds

  /** Every row of the full result is a row of the latest scrape run that matches the search. */
  lemma FullListRows(store: seq<Posting>, search: string)
    ensures forall p :: p in FullList(store, search) ==>
      p in store && InLatestScrape(MaxCreatedAt(store), p) && Matches(search, p)
  {
    FullListIsFirstOccurrence(store, search);
  }

  /** The full result never holds two rows of one pair. */
  lemma FullListDistinct(store: seq<Posting>, search: string)
    ensures DistinctKeys(FullList(store, search))
  {
    FullListIsFirstOccurrence(store, search);
    DistinctFromDistinct(Where(store, search, MaxCreatedAt(store)), {});
  }

  /** Gate and predicate: every returned row is from the latest scrape of the whole table and matches the search. */
  lemma JobsAreLatestAndMatch(store: seq<Posting>, search: string, page: int)
    requires page >= 1
    ensures forall p :: p in UniqueJobs(store, search, page) ==>
      p in store && MaxCreatedAt(store) == Some(p.created_at) && Matches(search, p)
  {
    FullListRows(store, search);
    var w, s := UniqueJobs(store, search, page), FullList(store, search);
    forall p | p in w ensures p in s {
      var k :| 0 <= k < |w| && w[k] == p;
    }
  }

  /** A window of rows with distinct pairs has distinct pairs. */
  lemma WindowKeepsDistinct(s: seq<Posting>, offset: nat, limit: nat)
    requires DistinctKeys(s)
    ensures DistinctKeys(Window(s, offset, limit))
  {
    var w := Window(s, offset, limit);
    forall i, j | 0 <= i < j < |w| ensures KeyOf(w[i]) != KeyOf(w[j]) {
      assert w[i] == s[offset + i] && w[j] == s[offset + j];
    }
  }

  /** No returned page holds two rows with the same case-folded (title, company) pair. */
  lemma NoDuplicatePairs(store: seq<Posting>, search: string, page: int)
    requires page >= 1
    ensures DistinctKeys(UniqueJobs(store, search, page))
  {
    FullListDistinct(store, search);
    WindowKeepsDistinct(FullList(store, search), (page - 1) * PageSize, PageSize);
  }

  /** `totalJobs` is the length of the unpaginated deduplicated result, whatever the page. */
  lemma CountIsFullLength(store: seq<Posting>, search: string)
    ensures TotalUniqueJobs(store, search) == |FullList(store, search)|
  {
    var rows := Where(store, search, MaxCreatedAt(store));
    FullListIsFirstOccurrence(store, search);
    DistinctFromDistinct(rows, {});
    DistinctFromKeys(rows, {});
    assert KeySet(rows) - {} == KeySet(rows);
    DistinctKeysCount(DistinctFrom(rows, {}));
  }

  /** The page has the length the count predicts, and is empty exactly past the last page. */
  lemma PageAgreesWithCount(store: seq<Posting>, search: string, page: int)
    requires page >= 1
    ensures var total, offset := TotalUniqueJobs(store, search), (page - 1) * PageSize;
      |UniqueJobs(store, search, page)| ==
        if offset >= total then 0 else if total - offset >= PageSize then PageSize else total - offset
    ensures UniqueJobs(store, search, page) == [] <==> page > TotalPages(TotalUniqueJobs(store, search))
  {
    var s := FullList(store, search);
    CountIsFullLength(store, search);
    PageLength(s, page);
    PageEmptyIffBeyondLast(s, page);
  }

  /** Pages `1..totalPages`, concatenated, are the whole deduplicated, filtered, ordered result. */
  lemma PagesReassembleFullList(store: seq<Posting>, search: string)
    ensures Pages(FullList(store, search), TotalPages(TotalUniqueJobs(store, search))) == FullList(store, search)
  {
    CountIsFullLength(store, search);
    PagesReassemble(FullList(store, search));
  }

  /** Pair `k` is shown on page `page`. */
  predicate PairOnPage(store: seq<Posting>, search: string, page: int, k: Key)
    requires page >= 1
  {
    k in KeySet(UniqueJobs(store, search, page))
  }

  /** Pair `k` is shown on page `page` exactly when it is the pair of a row of the full result whose index lies in that page. */
  lemma PairOnPageAt(store: seq<Posting>, search: string, page: int, k: Key)
    requires page >= 1
    ensures PairOnPage(store, search, page, k) <==>
      exists i :: (page - 1) * PageSize <= i < page * PageSize && 0 <= i < |FullList(store, search)| && KeyOf(FullList(store, search)[i]) == k
  {
    KeyOnPage(FullList(store, search), page, k);
  }

  /** A pair is among those of page `page` of `s` exactly when a row of `s` with an index in that page carries it. */
  lemma KeyOnPage(s: seq<Posting>, page: int, k: Key)
    requires page >= 1
    ensures k in KeySet(PageOf(s, page)) <==>
      exists i :: (page - 1) * PageSize <= i < page * PageSize && 0 <= i < |s| && KeyOf(s[i]) == k
  {
    var o := (page - 1) * PageSize;
    assert o + PageSize == page * PageSize;
    KeyOnPageIff(s, PageOf(s, page), o, k);
  }

  /** A pair is among those of the window of `s` at offset `o` exactly when a row of `s` with an index in that window's range carries it. */
  lemma KeyOnPageIff(s: seq<Posting>, w: seq<Posting>, o: int, k: Key)
    requires 0 <= o
    requires |w| == if o >= |s| then 0 else if o + PageSize <= |s| then PageSize else |s| - o
    requires forall j :: 0 <= j < |w| ==> w[j] == s[o + j]
    ensures k in KeySet(w) <==> exists i :: o <= i < o + PageSize && 0 <= i < |s| && KeyOf(s[i]) == k
  {
    if k in KeySet(w) {
      var m :| 0 <= m < |w| && KeyOf(w[m]) == k;
      assert w[m] == s[o + m];
    }
    if i :| o <= i < o + PageSize && 0 <= i < |s| && KeyOf(s[i]) == k {
      assert w[i - o] == s[i];
      assert w[i - o] in w;
    }
  }

  /** Completeness: every pair of the latest scrape run that matches the search is shown on some page within `totalPages`. */
  lemma PairOnSomePage(store: seq<Posting>, search: string, p: Posting)
    requires p in store && InLatestScrape(MaxCreatedAt(store), p) && Matches(search, p)
    ensures exists page ::
      1 <= page <= TotalPages(TotalUniqueJobs(store, search)) && PairOnPage(store, search, page, KeyOf(p))
  {
    var rows, s, k := Where(store, search, MaxCreatedAt(store)), FullList(store, search), KeyOf(p);
    FullListIsFirstOccurrence(store, search);
    DistinctFromKeys(rows, {});
    CountIsFullLength(store, search);
    assert k in KeySet(rows);
    assert k in KeySet(s);
    var i :| 0 <= i < |s| && KeyOf(s[i]) == k;
    var page := RowOnItsPage(s, i);
    var w := UniqueJobs(store, search, page);
    assert w[i % PageSize] in w;
    assert PairOnPage(store, search, page, k);
  }

  /** No pair is shown on two different pages. */
  lemma PairOnAtMostOnePage(store: seq<Posting>, search: string, k: Key, page1: int, page2: int)
    requires 1 <= page1 && 1 <= page2
    ensures PairOnPage(store, search, page1, k) && PairOnPage(store, search, page2, k) ==> page1 == page2
  {
    if PairOnPage(store, search, page1, k) && PairOnPage(store, search, page2, k) {
      FullListDistinct(store, search);
      PairOnPageAt(store, search, page1, k);
      PairOnPageAt(store, search, page2, k);
      KeyOnTwoPages(FullList(store, search), k, page1, page2);
    }
  }

  /** In rows with distinct pairs, a pair carried by rows in the ranges of two pages puts both pages at one number. */
  lemma KeyOnTwoPages(s: seq<Posting>, k: Key, page1: int, page2: int)
    requires DistinctKeys(s)
    requires exists i :: (page1 - 1) * PageSize <= i < page1 * PageSize && 0 <= i < |s| && KeyOf(s[i]) == k
    requires exists i :: (page2 - 1) * PageSize <= i < page2 * PageSize && 0 <= i < |s| && KeyOf(s[i]) == k
    ensures page1 == page2
  {
    var i1 :| (page1 - 1) * PageSize <= i1 < page1 * PageSize && 0 <= i1 < |s| && KeyOf(s[i1]) == k;
    var i2 :| (page2 - 1) * PageSize <= i2 < page2 * PageSize && 0 <= i2 < |s| && KeyOf(s[i2]) == k;
    DistinctKeysInjective(s);
    assert i1 == i2;
    PageOfIndex(i1, page1);
    PageOfIndex(i1, page2);
  }

  /** The only page whose index range holds index `i` is page `i / 10 + 1`. */
  lemma PageOfIndex(i: int, page: int)
    requires (page - 1) * PageSize <= i < page * PageSize
    ensures page == i / PageSize + 1
  {
  }

  // ---------------------------------------------------------------- ordering, empty results, an example

  /** The full result is the `rn = 1` rows, reordered latest first. */
  lemma FullListIsOrderedRanking(store: seq<Posting>, search: string)
    ensures SortedDesc(FullList(store, search))
    ensures multiset(FullList(store, search)) == multiset(Ranked(Where(store, search, MaxCreatedAt(store))))
  {
    SortDescSorted(Ranked(Where(store, search, MaxCreatedAt(store))));
  }

  /** When no row of the latest scrape run matches, there are no jobs, no count and no pages. */
  lemma NoMatchGivesNothing(store: seq<Posting>, search: string)
    requires forall p :: p in store && InLatestScrape(MaxCreatedAt(store), p) ==> !Matches(search, p)
    ensures FullList(store, search) == []
    ensures TotalUniqueJobs(store, search) == 0
    ensures TotalPages(TotalUniqueJobs(store, search)) == 0
  {
    var rows := Where(store, search, MaxCreatedAt(store));
    assert forall p :: p !in rows;
    CountIsFullLength(store, search);
  }

  /**
   * Three rows of one pair from three scrape runs: only the row of the
   * latest run is returned, and the count is one.
   */
  lemma LatestRunOnlyExample(a: Posting, b: Posting, c: Posting)
    requires KeyOf(a) == KeyOf(b) == KeyOf(c)
    requires c.created_at < a.created_at < b.created_at
    ensures FullList([a, b, c], "") == [b] && TotalUniqueJobs([a, b, c], "") == 1
  {
    var store := [a, b, c];
    ExampleWhere(a, b, c);
    FullListIsFirstOccurrence(store, "");
    assert DistinctFrom([b], {}) == [b];
    CountIsFullLength(store, "");
  }

  /** In the example store, only the newest run's row passes the gate. */
  lemma ExampleWhere(a: Posting, b: Posting, c: Posting)
    requires c.created_at < a.created_at < b.created_at
    ensures Where([a, b, c], "", MaxCreatedAt([a, b, c])) == [b]
  {
    var store := [a, b, c];
    assert store[1..] == [b, c] && store[1..][1..] == [c] && [c][1..] == [];
    assert MaxCreatedAt(store) == Some(b.created_at);
    EmptySearchMatchesAll(b);
    var latest := Some(b.created_at);
    assert Where([c], "", latest) == [] + Where([], "", latest);
    assert Where([b, c], "", latest) == [b] + Where([c], "", latest);
    assert Where(store, "", latest) == [] + Where([b, c], "", latest);
  }

  /** "Engineer" at "Acme" and "engineer" at "ACME" are one pair. */
  lemma ExamplePairsCoincide()
    ensures KeyOf(Posting(1, "Engineer", "Acme", "https://a", 1)) == KeyOf(Posting(2, "engineer", "ACME", "https://b", 2))
  {
  }
}
