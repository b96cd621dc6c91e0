/**
 * A row of the `jobs_jobpost` table and the case-folded (title, company) pair
 * that the query partitions and counts by.
 */
module Postings {
  import opened Text

  /** One scraped occurrence of a job; `created_at` identifies the scrape run. */
  datatype Posting = Posting(id: int, title: string, company: string, apply_link: string, created_at: int)

  /** `(LOWER(title), LOWER(company))`. */
  type Key = (string, string)

  function KeyOf(p: Posting): (r: Key)
    ensures |r.0| == |p.title| && |r.1| == |p.company|
    ensures forall i :: 0 <= i < |p.title| ==> r.0[i] == LowerChar(p.title[i])
    ensures forall i :: 0 <= i < |p.company| ==> r.1[i] == LowerChar(p.company[i])
  {
    (Lower(p.title), Lower(p.company))
  }

  /** Rows whose titles and companies differ only in the case of ASCII letters share a pair. */
  lemma KeyOfIgnoresCase(p: Posting, q: Posting)
    requires |p.title| == |q.title| && forall i :: 0 <= i < |p.title| ==> SameUpToCase(p.title[i], q.title[i])
    requires |p.company| == |q.company| && forall i :: 0 <= i < |p.company| ==> SameUpToCase(p.company[i], q.company[i])
    ensures KeyOf(p) == KeyOf(q)
  {
    forall i | 0 <= i < |p.title| ensures LowerChar(p.title[i]) == LowerChar(q.title[i]) {
      LowerCharIgnoresCase(p.title[i], q.title[i]);
    }
    forall i | 0 <= i < |p.company| ensures LowerChar(p.company[i]) == LowerChar(q.company[i]) {
      LowerCharIgnoresCase(p.company[i], q.company[i]);
    }
    var kp, kq := KeyOf(p), KeyOf(q);
    assert kp.0 == kq.0;
    assert kp.1 == kq.1;
  }

  /** The distinct pairs of a sequence of rows: what `COUNT(DISTINCT ...)` counts. */
  function KeySet(rows: seq<Posting>): (r: set<Key>)
    ensures forall p :: p in rows ==> KeyOf(p) in r
    ensures forall k :: k in r ==> exists i :: 0 <= i < |rows| && KeyOf(rows[i]) == k
  {
    if rows == [] then {} else {KeyOf(rows[0])} + KeySet(rows[1..])
  }

  /** There are never more distinct pairs than rows. */
  lemma {:induction false} KeySetSize(rows: seq<Posting>)
    ensures |KeySet(rows)| <= |rows|
  {
    if rows != [] {
      KeySetSize(rows[1..]);
    }
  }

  /** No two rows share a case-folded pair. */
  predicate DistinctKeys(rows: seq<Posting>) {
    forall i, j :: 0 <= i < j < |rows| ==> KeyOf(rows[i]) != KeyOf(rows[j])
  }

  lemma {:induction false} KeySetConcat(a: seq<Posting>, b: seq<Posting>)
    ensures KeySet(a + b) == KeySet(a) + KeySet(b)
  {
    if a != [] {
      assert (a + b)[1..] == a[1..] + b;
      KeySetConcat(a[1..], b);
    } else {
      assert a + b == b;
    }
  }

  /** Rows with pairwise distinct pairs are as many as their pairs. */
  lemma {:induction false} DistinctKeysCount(rows: seq<Posting>)
    requires DistinctKeys(rows)
    ensures |KeySet(rows)| == |rows|
  {
    if rows != [] {
      DistinctKeysTail(rows);
      DistinctKeysCount(rows[1..]);
    }
  }

  /** Dropping the first row keeps the pairs distinct, and the first pair is absent from the rest. */
  lemma DistinctKeysTail(rows: seq<Posting>)
    requires DistinctKeys(rows) && rows != []
    ensures DistinctKeys(rows[1..])
    ensures KeyOf(rows[0]) !in KeySet(rows[1..])
  {
    var rest := rows[1..];
    forall i, j | 0 <= i < j < |rest| ensures KeyOf(rest[i]) != KeyOf(rest[j]) {
      assert rest[i] == rows[i + 1] && rest[j] == rows[j + 1];
    }
    forall j | 0 <= j < |rest| ensures KeyOf(rest[j]) != KeyOf(rows[0]) {
      assert rest[j] == rows[j + 1];
    }
  }

  /** A row whose pair is new, in front of rows with distinct pairs, keeps the pairs distinct. */
  lemma DistinctKeysCons(x: Posting, rest: seq<Posting>)
    requires DistinctKeys(rest)
    requires forall p :: p in rest ==> KeyOf(p) != KeyOf(x)
    ensures DistinctKeys([x] + rest)
  {
    var r := [x] + rest;
    forall i, j | 0 <= i < j < |r| ensures KeyOf(r[i]) != KeyOf(r[j]) {
      assert r[j] == rest[j - 1] && rest[j - 1] in rest;
      if i > 0 {
        assert r[i] == rest[i - 1];
      }
    }
  }

  /** In rows with distinct pairs, a pair determines its index. */
  lemma DistinctKeysInjective(rows: seq<Posting>)
    requires DistinctKeys(rows)
    ensures forall i, j :: 0 <= i < |rows| && 0 <= j < |rows| && KeyOf(rows[i]) == KeyOf(rows[j]) ==> i == j
  {
  }
}
