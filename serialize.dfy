/**
 * Rows as the raw query hands them to the route (`DbResult`), and the
 * conversion `processDbResult` / `formatBigInt` applies before they are
 * serialised into the JSON envelope.
 */
module Serialize {
  import opened Postings

  /**
   * The JavaScript values a column of a raw-query row can hold. `Number`
   * carries the integer it denotes; float precision is not modelled.
   */
  datatype Value = BigInt(big: int) | Number(num: int) | Str(str: string) | Date(time: int) | Null

  /** A row object: column name to value. */
  type Row = map<string, Value>

  /** `formatBigInt`: a bigint becomes the number of the same value; anything else is returned as it is. */
  function FormatBigInt(v: Value): (r: Value)
    ensures !r.BigInt?
    ensures v.BigInt? ==> r == Number(v.big)
    ensures !v.BigInt? ==> r == v
  {
    match v
    case BigInt(n) => Number(n)
    case _ => v
  }

  /** The row `processDbResult` produces from `item`: same columns, no bigint left, every other value untouched. */
  function Formatted(item: Row): (r: Row)
    ensures r.Keys == item.Keys
    ensures forall k :: k in r ==> !r[k].BigInt?
    ensures forall k :: k in item && !item[k].BigInt? ==> r[k] == item[k]
    ensures forall k :: k in item && item[k].BigInt? ==> r[k] == Number(item[k].big)
  {
    map k | k in item :: FormatBigInt(item[k])
  }

  /**
   * The body of the `map` callback of `processDbResult`: copy the row, then
   * overwrite every entry with its formatted value.
   */
  method ProcessRow(item: Row) returns (processed: Row)
    ensures processed == Formatted(item)
  {
    processed := item;
    var pending := item.Keys;
    while pending != {}
      invariant pending <= item.Keys
      invariant processed.Keys == item.Keys
      invariant forall k :: k in item && k !in pending ==> processed[k] == FormatBigInt(item[k])
      decreases pending
    {
      var k :| k in pending;
      processed := processed[k := FormatBigInt(item[k])];
      pending := pending - {k};
    }
  }

  /** `processDbResult`: as many rows as given, in order, each formatted. */
  method ProcessDbResult(result: seq<Row>) returns (processed: seq<Row>)
    ensures |processed| == |result|
    ensures forall i :: 0 <= i < |result| ==> processed[i] == Formatted(result[i])
  {
    processed := [];
    for i := 0 to |result|
      invariant |processed| == i
      invariant forall j :: 0 <= j < i ==> processed[j] == Formatted(result[j])
    {
      var row := ProcessRow(result[i]);
      processed := processed + [row];
    }
  }

  /**
   * A row of `SELECT * FROM RankedJobs`: the five columns and `rn`. `id` is
   * taken to be a bigint column; `ROW_NUMBER()` is a bigint too.
   */
  function DbRowOf(p: Posting): (r: Row)
    ensures r.Keys == {"id", "title", "company", "apply_link", "created_at", "rn"}
    ensures r["rn"] == BigInt(1)
  {
    map["id" := BigInt(p.id), "title" := Str(p.title), "company" := Str(p.company),
        "apply_link" := Str(p.apply_link), "created_at" := Date(p.created_at), "rn" := BigInt(1)]
  }

  /** A job as the envelope carries it. */
  function JsonRowOf(p: Posting): Row {
    map["id" := Number(p.id), "title" := Str(p.title), "company" := Str(p.company),
        "apply_link" := Str(p.apply_link), "created_at" := Date(p.created_at), "rn" := Number(1)]
  }

  /** Converting a fetched job turns its id and row number into numbers and keeps everything else. */
  lemma FormattedDbRow(p: Posting)
    ensures Formatted(DbRowOf(p)) == JsonRowOf(p)
  {
    var f, j := Formatted(DbRowOf(p)), JsonRowOf(p);
    assert f.Keys == j.Keys;
    forall k | k in f ensures f[k] == j[k] {
    }
  }
}
