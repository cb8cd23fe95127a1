/** The row limit of the download handler: `data.head(limit)`. */
module Export {

  /** The first `limit` rows, or all of them when there are fewer. A negative
      limit keeps all rows but the last `-limit`, as pandas' `head` does. */
  function Head<T>(rows: seq<T>, limit: int): (r: seq<T>)
    ensures r <= rows
    ensures limit >= 0 ==> |r| == if limit < |rows| then limit else |rows|
    ensures limit < 0 ==> |r| == if |rows| + limit > 0 then |rows| + limit else 0
  {
    if limit >= 0 then
      if limit < |rows| then rows[..limit] else rows
    else
      if |rows| + limit > 0 then rows[..|rows| + limit] else []
  }

  /** Limiting twice to the same non-negative count changes nothing more. */
  lemma HeadIdempotent<T>(rows: seq<T>, limit: nat)
    ensures Head(Head(rows, limit), limit) == Head(rows, limit)
  {
  }

  /** A scenario: a limit of 2 on five sorted rows keeps the first two, in
      order. */
  lemma HeadExample(a: int, b: int, c: int, d: int, e: int)
    ensures Head([a, b, c, d, e], 2) == [a, b]
  {
  }
}
