/** Python's `xs[:limit]` under `if limit:`, the limit applied by the search and scraper scripts. */
module Sequences {

  /** `xs[:limit]` when `limit` is truthy, `xs` itself for 0 (or `None`); a negative limit drops that many from the end. */
  function Truncate<T>(xs: seq<T>, limit: int): seq<T> {
    if limit == 0 then xs
    else if limit > 0 then xs[..if limit < |xs| then limit else |xs|]
    else xs[..if |xs| + limit > 0 then |xs| + limit else 0]
  }

  lemma TruncateIsPrefix<T>(xs: seq<T>, limit: int)
    ensures Truncate(xs, limit) <= xs
    ensures limit == 0 ==> Truncate(xs, limit) == xs
    ensures limit > 0 ==> |Truncate(xs, limit)| == if limit < |xs| then limit else |xs|
    ensures limit < 0 ==> |Truncate(xs, limit)| == if |xs| + limit > 0 then |xs| + limit else 0
  {
  }

  /** `xs[1:]`: everything after the first element (nothing for an empty list). */
  function Rest<T>(xs: seq<T>): seq<T> {
    if xs == [] then [] else xs[1..]
  }

  /** A prefix one longer is the shorter prefix and the next element. */
  lemma TakeOneMore<T>(xs: seq<T>, r: nat)
    requires r < |xs|
    ensures xs[..r + 1] == xs[..r] + [xs[r]]
  {
  }
}
