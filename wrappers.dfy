/** Optional values, used wherever the source returns `None` or a regex finds nothing. */
module Wrappers {

  datatype Option<+T> = None | Some(value: T) {

    /** The value, or `default` when there is none (Python's `x if x is not None else default`). */
    function GetOr(default: T): T {
      match this
      case Some(v) => v
      case None => default
    }
  }

  /** The values present in `xs`, in order: what a loop appending each found value builds. */
  function Present<T>(xs: seq<Option<T>>): seq<T> {
    if xs == [] then []
    else Present(xs[..|xs| - 1]) + match xs[|xs| - 1] case Some(x) => [x] case None => []
  }

  lemma PresentSnoc<T>(xs: seq<Option<T>>, y: Option<T>)
    ensures Present(xs + [y]) == Present(xs) + match y case Some(x) => [x] case None => []
  {
    assert (xs + [y])[..|xs|] == xs;
  }

  lemma PresentPrefix<T>(xs: seq<Option<T>>, r: nat)
    requires r < |xs|
    ensures Present(xs[..r + 1]) == Present(xs[..r]) + match xs[r] case Some(x) => [x] case None => []
  {
    assert xs[..r + 1] == xs[..r] + [xs[r]];
    PresentSnoc(xs[..r], xs[r]);
  }

  /** Every value collected was present at some position. */
  lemma {:induction false} PresentFrom<T>(xs: seq<Option<T>>, x: T)
    requires x in Present(xs)
    ensures exists i :: 0 <= i < |xs| && xs[i] == Some(x)
  {
    var init := xs[..|xs| - 1];
    if x in Present(init) {
      PresentFrom(init, x);
      var i :| 0 <= i < |init| && init[i] == Some(x);
      assert xs[i] == Some(x);
    }
  }
}
