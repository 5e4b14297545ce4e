/**
 * Leftmost-first search, the way `re.search` scans a string: try a matcher at every
 * start position from left to right and report the first position where it succeeds.
 */
module Scan {
  import opened Wrappers

  /** The first position `i` in `from..|s|` at which `at(s, i)` succeeds. */
  function FirstIndex<T>(s: string, from: nat, at: (string, nat) -> Option<T>): (r: Option<nat>)
    ensures r.Some? ==> from <= r.value <= |s| && at(s, r.value).Some?
    ensures r.Some? ==> forall j :: from <= j < r.value ==> at(s, j).None?
    ensures r.None? ==> forall j :: from <= j <= |s| ==> at(s, j).None?
    decreases |s| - from
  {
    if from > |s| then None
    else if at(s, from).Some? then Some(from)
    else FirstIndex(s, from + 1, at)
  }

  /** The value of the leftmost match, if there is one. */
  function Search<T>(s: string, at: (string, nat) -> Option<T>): (r: Option<T>)
    ensures r.Some? <==> exists i :: 0 <= i <= |s| && at(s, i).Some?
    ensures r.Some? ==> exists i :: 0 <= i <= |s| && at(s, i) == r && forall j :: 0 <= j < i ==> at(s, j).None?
  {
    match FirstIndex(s, 0, at)
    case Some(i) => at(s, i)
    case None => None
  }

  /** A match at the very start is the leftmost one. */
  lemma SearchAtStart<T>(s: string, at: (string, nat) -> Option<T>)
    requires at(s, 0).Some?
    ensures Search(s, at) == at(s, 0)
  {
    var r := Search(s, at);
    assert r.Some?;
    var i :| 0 <= i <= |s| && at(s, i) == r && forall j :: 0 <= j < i ==> at(s, j).None?;
    assert i == 0;
  }
}
