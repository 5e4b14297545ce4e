/**
 * `sorted(rows, key=lambda r: (-number, name))`: larger numbers first, ties broken by
 * name in Python's string order. Used for the refinement reports.
 */
module ReportOrder {
  import opened Sorting

  /** `(-n1, a) <= (-n2, b)` as Python compares tuples. */
  predicate Before(n1: int, a: string, n2: int, b: string) {
    n1 > n2 || (n1 == n2 && (a == b || Less(a, b)))
  }

  lemma BeforeTotal(n1: int, a: string, n2: int, b: string)
    ensures Before(n1, a, n2, b) || Before(n2, b, n1, a)
  {
    LessTotal(a, b);
  }

  lemma BeforeTransitive(n1: int, a: string, n2: int, b: string, n3: int, c: string)
    requires Before(n1, a, n2, b) && Before(n2, b, n3, c)
    ensures Before(n1, a, n3, c)
  {
    if n1 == n2 && n2 == n3 && a != b && b != c && a != c {
      LessTransitive(a, b, c);
    }
    if n1 == n2 && n2 == n3 && a == c && a != b {
      LessAsymmetric(a, b);
    }
  }

  /** A report row: the number it is ranked by, the author name, and its payload. */
  datatype Row<T> = Row(number: int, name: string, payload: T)

  predicate RowBefore<T>(x: Row<T>, y: Row<T>) {
    Before(x.number, x.name, y.number, y.name)
  }

  predicate RowsSorted<T>(xs: seq<Row<T>>) {
    forall i, j :: 0 <= i < j < |xs| ==> RowBefore(xs[i], xs[j])
  }

  /** Every row after the head of a sorted sequence comes no earlier than the head. */
  lemma BelowHead<T>(xs: seq<Row<T>>, x: Row<T>)
    requires RowsSorted(xs) && xs != [] && RowBefore(x, xs[0])
    ensures RowsSorted([x] + xs)
  {
    forall j | 0 < j < |xs| ensures RowBefore(x, xs[j]) {
      BeforeTransitive(x.number, x.name, xs[0].number, xs[0].name, xs[j].number, xs[j].name);
    }
  }

  /** The head stays first when a row that does not precede it goes into the tail. */
  lemma HeadFirst<T>(xs: seq<Row<T>>, x: Row<T>, rest: seq<Row<T>>)
    requires RowsSorted(xs) && xs != [] && RowBefore(xs[0], x)
    requires multiset(rest) == multiset(xs[1..]) + multiset{x}
    ensures forall k :: 0 <= k < |rest| ==> RowBefore(xs[0], rest[k])
  {
    forall k | 0 <= k < |rest| ensures RowBefore(xs[0], rest[k]) {
      assert rest[k] in multiset(rest);
      if rest[k] != x {
        assert rest[k] in multiset(xs[1..]);
        var j :| 0 <= j < |xs[1..]| && xs[1..][j] == rest[k];
        assert xs[j + 1] == rest[k];
      }
    }
  }

  /**
   * Inserts `x` after every row that comes no later than it, so rows with equal keys keep
   * their original order, as Python's stable sort does.
   */
  function InsertRow<T>(xs: seq<Row<T>>, x: Row<T>): (r: seq<Row<T>>)
    requires RowsSorted(xs)
    ensures RowsSorted(r)
    ensures multiset(r) == multiset(xs) + multiset{x}
  {
    if xs == [] then [x]
    else if !RowBefore(xs[0], x) then
      BeforeTotal(x.number, x.name, xs[0].number, xs[0].name);
      BelowHead(xs, x);
      [x] + xs
    else
      var rest := InsertRow(xs[1..], x);
      HeadFirst(xs, x, rest);
      var r := [xs[0]] + rest;
      assert r[1..] == rest;
      assert xs == [xs[0]] + xs[1..];
      r
  }

  /** Sorts rows by descending number, then by name. */
  function SortRows<T>(xs: seq<Row<T>>): (r: seq<Row<T>>)
    ensures RowsSorted(r)
    ensures multiset(r) == multiset(xs)
  {
    if xs == [] then []
    else
      assert xs == xs[..|xs| - 1] + [xs[|xs| - 1]];
      InsertRow(SortRows(xs[..|xs| - 1]), xs[|xs| - 1])
  }
}
