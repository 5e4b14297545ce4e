/**
 * The batch driver of check_availability.py, `check_all_books`: every book of every author
 * whose search count is not 0 is checked in turn, up to an optional limit, and the available
 * ones are collected as the availability artifact.
 */
module AvailabilityBatch {
  import opened Wrappers
  import opened Catalog

  /** One record of the availability artifact. */
  datatype AvailableBook = AvailableBook(
    title: string, author: string, id: string, url: string,
    availableCopies: nat, ownedCopies: nat, formats: seq<string>, description: Option<string>)

  /** Each book of one author, paired with the author's key. */
  function Pairs(author: string, books: seq<Book>): (r: seq<(string, Book)>)
    ensures |r| == |books|
  {
    if books == [] then [] else [(author, books[0])] + Pairs(author, books[1..])
  }

  lemma {:induction false} PairsAt(author: string, books: seq<Book>, k: nat)
    requires k < |books|
    ensures Pairs(author, books)[k] == (author, books[k])
  {
    if k > 0 { PairsAt(author, books[1..], k - 1); }
  }

  /** The books an author contributes: none when the stored count is 0, whatever the book list holds. */
  function Part(e: (string, SearchEntry)): seq<(string, Book)> {
    if e.1.count == 0 then [] else Pairs(e.0, e.1.books)
  }

  /** Every (author, book) pair the loops visit when no limit interrupts them, in dictionary order. */
  function Flatten(data: seq<(string, SearchEntry)>): seq<(string, Book)> {
    if data == [] then [] else Flatten(data[..|data| - 1]) + Part(data[|data| - 1])
  }

  lemma FlattenTake(data: seq<(string, SearchEntry)>, a: nat)
    requires a < |data|
    ensures Flatten(data[..a + 1]) == Flatten(data[..a]) + Part(data[a])
  {
    assert data[..a + 1][..a] == data[..a];
  }

  lemma PrefixTransitive<T>(xs: seq<T>, ys: seq<T>, zs: seq<T>)
    requires xs <= ys && ys <= zs
    ensures xs <= zs
  {
    assert xs == ys[..|xs|] && ys == zs[..|ys|];
    assert zs[..|ys|][..|xs|] == zs[..|xs|];
  }

  /** The pairs of the first `a` authors come first among all the pairs. */
  lemma {:induction false} FlattenPrefix(data: seq<(string, SearchEntry)>, a: nat)
    requires a <= |data|
    ensures Flatten(data[..a]) <= Flatten(data)
    decreases |data| - a
  {
    if a == |data| {
      assert data[..a] == data;
    } else {
      FlattenTake(data, a);
      FlattenPrefix(data, a + 1);
      PrefixTransitive(Flatten(data[..a]), Flatten(data[..a + 1]), Flatten(data));
    }
  }

  lemma SliceSnoc<T>(done: seq<T>, xs: seq<T>, k: nat)
    requires k < |xs|
    ensures done + xs[..k + 1] == (done + xs[..k]) + [xs[k]]
  {
    assert xs[..k + 1] == xs[..k] + [xs[k]];
  }

  /** Stopping part-way through an author's books still leaves a prefix of all the pairs. */
  lemma PrefixOfTaken<T>(done: seq<T>, part: seq<T>, count: nat, all: seq<T>)
    requires done + part <= all && count <= |part|
    ensures done + part[..count] <= all
  {
    assert done + part[..count] == (done + part)[..|done| + count];
    PrefixTransitive(done + part[..count], done + part, all);
  }

  /** `if limit` is truthy, at most `limit` books are checked; a negative limit stops before the first book. */
  function Limited<T>(xs: seq<T>, limit: int): seq<T> {
    if limit == 0 then xs else if limit < 0 then [] else xs[..if limit < |xs| then limit else |xs|]
  }

  /** The limit a truthy `limit` sets: the first `limit` pairs, all of them for 0, none when negative. */
  lemma LimitedShape<T>(xs: seq<T>, limit: int)
    ensures limit == 0 ==> Limited(xs, limit) == xs
    ensures limit < 0 ==> Limited(xs, limit) == []
    ensures limit > 0 ==> Limited(xs, limit) <= xs && |Limited(xs, limit)| == if limit < |xs| then limit else |xs|
  {
  }

  /** The record for one checked book, or nothing when the probe says it is not available. */
  function Record(check: string -> Probe, ab: (string, Book)): Option<AvailableBook> {
    var p := check(MediaUrl(ab.1.id));
    if p.available then
      Some(AvailableBook(ab.1.title, ab.0, ab.1.id, MediaUrl(ab.1.id), p.availableCopies, p.ownedCopies, ab.1.formats, p.description))
    else None
  }

  function Kept(o: Option<AvailableBook>): seq<AvailableBook> {
    match o
    case Some(b) => [b]
    case None => []
  }

  /** The records kept from the checked books: exactly those found available, in checking order. */
  function AvailableOf(check: string -> Probe, checked: seq<(string, Book)>): (r: seq<AvailableBook>)
  {
    if checked == [] then []
    else AvailableOf(check, checked[..|checked| - 1]) + Kept(Record(check, checked[|checked| - 1]))
  }

  /** A kept record is exactly what the probe of its own url reported, and the probe said available. */
  predicate FromProbe(check: string -> Probe, r: AvailableBook) {
    var p := check(r.url);
    r.url == MediaUrl(r.id) && p.available &&
    r.availableCopies == p.availableCopies && r.ownedCopies == p.ownedCopies && r.description == p.description
  }

  lemma {:induction false} AvailableOfFromProbe(check: string -> Probe, xs: seq<(string, Book)>)
    ensures forall r :: r in AvailableOf(check, xs) ==> FromProbe(check, r)
    decreases |xs|
  {
    if xs != [] {
      AvailableOfFromProbe(check, xs[..|xs| - 1]);
    }
  }

  /** Every checked book whose probe says available has its record kept. */
  lemma {:induction false} AvailableOfKeeps(check: string -> Probe, xs: seq<(string, Book)>, k: nat)
    requires k < |xs| && check(MediaUrl(xs[k].1.id)).available
    ensures Record(check, xs[k]).Some? && Record(check, xs[k]).value in AvailableOf(check, xs)
    decreases |xs|
  {
    if k < |xs| - 1 {
      var init := xs[..|xs| - 1];
      assert init[k] == xs[k];
      AvailableOfKeeps(check, init, k);
    }
  }

  lemma AvailableOfSnoc(check: string -> Probe, xs: seq<(string, Book)>, x: (string, Book))
    ensures AvailableOf(check, xs + [x]) == AvailableOf(check, xs) + Kept(Record(check, x))
  {
    assert (xs + [x])[..|xs|] == xs;
  }

  /** One more book checked: its record, if any, goes after those of the books before it. */
  lemma CheckStep(check: string -> Probe, done: seq<(string, Book)>, ps: seq<(string, Book)>, k: nat,
                  available: seq<AvailableBook>, record: Option<AvailableBook>)
    requires k < |ps| && available == AvailableOf(check, done + ps[..k]) && record == Record(check, ps[k])
    ensures available + Kept(record) == AvailableOf(check, done + ps[..k + 1])
  {
    SliceSnoc(done, ps, k);
    AvailableOfSnoc(check, done + ps[..k], ps[k]);
  }

  predicate WithinLimit(checked: nat, limit: int) {
    limit == 0 || (limit > 0 && checked <= limit) || (limit < 0 && checked == 0)
  }

  /** Where the loops stop, the checked pairs are exactly `Limited(xs, limit)`. */
  lemma LimitedPrefix(check: string -> Probe, xs: seq<(string, Book)>, done: seq<(string, Book)>, limit: int)
    requires done <= xs && WithinLimit(|done|, limit)
    requires |done| == |xs| || (limit != 0 && |done| >= limit)
    ensures |done| == |Limited(xs, limit)|
    ensures AvailableOf(check, done) == AvailableOf(check, Limited(xs, limit))
  {
    if limit == 0 {
      assert done == xs;
    } else if limit < 0 {
      assert done == [];
    } else {
      assert done == xs[..|done|];
    }
  }

  /** An author whose books were all visited: the pairs checked are those of `data[..a + 1]`. */
  lemma AdvanceAuthor(data: seq<(string, SearchEntry)>, a: nat, done: seq<(string, Book)>, count: nat)
    requires a < |data| && done == Flatten(data[..a]) && count == |Part(data[a])|
    ensures done + Part(data[a])[..count] == done + Part(data[a]) == Flatten(data[..a + 1])
  {
    assert Part(data[a])[..count] == Part(data[a]);
    FlattenTake(data, a);
  }

  /** An author during whose books the limit was reached: the pairs checked are the limited ones. */
  lemma StopAtAuthor(check: string -> Probe, data: seq<(string, SearchEntry)>, a: nat, done: seq<(string, Book)>,
                     count: nat, limit: int)
    requires a < |data| && done == Flatten(data[..a]) && count <= |Part(data[a])|
    requires WithinLimit(|done| + count, limit) && limit != 0 && |done| + count >= limit
    ensures AvailableOf(check, done + Part(data[a])[..count]) == AvailableOf(check, Limited(Flatten(data), limit))
    ensures |done| + count == |Limited(Flatten(data), limit)|
  {
    FlattenTake(data, a);
    FlattenPrefix(data, a + 1);
    PrefixOfTaken(done, Part(data[a]), count, Flatten(data));
    LimitedPrefix(check, Flatten(data), done + Part(data[a])[..count], limit);
  }

  /** When every author has been visited, all the pairs were checked. */
  lemma Finish(check: string -> Probe, data: seq<(string, SearchEntry)>, a: nat, done: seq<(string, Book)>, limit: int)
    requires a == |data| && done == Flatten(data[..a]) && WithinLimit(|done|, limit)
    ensures AvailableOf(check, done) == AvailableOf(check, Limited(Flatten(data), limit))
    ensures |done| == |Limited(Flatten(data), limit)|
  {
    assert data[..a] == data;
    FlattenPrefix(data, a);
    LimitedPrefix(check, Flatten(data), done, limit);
  }

  /**
   * The inner loop of `check_all_books` over one author's books: each available one is appended
   * to `available0`, and the loop stops before a book once `limit` books have been checked
   * overall, `checked0` of them (the pairs `done`) before this author.
   */
  method CheckBooksOf(check: string -> Probe, author: string, books: seq<Book>, limit: int,
                      checked0: nat, ghost done: seq<(string, Book)>, available0: seq<AvailableBook>)
    returns (available: seq<AvailableBook>, count: nat)
    requires checked0 == |done| && WithinLimit(checked0, limit) && available0 == AvailableOf(check, done)
    ensures count <= |books| && WithinLimit(checked0 + count, limit)
    ensures count == |books| || (limit != 0 && checked0 + count >= limit)
    ensures available == AvailableOf(check, done + Pairs(author, books)[..count])
  {
    available, count := available0, 0;
    ghost var ps := Pairs(author, books);
    assert done + ps[..0] == done;
    while count < |books|
      invariant count <= |books| && WithinLimit(checked0 + count, limit) && (limit < 0 ==> count == 0)
      invariant available == AvailableOf(check, done + ps[..count])
    {
      if limit != 0 && checked0 + count >= limit {
        break;
      }
      PairsAt(author, books, count);
      var record := Record(check, (author, books[count]));
      CheckStep(check, done, ps, count, available, record);
      available := available + Kept(record);
      count := count + 1;
    }
  }

  /**
   * One author of `check_all_books`: an author whose count is 0 is skipped, the books of any
   * other are checked. `stop` is the outer loop's break, taken once the limit is reached.
   */
  method CheckAuthor(check: string -> Probe, e: (string, SearchEntry), limit: int,
                     checked0: nat, ghost done: seq<(string, Book)>, available0: seq<AvailableBook>)
    returns (available: seq<AvailableBook>, count: nat, stop: bool)
    requires checked0 == |done| && WithinLimit(checked0, limit) && available0 == AvailableOf(check, done)
    ensures count <= |Part(e)| && WithinLimit(|done| + count, limit)
    ensures stop <==> e.1.count != 0 && limit != 0 && |done| + count >= limit
    ensures !stop ==> count == |Part(e)|
    ensures available == AvailableOf(check, done + Part(e)[..count])
  {
    if e.1.count == 0 {
      assert done + Part(e)[..0] == done;
      return available0, 0, false;
    }
    available, count := CheckBooksOf(check, e.0, e.1.books, limit, checked0, done, available0);
    stop := limit != 0 && checked0 + count >= limit;
  }

  /**
   * `check_all_books`: visits the books of every author whose count is not 0, checks each
   * title's page with `check` (the source's is `CheckAvailabilityOf(c, fetch)`) until `limit`
   * books have been checked, and keeps the available ones. One wait follows every check.
   */
  method CheckAllBooks(check: string -> Probe, data: seq<(string, SearchEntry)>, limit: int)
    returns (available: seq<AvailableBook>, waits: nat)
    ensures available == AvailableOf(check, Limited(Flatten(data), limit))
    ensures waits == |Limited(Flatten(data), limit)|
  {
    ghost var done := [];
    available, waits := [], 0;
    var a := 0;
    while a < |data|
      invariant 0 <= a <= |data|
      invariant done == Flatten(data[..a]) && waits == |done|
      invariant WithinLimit(waits, limit) && available == AvailableOf(check, done)
    {
      var count, stop;
      available, count, stop := CheckAuthor(check, data[a], limit, waits, done, available);
      if stop {
        StopAtAuthor(check, data, a, done, count, limit);
        return available, waits + count;
      }
      AdvanceAuthor(data, a, done, count);
      waits, done := waits + count, done + Part(data[a]);
      a := a + 1;
    }
    Finish(check, data, a, done, limit);
  }
}
