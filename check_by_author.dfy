/**
 * `check_by_author.py`: finds one author in the refined search results by a
 * case-insensitive key match, probes each of that author's books on the catalog, and
 * collects the ones that can be borrowed now.
 */
module ByAuthor {
  import opened Wrappers
  import opened Strings
  import opened Sorting
  import opened Effects
  import opened Catalog
  import opened CheckAvailability

  /** One entry of `available_books`: `{title, available_copies, owned_copies, url, description}`. */
  datatype AuthorBook = AuthorBook(title: string, availableCopies: nat, ownedCopies: nat, url: string, description: Option<string>)

  /** What `check_author_books` concludes, besides what it prints along the way. */
  datatype Outcome =
    | NotFound(suggestions: seq<string>)
    | NoBooks(key: string)
    | Checked(key: string, count: int, available: seq<AuthorBook>)

  /** The by-author prober: `fetch_availability` here has no `"isAvailable"` fallback. */
  function ByAuthorCheck(c: Codecs, fetch: string -> Fetched<string>): (check: string -> Probe)
    ensures forall url :: check(url) == ProbeFetched(c, fetch(url), false)
  {
    url => ProbeFetched(c, fetch(url), false)
  }

  /** Without the flag fallback, a book counts as available only when a copy is free. */
  lemma NoFlagMeansCopies(c: Codecs, f: Fetched<string>)
    ensures ProbeFetched(c, f, false).available ==> ProbeFetched(c, f, false).availableCopies > 0
  {
    if f.Ok? {
      var body := f.page;
      if FindNat(body, AvailableCopiesKey).Some? && FindNat(body, OwnedCopiesKey).Some? {
        ProbeWithCounts(c, body, false, FindNat(body, AvailableCopiesKey).value, FindNat(body, OwnedCopiesKey).value);
      } else {
        ProbeUndetermined(c, body, false);
      }
    }
  }

  // ----- the key lookup -----

  predicate KeyMatches(key: string, name: string) {
    Lower(key) == Lower(name)
  }

  /** The index of the first key, from `from` on, that equals `name` ignoring case. */
  function FirstKey(data: seq<(string, SearchEntry)>, name: string, from: nat): Option<nat>
    decreases |data| - from
  {
    if from >= |data| then None
    else if KeyMatches(data[from].0, name) then Some(from)
    else FirstKey(data, name, from + 1)
  }

  /** `FirstKey` finds the earliest match and reports `None` only when there is none. */
  lemma {:induction false} FirstKeyIsFirst(data: seq<(string, SearchEntry)>, name: string, from: nat)
    ensures FirstKey(data, name, from).Some? ==>
      var i := FirstKey(data, name, from).value;
      from <= i < |data| && KeyMatches(data[i].0, name) &&
      forall j :: from <= j < i ==> !KeyMatches(data[j].0, name)
    ensures FirstKey(data, name, from).None? ==>
      forall j :: from <= j < |data| ==> !KeyMatches(data[j].0, name)
    decreases |data| - from
  {
    if from < |data| && !KeyMatches(data[from].0, name) {
      FirstKeyIsFirst(data, name, from + 1);
    }
  }

  /** The loop over `books_data.keys()` that stops at the first case-insensitive match. */
  method FindAuthorKey(data: seq<(string, SearchEntry)>, name: string) returns (found: Option<nat>)
    ensures found == FirstKey(data, name, 0)
  {
    var i := 0;
    while i < |data|
      invariant 0 <= i <= |data|
      invariant FirstKey(data, name, 0) == FirstKey(data, name, i)
    {
      if Lower(data[i].0) == Lower(name) {
        return Some(i);
      }
      i := i + 1;
    }
    return None;
  }

  // ----- the printed list of authors with books -----

  function KeysWithBooks(data: seq<(string, SearchEntry)>): seq<string> {
    if data == [] then []
    else (if data[0].1.count > 0 then [data[0].0] else []) + KeysWithBooks(data[1..])
  }

  /** `sorted(books_data.keys())` restricted to the authors with a positive count. */
  function Suggestions(data: seq<(string, SearchEntry)>): seq<string> {
    SortUnique(KeysWithBooks(data))
  }

  lemma {:induction false} KeysWithBooksAre(data: seq<(string, SearchEntry)>, k: string)
    ensures k in KeysWithBooks(data) <==> exists i :: 0 <= i < |data| && data[i].0 == k && data[i].1.count > 0
  {
    if data != [] {
      KeysWithBooksAre(data[1..], k);
      if k in KeysWithBooks(data[1..]) {
        var i :| 0 <= i < |data[1..]| && data[1..][i].0 == k && data[1..][i].1.count > 0;
        assert data[i + 1].0 == k;
      }
      if exists i :: 0 <= i < |data| && data[i].0 == k && data[i].1.count > 0 {
        var i :| 0 <= i < |data| && data[i].0 == k && data[i].1.count > 0;
        if i > 0 {
          assert data[1..][i - 1] == data[i];
        }
      }
    }
  }

  /** The suggestion list is in ascending order, without repeats, and names exactly the authors with books. */
  lemma SuggestionsSpec(data: seq<(string, SearchEntry)>, k: string)
    ensures StrictlySorted(Suggestions(data))
    ensures k in Suggestions(data) <==> exists i :: 0 <= i < |data| && data[i].0 == k && data[i].1.count > 0
  {
    KeysWithBooksAre(data, k);
    assert k in Elems(Suggestions(data)) <==> k in Elems(KeysWithBooks(data));
  }

  // ----- the loop over one author's books -----

  function Record(book: Book, p: Probe): AuthorBook {
    AuthorBook(book.title, p.availableCopies, p.ownedCopies, MediaUrl(book.id), p.description)
  }

  /** The list the book loop builds: one record per book whose probe says available. */
  function AvailableBooks(check: string -> Probe, books: seq<Book>): seq<AuthorBook> {
    if books == [] then []
    else
      var last := books[|books| - 1];
      var p := check(MediaUrl(last.id));
      AvailableBooks(check, books[..|books| - 1]) + (if p.available then [Record(last, p)] else [])
  }

  lemma AvailableBooksStep(check: string -> Probe, books: seq<Book>, i: nat)
    requires i < |books|
    ensures AvailableBooks(check, books[..i + 1]) ==
      AvailableBooks(check, books[..i]) +
      (if check(MediaUrl(books[i].id)).available then [Record(books[i], check(MediaUrl(books[i].id)))] else [])
  {
    assert books[..i + 1][..i] == books[..i];
  }

  /** Every collected record is the record of some available book. */
  lemma {:induction false} AvailableBooksSound(check: string -> Probe, books: seq<Book>, r: AuthorBook)
    requires r in AvailableBooks(check, books)
    ensures exists k :: (0 <= k < |books| && check(MediaUrl(books[k].id)).available &&
                         r == Record(books[k], check(MediaUrl(books[k].id))))
  {
    var init := books[..|books| - 1];
    if r in AvailableBooks(check, init) {
      AvailableBooksSound(check, init, r);
      var k :| 0 <= k < |init| && check(MediaUrl(init[k].id)).available && r == Record(init[k], check(MediaUrl(init[k].id)));
      assert init[k] == books[k];
    }
  }

  /** Every book whose probe says available is collected. */
  lemma {:induction false} AvailableBooksComplete(check: string -> Probe, books: seq<Book>, k: nat)
    requires k < |books| && check(MediaUrl(books[k].id)).available
    ensures Record(books[k], check(MediaUrl(books[k].id))) in AvailableBooks(check, books)
  {
    var init := books[..|books| - 1];
    if k < |books| - 1 {
      assert init[k] == books[k];
      AvailableBooksComplete(check, init, k);
    }
  }

  /** With the by-author prober every collected record has a free copy. */
  lemma AvailableHaveCopies(c: Codecs, fetch: string -> Fetched<string>, books: seq<Book>, r: AuthorBook)
    requires r in AvailableBooks(ByAuthorCheck(c, fetch), books)
    ensures r.availableCopies > 0
  {
    var check := ByAuthorCheck(c, fetch);
    AvailableBooksSound(check, books, r);
    var k :| 0 <= k < |books| && check(MediaUrl(books[k].id)).available && r == Record(books[k], check(MediaUrl(books[k].id)));
    NoFlagMeansCopies(c, fetch(MediaUrl(books[k].id)));
  }

  /**
   * `for book in author_data['books']`, appending each book that is available; `waits` counts
   * the half-second pauses, one after every book.
   */
  method CheckBooks(check: string -> Probe, books: seq<Book>) returns (available: seq<AuthorBook>, waits: nat)
    ensures available == AvailableBooks(check, books)
    ensures waits == |books|
  {
    available, waits := [], 0;
    var i := 0;
    while i < |books|
      invariant 0 <= i <= |books| && waits == i
      invariant available == AvailableBooks(check, books[..i])
    {
      var book := books[i];
      var url := MediaUrl(book.id);
      var p := check(url);
      AvailableBooksStep(check, books, i);
      if p.available {
        available := available + [AuthorBook(book.title, p.availableCopies, p.ownedCopies, url, p.description)];
      }
      waits := waits + 1;
      i := i + 1;
    }
    assert books[..i] == books;
  }

  // ----- check_author_books -----

  /** The outcome of `check_author_books`; an empty matched key reads as not found. */
  function AuthorOutcome(check: string -> Probe, name: string, data: seq<(string, SearchEntry)>): Outcome {
    match FirstKey(data, name, 0)
    case None => NotFound(Suggestions(data))
    case Some(i) =>
      if i >= |data| || data[i].0 == "" then NotFound(Suggestions(data))
      else if data[i].1.count == 0 then NoBooks(data[i].0)
      else Checked(data[i].0, data[i].1.count, AvailableBooks(check, data[i].1.books))
  }

  method CheckAuthorBooks(check: string -> Probe, name: string, data: seq<(string, SearchEntry)>) returns (o: Outcome)
    ensures o == AuthorOutcome(check, name, data)
  {
    var found := FindAuthorKey(data, name);
    FirstKeyIsFirst(data, name, 0);
    if found.None? || data[found.value].0 == "" {
      return NotFound(Suggestions(data));
    }
    var entry := data[found.value].1;
    if entry.count == 0 {
      return NoBooks(data[found.value].0);
    }
    var available, _ := CheckBooks(check, entry.books);
    return Checked(data[found.value].0, entry.count, available);
  }

  /** The author is reported missing exactly when the name is empty or no key matches it ignoring case. */
  lemma NotFoundExactly(check: string -> Probe, name: string, data: seq<(string, SearchEntry)>)
    ensures AuthorOutcome(check, name, data).NotFound? <==>
      name == "" || forall j :: 0 <= j < |data| ==> !KeyMatches(data[j].0, name)
  {
    FirstKeyIsFirst(data, name, 0);
    if name == "" && FirstKey(data, name, 0).Some? {
      var i := FirstKey(data, name, 0).value;
      assert |Lower(data[i].0)| == |Lower(name)|;
    }
    if name != "" && FirstKey(data, name, 0).Some? {
      var i := FirstKey(data, name, 0).value;
      assert |Lower(data[i].0)| == |Lower(name)|;
      assert data[i].0 != "";
    }
  }

  /** A found author is the first key that matches the name ignoring case, and carries its count. */
  lemma FoundIsFirstMatch(check: string -> Probe, name: string, data: seq<(string, SearchEntry)>)
    requires !AuthorOutcome(check, name, data).NotFound?
    ensures var o := AuthorOutcome(check, name, data);
      exists i :: 0 <= i < |data| && data[i].0 == o.key && KeyMatches(o.key, name) &&
        (o.NoBooks? <==> data[i].1.count == 0) &&
        (o.Checked? ==> o.count == data[i].1.count && o.available == AvailableBooks(check, data[i].1.books)) &&
        forall j :: 0 <= j < i ==> !KeyMatches(data[j].0, name)
  {
    FirstKeyIsFirst(data, name, 0);
    var i := FirstKey(data, name, 0).value;
    assert data[i].0 == AuthorOutcome(check, name, data).key;
  }

  // ----- main -----

  /**
   * `main`: fewer than two arguments or a missing results file exit with status 1;
   * otherwise the author is checked and the program ends normally.
   */
  method RunByAuthor(check: string -> Probe, argv: seq<string>, loaded: Option<seq<(string, SearchEntry)>>)
    returns (exit: int, o: Option<Outcome>)
    ensures |argv| < 2 ==> exit == 1 && o.None?
    ensures |argv| >= 2 && loaded.None? ==> exit == 1 && o.None?
    ensures |argv| >= 2 && loaded.Some? ==> exit == 0 && o == Some(AuthorOutcome(check, argv[1], loaded.value))
  {
    if |argv| < 2 {
      return 1, None;
    }
    if loaded.None? {
      return 1, None;
    }
    var outcome := CheckAuthorBooks(check, argv[1], loaded.value);
    return 0, Some(outcome);
  }
}
