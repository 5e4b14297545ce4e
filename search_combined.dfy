/**
 * `search_combined.py`: loads author names from the BBC, Hugo and Booker artifacts, removes
 * case-insensitive duplicates keeping the first spelling, and runs the catalog search for each
 * name, up to a limit, collecting one search entry per author.
 */
module SearchCombined {
  import opened Wrappers
  import opened Strings
  import opened Sorting
  import opened Effects
  import opened Catalog
  import opened Sequences
  import opened SearchAudiobooks

  // ----- loading author names -----

  /**
   * A decoded JSON value, as far as the loaders look into it: a string, an object (reduced to
   * its `"author"` member, `None` when that key is absent), a list, or anything else.
   */
  datatype Json = JString(s: string) | JObject(author: Option<string>) | JList(items: seq<Json>) | JOther

  /** The strings of a list whose first element is a string. */
  function StringItems(items: seq<Json>): (r: seq<string>)
    ensures |r| <= |items|
  {
    if items == [] then []
    else
      var init := StringItems(items[..|items| - 1]);
      match items[|items| - 1]
      case JString(s) => init + [s]
      case _ => init
  }

  /** The `author` values of the objects that have that key, in list order. */
  function AuthorValues(items: seq<Json>): seq<string> {
    if items == [] then []
    else
      var init := AuthorValues(items[..|items| - 1]);
      match items[|items| - 1]
      case JObject(Some(a)) => init + [a]
      case _ => init
  }

  /** The non-empty `author` values, the ones `if 'author' in episode and episode['author']` accepts. */
  function TruthyAuthors(items: seq<Json>): seq<string> {
    if items == [] then []
    else
      var init := TruthyAuthors(items[..|items| - 1]);
      match items[|items| - 1]
      case JObject(Some(a)) => if a != "" then init + [a] else init
      case _ => init
  }

  /**
   * `load_authors_from_json`: nothing for a missing file (`None`); a list of strings as it is;
   * the sorted distinct `author` values of a list of objects; nothing for any other document.
   */
  function LoadAuthorsFromJson(file: Option<Json>): seq<string> {
    match file
    case None => []
    case Some(JList(items)) =>
      if items != [] && items[0].JString? then StringItems(items)
      else if items != [] && items[0].JObject? then SortUnique(AuthorValues(items))
      else []
    case Some(_) => []
  }

  lemma {:induction false} StringItemsOfStrings(items: seq<Json>)
    requires forall k :: 0 <= k < |items| ==> items[k].JString?
    ensures |StringItems(items)| == |items|
    ensures forall k :: 0 <= k < |items| ==> StringItems(items)[k] == items[k].s
  {
    if items != [] {
      StringItemsOfStrings(items[..|items| - 1]);
    }
  }

  /** Some object of `items` has `a` as its `author` value. */
  predicate HasAuthor(items: seq<Json>, a: string) {
    exists k :: 0 <= k < |items| && items[k] == JObject(Some(a))
  }

  lemma HasAuthorSnoc(items: seq<Json>, a: string)
    requires items != []
    ensures HasAuthor(items, a) <==> HasAuthor(items[..|items| - 1], a) || items[|items| - 1] == JObject(Some(a))
  {
    var init := items[..|items| - 1];
    if HasAuthor(init, a) {
      var k :| 0 <= k < |init| && init[k] == JObject(Some(a));
      assert items[k] == init[k];
    }
    if HasAuthor(items, a) && items[|items| - 1] != JObject(Some(a)) {
      var k :| 0 <= k < |items| && items[k] == JObject(Some(a));
      assert init[k] == items[k];
    }
  }

  lemma {:induction false} AuthorValuesAre(items: seq<Json>, a: string)
    ensures a in AuthorValues(items) <==> HasAuthor(items, a)
  {
    if items != [] {
      AuthorValuesAre(items[..|items| - 1], a);
      HasAuthorSnoc(items, a);
    }
  }

  lemma {:induction false} TruthyAuthorsAre(items: seq<Json>, a: string)
    ensures a in TruthyAuthors(items) <==> a != "" && HasAuthor(items, a)
  {
    if items != [] {
      TruthyAuthorsAre(items[..|items| - 1], a);
      HasAuthorSnoc(items, a);
    }
  }

  /** The four shapes `load_authors_from_json` tells apart, and what each yields. */
  lemma LoadAuthorsShapes(file: Option<Json>)
    ensures file.None? ==> LoadAuthorsFromJson(file) == []
    ensures !(file.Some? && file.value.JList? && file.value.items != [] && !file.value.items[0].JOther? && !file.value.items[0].JList?)
      ==> LoadAuthorsFromJson(file) == []
    ensures file.Some? && file.value.JList? && (forall k :: 0 <= k < |file.value.items| ==> file.value.items[k].JString?) ==>
      var r := LoadAuthorsFromJson(file);
      |r| == |file.value.items| && forall k :: 0 <= k < |r| ==> r[k] == file.value.items[k].s
    ensures file.Some? && file.value.JList? && file.value.items != [] && file.value.items[0].JObject? ==>
      var r := LoadAuthorsFromJson(file);
      StrictlySorted(r) &&
      forall a :: a in r <==> HasAuthor(file.value.items, a)
  {
    if file.Some? && file.value.JList? {
      var items := file.value.items;
      if forall k :: 0 <= k < |items| ==> items[k].JString? {
        StringItemsOfStrings(items);
      }
      if items != [] && items[0].JObject? {
        forall a ensures a in LoadAuthorsFromJson(file) <==> HasAuthor(items, a) {
          AuthorValuesAre(items, a);
          assert a in SortUnique(AuthorValues(items)) <==> a in Elems(AuthorValues(items));
        }
      }
    }
  }

  /**
   * `load_bbc_authors`: the dedicated authors file when it yields any name, otherwise the
   * sorted distinct non-empty `author` values of the episodes file, nothing when that is missing.
   */
  function LoadBbcAuthors(authorsFile: Option<Json>, episodesFile: Option<Json>): seq<string> {
    var first := LoadAuthorsFromJson(authorsFile);
    if first != [] then first
    else
      match episodesFile
      case Some(JList(episodes)) => SortUnique(TruthyAuthors(episodes))
      case _ => []
  }

  lemma BbcFallback(authorsFile: Option<Json>, episodesFile: Option<Json>)
    ensures LoadAuthorsFromJson(authorsFile) != [] ==> LoadBbcAuthors(authorsFile, episodesFile) == LoadAuthorsFromJson(authorsFile)
    ensures LoadAuthorsFromJson(authorsFile) == [] && episodesFile.None? ==> LoadBbcAuthors(authorsFile, episodesFile) == []
    ensures LoadAuthorsFromJson(authorsFile) == [] && episodesFile.Some? && episodesFile.value.JList? ==>
      var r := LoadBbcAuthors(authorsFile, episodesFile);
      StrictlySorted(r) &&
      forall a :: a in r <==> a != "" && HasAuthor(episodesFile.value.items, a)
  {
    if LoadAuthorsFromJson(authorsFile) == [] && episodesFile.Some? && episodesFile.value.JList? {
      var eps := episodesFile.value.items;
      forall a ensures a in LoadBbcAuthors(authorsFile, episodesFile) <==> a != "" && HasAuthor(eps, a) {
        TruthyAuthorsAre(eps, a);
        assert a in SortUnique(TruthyAuthors(eps)) <==> a in Elems(TruthyAuthors(eps));
      }
    }
  }

  /** The `--source` choice. */
  datatype Source = Bbc | Hugo | Booker | All

  /** The data files the loaders read, `None` where a file is missing. */
  datatype DataFiles = DataFiles(bbcAuthors: Option<Json>, bbcEpisodes: Option<Json>, hugoAuthors: Option<Json>, bookerAuthors: Option<Json>)

  /** The names `main` collects: BBC, then Hugo, then Booker, each only when the source asks for it. */
  function ChosenAuthors(src: Source, files: DataFiles): seq<string> {
    (if src == Bbc || src == All then LoadBbcAuthors(files.bbcAuthors, files.bbcEpisodes) else []) +
    (if src == Hugo || src == All then LoadAuthorsFromJson(files.hugoAuthors) else []) +
    (if src == Booker || src == All then LoadAuthorsFromJson(files.bookerAuthors) else [])
  }

  // ----- case-insensitive duplicate removal -----

  /** The lower-cased names already seen. */
  function Seen(xs: seq<string>): set<string> {
    set x | x in xs :: Lower(x)
  }

  /** The names of `xs` whose lower-cased form did not occur earlier, in their original order. */
  function Deduped(xs: seq<string>): seq<string> {
    if xs == [] then []
    else
      var init := xs[..|xs| - 1];
      if Lower(xs[|xs| - 1]) in Seen(init) then Deduped(init) else Deduped(init) + [xs[|xs| - 1]]
  }

  /** Position `i` holds the first spelling of its name: no earlier name has the same lower-cased form. */
  predicate IsFirstSpelling(xs: seq<string>, i: nat)
    requires i < |xs|
  {
    forall j :: 0 <= j < i ==> Lower(xs[j]) != Lower(xs[i])
  }

  lemma SeenSnoc(xs: seq<string>, x: string)
    ensures Seen(xs + [x]) == Seen(xs) + {Lower(x)}
  {
    forall y ensures y in xs + [x] <==> y in xs || y == x {}
  }

  lemma SeenOfLast(xs: seq<string>)
    requires xs != []
    ensures Seen(xs) == Seen(xs[..|xs| - 1]) + {Lower(xs[|xs| - 1])}
  {
    assert xs == xs[..|xs| - 1] + [xs[|xs| - 1]];
    SeenSnoc(xs[..|xs| - 1], xs[|xs| - 1]);
  }

  /** Every name of the input is represented, case-insensitively, in the result. */
  lemma {:induction false} DedupedSeen(xs: seq<string>)
    ensures Seen(Deduped(xs)) == Seen(xs)
  {
    if xs != [] {
      var init := xs[..|xs| - 1];
      DedupedSeen(init);
      SeenOfLast(xs);
      if Lower(xs[|xs| - 1]) !in Seen(init) {
        SeenSnoc(Deduped(init), xs[|xs| - 1]);
      }
    }
  }

  /** No two names of the result agree once lower-cased. */
  lemma {:induction false} DedupedDistinct(xs: seq<string>)
    ensures forall i, j :: 0 <= i < j < |Deduped(xs)| ==> Lower(Deduped(xs)[i]) != Lower(Deduped(xs)[j])
  {
    if xs != [] {
      var init := xs[..|xs| - 1];
      DedupedDistinct(init);
      if Lower(xs[|xs| - 1]) !in Seen(init) {
        DedupedSeen(init);
        var u := Deduped(init);
        forall i | 0 <= i < |u| ensures Lower(u[i]) != Lower(xs[|xs| - 1]) {
          assert Lower(u[i]) in Seen(u);
        }
      }
    }
  }

  lemma FirstSpellingOfInit(xs: seq<string>, p: nat)
    requires xs != [] && p < |xs| - 1 && IsFirstSpelling(xs[..|xs| - 1], p)
    ensures IsFirstSpelling(xs, p)
  {
    forall j | 0 <= j < p ensures Lower(xs[j]) != Lower(xs[p]) {
      assert xs[..|xs| - 1][j] == xs[j] && xs[..|xs| - 1][p] == xs[p];
    }
  }

  /**
   * The result is the first spellings of the input in input order: its names sit at strictly
   * increasing positions `pos` of `xs`, each the first spelling of its name.
   */
  lemma {:induction false} DedupedPositions(xs: seq<string>) returns (pos: seq<nat>)
    ensures |pos| == |Deduped(xs)|
    ensures forall k :: 0 <= k < |pos| ==> pos[k] < |xs| && xs[pos[k]] == Deduped(xs)[k] && IsFirstSpelling(xs, pos[k])
    ensures forall k, l :: 0 <= k < l < |pos| ==> pos[k] < pos[l]
  {
    if xs == [] {
      pos := [];
    } else {
      var init := xs[..|xs| - 1];
      var last := |xs| - 1;
      var p := DedupedPositions(init);
      forall k | 0 <= k < |p| ensures IsFirstSpelling(xs, p[k]) {
        FirstSpellingOfInit(xs, p[k]);
      }
      if Lower(xs[last]) in Seen(init) {
        pos := p;
      } else {
        forall j | 0 <= j < last ensures Lower(xs[j]) != Lower(xs[last]) {
          assert xs[j] == init[j];
          assert Lower(init[j]) in Seen(init);
        }
        pos := p + [last];
      }
    }
  }

  lemma DedupStep(xs: seq<string>, i: nat)
    requires i < |xs|
    ensures Deduped(xs[..i + 1]) == if Lower(xs[i]) in Seen(xs[..i]) then Deduped(xs[..i]) else Deduped(xs[..i]) + [xs[i]]
    ensures Seen(xs[..i + 1]) == Seen(xs[..i]) + {Lower(xs[i])}
  {
    assert xs[..i + 1][..i] == xs[..i];
    SeenOfLast(xs[..i + 1]);
  }

  /** `main`'s loop over the collected names, with the `seen` set of lower-cased names. */
  method RemoveDuplicates(authors: seq<string>) returns (unique: seq<string>)
    ensures unique == Deduped(authors)
  {
    unique := [];
    var seen: set<string> := {};
    var i := 0;
    while i < |authors|
      invariant 0 <= i <= |authors|
      invariant unique == Deduped(authors[..i]) && seen == Seen(authors[..i])
    {
      DedupStep(authors, i);
      var authorLower := Lower(authors[i]);
      if authorLower !in seen {
        seen := seen + {authorLower};
        unique := unique + [authors[i]];
      }
      i := i + 1;
    }
    assert authors[..i] == authors;
  }

  // ----- the searches -----

  /** The value stored for one author: the search's `count`, `books` and `url`, or the empty default. */
  function EntryFor(result: Option<SearchEntry>): (e: SearchEntry)
    ensures result.None? ==> e == SearchEntry(0, [], "")
    ensures result.Some? ==> e == result.value
  {
    match result
    case Some(r) => SearchEntry(r.count, r.books, r.url)
    case None => SearchEntry(0, [], "")
  }

  /** The `results` dict after searching `names` in turn. */
  function ResultsOf(search: string -> Option<SearchEntry>, names: seq<string>): seq<(string, SearchEntry)> {
    if names == [] then []
    else
      var last := names[|names| - 1];
      Put(ResultsOf(search, names[..|names| - 1]), last, EntryFor(search(last)))
  }

  /** The dict's keys are exactly the searched names, without repetition. */
  lemma {:induction false} ResultsKeys(search: string -> Option<SearchEntry>, names: seq<string>)
    ensures DistinctKeys(ResultsOf(search, names))
    ensures forall x :: HasKey(ResultsOf(search, names), x) <==> x in names
  {
    if names != [] {
      var init := names[..|names| - 1];
      var last := names[|names| - 1];
      ResultsKeys(search, init);
      PutDistinct(ResultsOf(search, init), last, EntryFor(search(last)));
      assert names == init + [last];
      forall x ensures HasKey(ResultsOf(search, names), x) <==> x in names {
        PutHasKey(ResultsOf(search, init), last, EntryFor(search(last)), x);
        assert x in names <==> x in init || x == last;
      }
    }
  }

  /** With distinct names, the dict holds one entry per name, in search order, each the search's own. */
  lemma {:induction false} ResultsOfDistinct(search: string -> Option<SearchEntry>, names: seq<string>)
    requires forall i, j :: 0 <= i < j < |names| ==> names[i] != names[j]
    ensures |ResultsOf(search, names)| == |names|
    ensures forall k :: 0 <= k < |names| ==> ResultsOf(search, names)[k] == (names[k], EntryFor(search(names[k])))
  {
    if names != [] {
      var init := names[..|names| - 1];
      var last := names[|names| - 1];
      ResultsOfDistinct(search, init);
      ResultsKeys(search, init);
      assert !HasKey(ResultsOf(search, init), last) by {
        forall i | 0 <= i < |init| ensures init[i] != last {
          assert init[i] == names[i];
        }
      }
      PutNew(ResultsOf(search, init), last, EntryFor(search(last)));
    }
  }

  /** A wait between consecutive searches, none after the last. */
  function Pauses(n: nat): nat {
    if n == 0 then 0 else n - 1
  }

  lemma ResultsStep(search: string -> Option<SearchEntry>, names: seq<string>, i: nat)
    requires i < |names|
    ensures ResultsOf(search, names[..i + 1]) == Put(ResultsOf(search, names[..i]), names[i], EntryFor(search(names[i])))
  {
    assert names[..i + 1][..i] == names[..i];
  }

  /**
   * `search_authors`: searches the first `limit` names (all of them for a falsy limit), stores
   * one entry per name, the empty default for a failed search, and waits between searches.
   * `search` is the per-author search, `SearchAudiobooksForAuthor` on the fetched page.
   */
  method SearchAuthors(search: string -> Option<SearchEntry>, authors: seq<string>, limit: int)
    returns (results: seq<(string, SearchEntry)>, waits: nat)
    ensures results == ResultsOf(search, Truncate(authors, limit))
    ensures waits == Pauses(|Truncate(authors, limit)|)
  {
    var names := Truncate(authors, limit);
    results, waits := [], 0;
    var i := 0;
    while i < |names|
      invariant 0 <= i <= |names|
      invariant results == ResultsOf(search, names[..i])
      invariant waits == if i == |names| then Pauses(i) else i
    {
      ResultsStep(search, names, i);
      var result := search(names[i]);
      if result.Some? {
        results := Put(results, names[i], SearchEntry(result.value.count, result.value.books, result.value.url));
      } else {
        results := Put(results, names[i], SearchEntry(0, [], ""));
      }
      if i + 1 < |names| {
        waits := waits + 1;
      }
      i := i + 1;
    }
    assert names[..i] == names;
  }

  /** The per-author search of `search_audiobooks_for_author` against the catalog at `base`. */
  function CatalogSearch(c: Codecs, decode: string -> Decoded, fetch: string -> Fetched<Page>, base: string): (search: string -> Option<SearchEntry>)
    ensures forall a :: search(a) == SearchOutcome(c, decode, base, a, fetch(SearchUrl(c, base, a)))
  {
    a => SearchOutcome(c, decode, base, a, fetch(SearchUrl(c, base, a)))
  }

  /**
   * `main`: collects the chosen sources' names; with none it searches nothing, otherwise it
   * removes case-insensitive duplicates and searches the distinct names.
   */
  method RunCombined(src: Source, files: DataFiles, search: string -> Option<SearchEntry>, limit: int)
    returns (results: Option<seq<(string, SearchEntry)>>, waits: nat)
    ensures ChosenAuthors(src, files) == [] ==> results.None? && waits == 0
    ensures ChosenAuthors(src, files) != [] ==>
      results == Some(ResultsOf(search, Truncate(Deduped(ChosenAuthors(src, files)), limit))) &&
      waits == Pauses(|Truncate(Deduped(ChosenAuthors(src, files)), limit)|)
  {
    var authors := ChosenAuthors(src, files);
    if authors == [] {
      return None, 0;
    }
    var unique := RemoveDuplicates(authors);
    var r;
    r, waits := SearchAuthors(search, unique, limit);
    results := Some(r);
  }

  /** The stored dict has exactly one entry per searched name, in order, and no two names differ only in case. */
  lemma CombinedResults(search: string -> Option<SearchEntry>, authors: seq<string>, limit: int)
    ensures var names := Truncate(Deduped(authors), limit);
      var r := ResultsOf(search, names);
      |r| == |names| &&
      (forall k :: 0 <= k < |r| ==> r[k] == (names[k], EntryFor(search(names[k])))) &&
      forall i, j :: 0 <= i < j < |r| ==> Lower(r[i].0) != Lower(r[j].0)
  {
    var u := Deduped(authors);
    var names := Truncate(u, limit);
    DedupedDistinct(authors);
    TruncateIsPrefix(u, limit);
    forall i, j | 0 <= i < j < |names| ensures Lower(names[i]) != Lower(names[j]) {
      assert names[i] == u[i] && names[j] == u[j];
    }
    ResultsOfDistinct(search, names);
  }
}
