/**
 * `search_audiobooks.py`: builds the catalog's search URL for an author, reads the result
 * count from the "Showing a-b of Z results" heading, and replaces it with the length of
 * the page's embedded title collection when that collection can be decoded, turning each
 * collection item into a book record with defaults for missing fields.
 */
module SearchAudiobooks {
  import opened Wrappers
  import opened Strings
  import opened Scan
  import opened Effects
  import opened Catalog
  import opened CheckAvailability

  // ----- the search URL -----

  const QueryPath := "/search?query="
  const FormatQuery := "&format=audiobook-overdrive%2Caudiobook-overdrive-provisional&sortBy=relevance"

  function SearchUrl(c: Codecs, base: string, author: string): (u: string)
    ensures |u| == |base| + |QueryPath| + |c.quote(author)| + |FormatQuery|
    ensures u[..|base|] == base && u[|base|..|base| + |QueryPath|] == QueryPath
    ensures u[|base| + |QueryPath|..|u| - |FormatQuery|] == c.quote(author)
    ensures u[|u| - |FormatQuery|..] == FormatQuery
  {
    base + QueryPath + c.quote(author) + FormatQuery
  }

  /** For one base, two authors get the same URL exactly when their quoted names agree. */
  lemma SearchUrlDeterminedByQuote(c: Codecs, base: string, a: string, b: string)
    ensures SearchUrl(c, base, a) == SearchUrl(c, base, b) <==> c.quote(a) == c.quote(b)
  {
    var ua := SearchUrl(c, base, a);
    var ub := SearchUrl(c, base, b);
    if ua == ub {
      assert |c.quote(a)| == |c.quote(b)|;
      assert c.quote(a) == ua[|base| + |QueryPath|..|ua| - |FormatQuery|];
    }
  }

  // ----- the heading count -----

  /** The end of the run of ASCII digits that starts at `i`. */
  function DigitsEnd(s: string, i: nat): (k: nat)
    ensures i <= |s| ==> i <= k <= |s|
    ensures i > |s| ==> k == i
    ensures k < |s| ==> !IsDigit(s[k])
    decreases |s| - i
  {
    if i < |s| && IsDigit(s[i]) then DigitsEnd(s, i + 1) else i
  }

  lemma {:induction false} DigitsEndRun(s: string, i: nat)
    ensures forall j :: i <= j < DigitsEnd(s, i) ==> IsDigit(s[j])
    decreases |s| - i
  {
    if i < |s| && IsDigit(s[i]) {
      DigitsEndRun(s, i + 1);
    }
  }

  /**
   * `showing\s+\d+-\d+\s+of\s+(\d+)\s+result` at position `i` of the lower-cased heading
   * text; the optional trailing `s` does not change whether it matches. Every run is greedy
   * and is followed by a character it cannot contain, so no backtracking is needed.
   */
  function HeadingAt(s: string, i: nat): Option<nat> {
    if !IsAt(s, "showing", i) then None else RangeAt(s, i + 7)
  }

  /** `\s+\d+-\d+` from position `p`, then the rest of the pattern. */
  function RangeAt(s: string, p: nat): Option<nat> {
    var a := SkipSpaces(s, p);
    var b := DigitsEnd(s, a);
    if a == p || b == a || !IsAt(s, "-", b) then None
    else
      var d := DigitsEnd(s, b + 1);
      if d == b + 1 then None else TotalAt(s, d)
  }

  /** `\s+of\s+(\d+)\s+result` from position `d`: the captured total. */
  function TotalAt(s: string, d: nat): Option<nat> {
    var e := SkipSpaces(s, d);
    if e == d || !IsAt(s, "of", e) then None
    else
      var f := SkipSpaces(s, e + 2);
      var g := DigitsEnd(s, f);
      var h := SkipSpaces(s, g);
      if f == e + 2 || g == f || h == g || !IsAt(s, "result", h) then None
      else Some(DigitsValue(s[f..g]))
  }

  /** `results_count` from the `h1.search-text` heading: `Z` of the first match, else 0. */
  function HeadingCount(heading: Option<string>): (n: nat)
    ensures heading.None? ==> n == 0
    ensures heading.Some? && Search(Lower(heading.value), HeadingAt).None? ==> n == 0
  {
    match heading
    case None => 0
    case Some(t) => Search(Lower(t), HeadingAt).GetOr(0)
  }

  /** The heading is matched ignoring letter case: lower-casing it first changes nothing. */
  lemma HeadingIgnoresCase(t: string)
    ensures HeadingCount(Some(Lower(t))) == HeadingCount(Some(t))
  {
    LowerIdempotent(t);
  }

  /** A captured total is the value of a non-empty run of digits in the text, after the range. */
  lemma TotalIsDigitRun(s: string, d: nat)
    requires TotalAt(s, d).Some?
    ensures exists f, g :: (d < f < g <= |s| && TotalAt(s, d) == Some(DigitsValue(s[f..g])) &&
                            forall k :: f <= k < g ==> IsDigit(s[k]))
  {
    var e := SkipSpaces(s, d);
    var f := SkipSpaces(s, e + 2);
    var g := DigitsEnd(s, f);
    assert d < f < g <= |s|;
    DigitsEndRun(s, f);
  }

  /** A heading match captures a run of digits that starts after `showing`. */
  lemma HeadingIsDigitRun(s: string, i: nat)
    requires HeadingAt(s, i).Some?
    ensures exists f, g :: (i + 7 < f < g <= |s| && HeadingAt(s, i) == Some(DigitsValue(s[f..g])) &&
                            forall k :: f <= k < g ==> IsDigit(s[k]))
  {
    var d := RangeEnd(s, i + 7);
    TotalIsDigitRun(s, d);
  }

  /** Where the `a-b` range that `RangeAt` reads from `p` ends. */
  lemma RangeEnd(s: string, p: nat) returns (d: nat)
    requires RangeAt(s, p).Some?
    ensures p < d && RangeAt(s, p) == TotalAt(s, d)
  {
    var a := SkipSpaces(s, p);
    var b := DigitsEnd(s, a);
    assert p < a < b < |s| && IsAt(s, "-", b);
    d := DigitsEnd(s, b + 1);
    assert b + 1 < d;
  }

  /** A run of digits from `i` up to a non-digit at `j` ends at `j`. */
  lemma {:induction false} DigitsRunEnd(s: string, i: nat, j: nat)
    requires i <= j < |s| && !IsDigit(s[j])
    requires forall k :: i <= k < j ==> IsDigit(s[k])
    ensures DigitsEnd(s, i) == j
    decreases j - i
  {
    if i < j {
      DigitsRunEnd(s, i + 1, j);
    }
  }

  /** One space before a non-space is all `\s+` takes. */
  lemma SpaceAt(s: string, i: nat)
    requires i + 1 < |s| && s[i] == ' ' && !IsSpace(s[i + 1])
    ensures SkipSpaces(s, i) == i + 1
  {
  }

  /** `\s+of\s+(\d+)\s+result` reads the total from ` of z result` placed at `d`. */
  lemma TotalAtPos(s: string, d: nat, g: nat)
    requires d + 4 < g && g + 7 <= |s|
    requires s[d] == ' ' && s[d + 1] == 'o' && s[d + 2] == 'f' && s[d + 3] == ' '
    requires forall k :: d + 4 <= k < g ==> IsDigit(s[k])
    requires s[g] == ' ' && s[g + 1..g + 7] == "result"
    ensures TotalAt(s, d) == Some(DigitsValue(s[d + 4..g]))
  {
    SpaceAt(s, d);
    assert s[d + 1..d + 3] == "of";
    SpaceAt(s, d + 3);
    DigitsRunEnd(s, d + 4, g);
    assert s[g + 1] == 'r';
    SpaceAt(s, g);
  }

  /** `\s+\d+-\d+` reads the range ` a-b` placed at `p`, with the dash at `m`, up to `d`. */
  lemma RangeAtPos(s: string, p: nat, m: nat, d: nat)
    requires p + 1 < m && m + 1 < d < |s|
    requires s[p] == ' ' && s[m] == '-' && !IsDigit(s[d])
    requires forall k :: p + 1 <= k < m ==> IsDigit(s[k])
    requires forall k :: m + 1 <= k < d ==> IsDigit(s[k])
    ensures RangeAt(s, p) == TotalAt(s, d)
  {
    assert IsDigit(s[p + 1]);
    SpaceAt(s, p);
    DigitsRunEnd(s, p + 1, m);
    assert IsAt(s, "-", m) by {
      assert s[m..m + 1] == [s[m]];
    }
    DigitsRunEnd(s, m + 1, d);
    var a := SkipSpaces(s, p);
    var b := DigitsEnd(s, a);
    assert a == p + 1 && b == m;
    assert !(a == p || b == a || !IsAt(s, "-", b));
    assert DigitsEnd(s, b + 1) == d;
  }

  /**
   * Where the pieces of the lower-cased heading `showing a-b of z results` sit: the dash at `m`,
   * ` of ` at `d`, the space before `results` at `g`.
   */
  predicate HeadingShape(s: string, a: string, b: string, z: string, m: nat, d: nat, g: nat) {
    m == 8 + |a| && d == m + 1 + |b| && g == d + 4 + |z| && |s| == g + 8 &&
    s[..7] == "showing" && s[7] == ' ' && s[8..m] == a && s[m] == '-' && s[m + 1..d] == b &&
    s[d] == ' ' && s[d + 1] == 'o' && s[d + 2] == 'f' && s[d + 3] == ' ' && s[d + 4..g] == z &&
    s[g] == ' ' && s[g + 1..g + 7] == "result"
  }

  /** The lower-cased heading `showing a-b of z results` has that shape. */
  lemma HeadingLayout(s: string, a: string, b: string, z: string)
    requires s == "showing " + a + "-" + b + " of " + z + " results"
    ensures HeadingShape(s, a, b, z, 8 + |a|, 9 + |a| + |b|, 13 + |a| + |b| + |z|)
  {
    var m, d, g := 8 + |a|, 9 + |a| + |b|, 13 + |a| + |b| + |z|;
    assert s[..7] == "showing";
    assert s[8..m] == a;
    assert s[m + 1..d] == b;
    assert s[d + 4..g] == z;
    assert s[g + 1..g + 7] == "result";
  }

  /** The digits of a piece placed at `p` are digits of the text. */
  lemma ShapeDigits(s: string, p: nat, w: string)
    requires p + |w| <= |s| && s[p..p + |w|] == w
    requires forall k :: 0 <= k < |w| ==> IsDigit(w[k])
    ensures forall k :: p <= k < p + |w| ==> IsDigit(s[k])
  {
    assert forall k :: p <= k < p + |w| ==> s[k] == w[k - p];
  }

  /** A heading of that shape, with digits for `a`, `b` and `z`, is matched at its start, capturing `z`. */
  lemma HeadingAtStart(s: string, a: string, b: string, z: string, m: nat, d: nat, g: nat)
    requires a != [] && forall k :: 0 <= k < |a| ==> IsDigit(a[k])
    requires b != [] && forall k :: 0 <= k < |b| ==> IsDigit(b[k])
    requires z != [] && forall k :: 0 <= k < |z| ==> IsDigit(z[k])
    requires HeadingShape(s, a, b, z, m, d, g)
    ensures HeadingAt(s, 0) == Some(DigitsValue(z))
  {
    ShapeDigits(s, 8, a);
    ShapeDigits(s, m + 1, b);
    ShapeDigits(s, d + 4, z);
    HeadingMatch(s, a, b, z, m, d, g);
  }

  /** The same, once the digits are known to sit in the text. */
  lemma HeadingMatch(s: string, a: string, b: string, z: string, m: nat, d: nat, g: nat)
    requires a != [] && b != [] && z != [] && HeadingShape(s, a, b, z, m, d, g)
    requires forall k :: 8 <= k < 8 + |a| ==> IsDigit(s[k])
    requires forall k :: m + 1 <= k < m + 1 + |b| ==> IsDigit(s[k])
    requires forall k :: d + 4 <= k < d + 4 + |z| ==> IsDigit(s[k])
    ensures HeadingAt(s, 0) == Some(DigitsValue(z))
  {
    assert IsAt(s, "showing", 0);
    RangeAtPos(s, 7, m, d);
    TotalAtPos(s, d, g);
  }

  /** A well-formed heading `Showing a-b of z results` gives the count `z`. */
  lemma HeadingCountReads(a: string, b: string, z: string)
    requires a != [] && forall k :: 0 <= k < |a| ==> IsDigit(a[k])
    requires b != [] && forall k :: 0 <= k < |b| ==> IsDigit(b[k])
    requires z != [] && forall k :: 0 <= k < |z| ==> IsDigit(z[k])
    ensures HeadingCount(Some("Showing " + a + "-" + b + " of " + z + " results")) == DigitsValue(z)
  {
    var t := "Showing " + a + "-" + b + " of " + z + " results";
    var s := "showing " + a + "-" + b + " of " + z + " results";
    HeadingLowered(t, s, a, b, z);
    HeadingSearch(s, a, b, z);
  }

  /** In the lower-cased heading `showing a-b of z results` the leftmost match captures `z`. */
  lemma HeadingSearch(s: string, a: string, b: string, z: string)
    requires a != [] && forall k :: 0 <= k < |a| ==> IsDigit(a[k])
    requires b != [] && forall k :: 0 <= k < |b| ==> IsDigit(b[k])
    requires z != [] && forall k :: 0 <= k < |z| ==> IsDigit(z[k])
    requires s == "showing " + a + "-" + b + " of " + z + " results"
    ensures Search(s, HeadingAt) == Some(DigitsValue(z))
  {
    HeadingLayout(s, a, b, z);
    ShapeSearch(s, a, b, z);
  }

  /** A heading of that shape, with digits for `a`, `b` and `z`, has its leftmost match at the start. */
  lemma ShapeSearch(s: string, a: string, b: string, z: string)
    requires a != [] && forall k :: 0 <= k < |a| ==> IsDigit(a[k])
    requires b != [] && forall k :: 0 <= k < |b| ==> IsDigit(b[k])
    requires z != [] && forall k :: 0 <= k < |z| ==> IsDigit(z[k])
    ensures HeadingShape(s, a, b, z, 8 + |a|, 9 + |a| + |b|, 13 + |a| + |b| + |z|) ==>
      Search(s, HeadingAt) == Some(DigitsValue(z))
  {
    if HeadingShape(s, a, b, z, 8 + |a|, 9 + |a| + |b|, 13 + |a| + |b| + |z|) {
      HeadingAtStart(s, a, b, z, 8 + |a|, 9 + |a| + |b|, 13 + |a| + |b| + |z|);
      SearchAtStart(s, HeadingAt);
    }
  }

  /** Lower-casing the heading `Showing a-b of z results` changes only its first letter. */
  lemma HeadingLowered(t: string, s: string, a: string, b: string, z: string)
    requires forall k :: 0 <= k < |a| ==> IsDigit(a[k])
    requires forall k :: 0 <= k < |b| ==> IsDigit(b[k])
    requires forall k :: 0 <= k < |z| ==> IsDigit(z[k])
    requires t == "Showing " + a + "-" + b + " of " + z + " results"
    requires s == "showing " + a + "-" + b + " of " + z + " results"
    ensures Lower(t) == s
  {
    var rest := "howing " + a + "-" + b + " of " + z + " results";
    assert t == "S" + rest && s == "s" + rest;
    RestNoUpper(rest, a, b, z);
    LowerNoUpper(rest);
    assert t[1..] == rest;
  }

  /** After its capital `S`, the heading has no capitals. */
  lemma RestNoUpper(rest: string, a: string, b: string, z: string)
    requires forall k :: 0 <= k < |a| ==> IsDigit(a[k])
    requires forall k :: 0 <= k < |b| ==> IsDigit(b[k])
    requires forall k :: 0 <= k < |z| ==> IsDigit(z[k])
    requires rest == "howing " + a + "-" + b + " of " + z + " results"
    ensures forall c :: c in rest ==> !IsUpper(c)
  {
    assert forall c :: c in a + b + z ==> IsDigit(c);
  }

  // ----- the embedded title collection -----

  /** What the parsed page offers: the heading's text, and each script's `.string` (`None` when it has none). */
  datatype Page = Page(heading: Option<string>, scripts: seq<Option<string>>)

  /** One element of a decoded `formats` list. */
  datatype RawFormat = FormatObject(name: Option<string>) | FormatNotAnObject

  /** One element of the decoded collection, with the fields the script reads. */
  datatype RawItem =
    | ItemObject(title: Option<string>, firstCreatorName: Option<string>, id: Option<string>,
                 isAvailable: Option<bool>, formats: Option<seq<RawFormat>>)
    | ItemNotAnObject

  /** `json.loads` on the matched array text: an error, or the decoded items. */
  datatype Decoded = DecodeError | Items(items: seq<RawItem>)

  /** `window\.OverDrive\.titleCollection\s*=\s*(\[.*?\]);` (dot matches newline) at position `i`. */
  function CollectionAt(s: string, i: nat): (r: Option<string>)
    ensures r.Some? ==> |r.value| >= 2 && r.value[0] == '[' && r.value[|r.value| - 1] == ']'
  {
    if !IsAt(s, TitleCollectionMarker, i) then None
    else
      var eq := SkipSpaces(s, i + |TitleCollectionMarker|);
      if eq >= |s| || s[eq] != '=' then None
      else
        var open := SkipSpaces(s, eq + 1);
        if open >= |s| || s[open] != '[' then None
        else
          match Find(s, "];", open + 1)
          case None => None
          case Some(close) =>
            assert s[close] == s[close..close + 2][0];
            Some(s[open..close + 1])
  }

  function CollectionText(s: string): Option<string> {
    Search(s, CollectionAt)
  }

  /** `[fmt.get('name', '') for fmt in formats]`; a non-object element raises, which ends the search with `None`. */
  function FormatNames(fs: seq<RawFormat>): Option<seq<string>> {
    if fs == [] then Some([])
    else if fs[0].FormatNotAnObject? then None
    else
      match FormatNames(fs[1..])
      case None => None
      case Some(rest) => Some([fs[0].name.GetOr("")] + rest)
  }

  lemma {:induction false} FormatNamesSpec(fs: seq<RawFormat>)
    ensures FormatNames(fs).Some? <==> forall k :: 0 <= k < |fs| ==> fs[k].FormatObject?
    ensures FormatNames(fs).Some? ==>
      |FormatNames(fs).value| == |fs| &&
      forall k :: 0 <= k < |fs| ==> FormatNames(fs).value[k] == fs[k].name.GetOr("")
  {
    if fs != [] {
      FormatNamesSpec(fs[1..]);
      if fs[0].FormatObject? && FormatNames(fs[1..]).Some? {
        forall k | 0 < k < |fs| ensures FormatNames(fs).value[k] == fs[k].name.GetOr("") {
          assert fs[1..][k - 1] == fs[k];
        }
      }
      if !(forall k :: 0 <= k < |fs[1..]| ==> fs[1..][k].FormatObject?) {
        var k :| 0 <= k < |fs[1..]| && !fs[1..][k].FormatObject?;
        assert !fs[k + 1].FormatObject?;
      }
    }
  }

  /** One book record, each missing field given the script's default. */
  function ToBook(item: RawItem): (b: Option<Book>)
    ensures item.ItemNotAnObject? ==> b.None?
    ensures !item.ItemNotAnObject? ==> (b.None? <==> FormatNames(item.formats.GetOr([])).None?)
    ensures b.Some? ==>
      (item.title.None? ==> b.value.title == "Unknown") &&
      (item.title.Some? ==> b.value.title == item.title.value) &&
      (item.firstCreatorName.None? ==> b.value.author == "Unknown") &&
      (item.firstCreatorName.Some? ==> b.value.author == item.firstCreatorName.value) &&
      (item.id.None? ==> b.value.id == "") &&
      (item.id.Some? ==> b.value.id == item.id.value) &&
      (item.isAvailable.None? ==> !b.value.available) &&
      (item.isAvailable.Some? ==> b.value.available == item.isAvailable.value) &&
      (item.formats.None? ==> b.value.formats == []) &&
      b.value.formats == FormatNames(item.formats.GetOr([])).value
  {
    if item.ItemNotAnObject? then None
    else
      match FormatNames(item.formats.GetOr([]))
      case None => None
      case Some(names) =>
        Some(Book(item.title.GetOr("Unknown"), item.firstCreatorName.GetOr("Unknown"),
                  item.id.GetOr(""), item.isAvailable.GetOr(false), names))
  }

  /** An item becomes a book exactly when it and all its formats are objects; the book keeps each format's name, in order. */
  lemma ToBookFormats(item: RawItem)
    ensures ToBook(item).Some? <==>
      (item.ItemObject? && forall k :: 0 <= k < |item.formats.GetOr([])| ==> item.formats.GetOr([])[k].FormatObject?)
    ensures ToBook(item).Some? ==>
      (|ToBook(item).value.formats| == |item.formats.GetOr([])| &&
       forall k :: 0 <= k < |item.formats.GetOr([])| ==>
         ToBook(item).value.formats[k] == item.formats.GetOr([])[k].name.GetOr(""))
  {
    if !item.ItemNotAnObject? {
      FormatNamesSpec(item.formats.GetOr([]));
    }
  }

  /** The `books.append` loop over the collection: `None` as soon as one item raises. */
  function BooksOf(items: seq<RawItem>): Option<seq<Book>> {
    if items == [] then Some([])
    else
      match BooksOf(items[..|items| - 1])
      case None => None
      case Some(bs) =>
        match ToBook(items[|items| - 1])
        case None => None
        case Some(b) => Some(bs + [b])
  }

  lemma BooksOfStep(items: seq<RawItem>, i: nat)
    requires i < |items|
    ensures BooksOf(items[..i + 1]) ==
      match BooksOf(items[..i])
      case None => None
      case Some(bs) => (match ToBook(items[i]) case None => None case Some(b) => Some(bs + [b]))
  {
    assert items[..i + 1][..i] == items[..i];
  }

  /** Once an item raises, the whole collection does. */
  lemma {:induction false} BooksOfFails(items: seq<RawItem>, i: nat)
    requires i <= |items| && BooksOf(items[..i]).None?
    ensures BooksOf(items).None?
    decreases |items| - i
  {
    if i < |items| {
      BooksOfStep(items, i);
      BooksOfFails(items, i + 1);
    } else {
      assert items[..i] == items;
    }
  }

  /** The books map one-to-one and in order onto the items, failing exactly when one item fails. */
  lemma {:induction false} BooksOfSpec(items: seq<RawItem>)
    ensures BooksOf(items).Some? <==> forall k :: 0 <= k < |items| ==> ToBook(items[k]).Some?
    ensures BooksOf(items).Some? ==>
      |BooksOf(items).value| == |items| &&
      forall k :: 0 <= k < |items| ==> Some(BooksOf(items).value[k]) == ToBook(items[k])
  {
    if items != [] {
      var init := items[..|items| - 1];
      BooksOfSpec(init);
      assert forall k :: 0 <= k < |init| ==> init[k] == items[k];
      if BooksOf(items).Some? {
        forall k | 0 <= k < |items| ensures Some(BooksOf(items).value[k]) == ToBook(items[k]) {
          if k < |init| {
            assert BooksOf(items).value[k] == BooksOf(init).value[k];
          }
        }
      }
    }
  }

  /** A script whose text contains the title-collection marker. */
  predicate Marked(script: Option<string>) {
    script.Some? && Contains(script.value, TitleCollectionMarker)
  }

  /** The index of the first script, from `from` on, whose text contains the marker. */
  function FirstMarked(scripts: seq<Option<string>>, from: nat): (r: Option<nat>)
    ensures r.Some? ==> from <= r.value < |scripts| && Marked(scripts[r.value])
    decreases |scripts| - from
  {
    if from >= |scripts| then None
    else if Marked(scripts[from]) then Some(from)
    else FirstMarked(scripts, from + 1)
  }

  /** `FirstMarked` finds the first marked script: none before it is marked, and `None` means none is. */
  lemma {:induction false} FirstMarkedIsFirst(scripts: seq<Option<string>>, from: nat)
    ensures FirstMarked(scripts, from).Some? ==>
      forall k :: from <= k < FirstMarked(scripts, from).value ==> !Marked(scripts[k])
    ensures FirstMarked(scripts, from).None? ==> forall k :: from <= k < |scripts| ==> !Marked(scripts[k])
    decreases |scripts| - from
  {
    if from < |scripts| && !Marked(scripts[from]) {
      FirstMarkedIsFirst(scripts, from + 1);
    }
  }

  /** `(results_count, books)` once the marked script is examined; `None` when an item raises. */
  function ScriptResult(decode: string -> Decoded, script: string, headingCount: nat): Option<(nat, seq<Book>)> {
    match CollectionText(script)
    case None => Some((headingCount, []))
    case Some(text) =>
      match decode(text)
      case DecodeError => Some((headingCount, []))
      case Items(items) =>
        match BooksOf(items)
        case None => None
        case Some(bs) => Some((|items|, bs))
  }

  /** `search_audiobooks_for_author` on a fetched page. */
  function PageOutcome(decode: string -> Decoded, url: string, page: Page): Option<SearchEntry> {
    var heading := HeadingCount(page.heading);
    match FirstMarked(page.scripts, 0)
    case None => Some(SearchEntry(heading, [], url))
    case Some(i) =>
      match ScriptResult(decode, page.scripts[i].value, heading)
      case None => None
      case Some(r) => Some(SearchEntry(r.0, r.1, url))
  }

  /** `search_audiobooks_for_author`: a transport error gives `None`. */
  function SearchOutcome(c: Codecs, decode: string -> Decoded, base: string, author: string, f: Fetched<Page>): Option<SearchEntry> {
    match f
    case TransportError => None
    case Ok(page) => PageOutcome(decode, SearchUrl(c, base, author), page)
  }

  /** The loop over the collection items, returning `None` for an item that raises. */
  method MapItems(items: seq<RawItem>) returns (books: Option<seq<Book>>)
    ensures books == BooksOf(items)
  {
    var bs: seq<Book> := [];
    var i := 0;
    while i < |items|
      invariant 0 <= i <= |items|
      invariant BooksOf(items[..i]) == Some(bs)
    {
      var b := ToBook(items[i]);
      BooksOfStep(items, i);
      if b.None? {
        BooksOfFails(items, i + 1);
        return None;
      }
      bs := bs + [b.value];
      i := i + 1;
    }
    assert items[..i] == items;
    return Some(bs);
  }

  /** The body of the script loop for the first marked script: match, decode, map. */
  method ExamineScript(decode: string -> Decoded, script: string, headingCount: nat)
    returns (r: Option<(nat, seq<Book>)>)
    ensures r == ScriptResult(decode, script, headingCount)
  {
    var text := CollectionText(script);
    if text.None? {
      return Some((headingCount, []));
    }
    var decoded := decode(text.value);
    if decoded.DecodeError? {
      return Some((headingCount, []));
    }
    var mapped := MapItems(decoded.items);
    if mapped.None? {
      return None;
    }
    return Some((|decoded.items|, mapped.value));
  }

  /** The `for script in scripts` loop up to its `break`: the first script holding the marker. */
  method FindMarkedScript(scripts: seq<Option<string>>) returns (found: Option<nat>)
    ensures found == FirstMarked(scripts, 0)
  {
    var i := 0;
    while i < |scripts|
      invariant 0 <= i <= |scripts|
      invariant FirstMarked(scripts, 0) == FirstMarked(scripts, i)
    {
      var script := scripts[i];
      if script.Some? && script.value != "" && Contains(script.value, TitleCollectionMarker) {
        return Some(i);
      }
      if script.Some? && script.value == "" {
        assert !Contains(script.value, TitleCollectionMarker);
      }
      i := i + 1;
    }
    return None;
  }

  method SearchAudiobooksForAuthor(c: Codecs, decode: string -> Decoded, fetch: string -> Fetched<Page>,
                                   base: string, author: string)
    returns (r: Option<SearchEntry>)
    ensures r == SearchOutcome(c, decode, base, author, fetch(SearchUrl(c, base, author)))
  {
    var url := SearchUrl(c, base, author);
    var f := fetch(url);
    if f.TransportError? {
      return None;
    }
    var count := HeadingCount(f.page.heading);
    var marked := FindMarkedScript(f.page.scripts);
    if marked.None? {
      return Some(SearchEntry(count, [], url));
    }
    var result := ExamineScript(decode, f.page.scripts[marked.value].value, count);
    if result.None? {
      return None;
    }
    return Some(SearchEntry(result.value.0, result.value.1, url));
  }

  // ----- properties of the outcome -----

  /** Without a marked script the count is the heading's and there are no books. */
  lemma NoCollection(decode: string -> Decoded, url: string, page: Page)
    requires FirstMarked(page.scripts, 0).None?
    ensures PageOutcome(decode, url, page) == Some(SearchEntry(HeadingCount(page.heading), [], url))
  {
  }

  /** A decoded collection overrides the count with its length and yields one book per item, in order. */
  lemma CollectionOverrides(decode: string -> Decoded, url: string, page: Page, i: nat, items: seq<RawItem>)
    requires FirstMarked(page.scripts, 0) == Some(i) && i < |page.scripts|
    requires CollectionText(page.scripts[i].value).Some?
    requires decode(CollectionText(page.scripts[i].value).value) == Items(items)
    requires forall k :: 0 <= k < |items| ==> ToBook(items[k]).Some?
    ensures var r := PageOutcome(decode, url, page);
      r.Some? && r.value.count == |items| && |r.value.books| == |items| && r.value.url == url &&
      forall k :: 0 <= k < |items| ==> Some(r.value.books[k]) == ToBook(items[k])
  {
    BooksOfSpec(items);
  }

  /** A decode error leaves the heading count and no books. */
  lemma DecodeErrorKeepsHeading(decode: string -> Decoded, url: string, page: Page, i: nat)
    requires FirstMarked(page.scripts, 0) == Some(i) && i < |page.scripts|
    requires CollectionText(page.scripts[i].value).Some?
    requires decode(CollectionText(page.scripts[i].value).value) == DecodeError
    ensures PageOutcome(decode, url, page) == Some(SearchEntry(HeadingCount(page.heading), [], url))
  {
  }

  /** An item that is not an object, or a format that is not one, makes the whole search `None`. */
  lemma BadItemGivesNone(decode: string -> Decoded, url: string, page: Page, i: nat, items: seq<RawItem>, k: nat)
    requires FirstMarked(page.scripts, 0) == Some(i) && i < |page.scripts|
    requires CollectionText(page.scripts[i].value).Some?
    requires decode(CollectionText(page.scripts[i].value).value) == Items(items)
    requires k < |items| && ToBook(items[k]).None?
    ensures PageOutcome(decode, url, page).None?
  {
    BooksOfSpec(items);
  }

  lemma {:induction false} FirstMarkedPrefix(scripts: seq<Option<string>>, from: nat, n: nat)
    requires from <= n <= |scripts|
    requires FirstMarked(scripts, from).Some? && FirstMarked(scripts, from).value < n
    ensures FirstMarked(scripts[..n], from) == FirstMarked(scripts, from)
    decreases |scripts| - from
  {
    if !Marked(scripts[from]) {
      FirstMarkedPrefix(scripts, from + 1, n);
    }
  }

  /** Only the first script holding the marker is looked at: the scripts after it change nothing. */
  lemma OnlyFirstMarkedScript(decode: string -> Decoded, url: string, page: Page, i: nat, n: nat)
    requires FirstMarked(page.scripts, 0) == Some(i) && i < n <= |page.scripts|
    ensures PageOutcome(decode, url, Page(page.heading, page.scripts[..n])) == PageOutcome(decode, url, page)
  {
    FirstMarkedPrefix(page.scripts, 0, n);
  }
}
