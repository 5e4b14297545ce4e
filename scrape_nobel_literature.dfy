/**
 * `scrape_nobel_literature.py`: the scan of the first wikitable of the Wikipedia list of
 * Nobel laureates in Literature (`scrape_nobel_literature`), which skips unawarded and
 * malformed rows and cleans every field; `extract_unique_authors`; and `main`, which
 * applies the limit before saving.
 */
module NobelLiterature {
  import opened Wrappers
  import opened Strings
  import opened Sorting
  import opened Sequences
  import opened ScrapedText

  /** A `<td>` or `<th>` cell: its `get_text(strip=True)`, and that of each `<a>` inside it, in order. */
  datatype Cell = Cell(text: string, links: seq<string>)

  /** A `<tr>`: year, picture, laureate, country, language, citation and, sometimes, genre. */
  type Row = seq<Cell>

  /** A wikitable's rows, its header row first. */
  type Table = seq<Row>

  /** One saved laureate record. */
  datatype Laureate = Laureate(author: string, year: int, country: string, language: string, citation: string, genre: string)

  const NotAwarded := "Not awarded"

  // ----- the fields of a row -----

  /**
   * The laureate's name: the first link's text, or the cell's text when it has no link,
   * with a `(dddd–dddd)` life span, then a `(dddd–)` birth year, deleted and whitespace collapsed.
   */
  function LaureateName(c: Cell): string {
    var raw := if c.links == [] then c.text else c.links[0];
    Collapse(Sub(LivingSince, Sub(LifeSpan, raw)))
  }

  predicate IsQuote(c: char) {
    c == '"' || c == '\''
  }

  /** `citation.strip('"\'')`, whitespace collapsed, then every `[digits]` marker deleted. */
  function Citation(text: string): string {
    Sub(RefMarker, Collapse(Trim(text, IsQuote)))
  }

  /** The seventh cell's collapsed text, or `""` when the row has only six cells. */
  function Genre(row: Row): string {
    if |row| > 6 then Collapse(row[6].text) else ""
  }

  /** The record one row after the header yields, if any. */
  function LaureateOf(row: Row): (r: Option<Laureate>)
    ensures r.Some? ==> |row| >= 6
  {
    if |row| < 6 then None
    else
      var yearText := row[0].text;
      if Contains(yearText, NotAwarded) || yearText == "" then None
      else match YearIn(yearText)
        case None => None
        case Some(year) =>
          var name := LaureateName(row[2]);
          if name == "" then None
          else Some(Laureate(name, year, Collapse(row[3].text), Collapse(row[4].text), Citation(row[5].text), Genre(row)))
  }

  /**
   * A row yields a record exactly when it has six cells, its year cell does not say
   * "Not awarded" and holds a `19xx`/`20xx` token, and its laureate's cleaned name is not empty.
   */
  lemma LaureateSkipped(row: Row)
    ensures LaureateOf(row).Some? <==>
      |row| >= 6 && !Contains(row[0].text, NotAwarded) && YearIn(row[0].text).Some? && LaureateName(row[2]) != ""
    ensures |row| >= 6 && Contains(row[0].text, NotAwarded) ==> LaureateOf(row).None?
  {
    if |row| >= 6 && row[0].text == "" {
      assert !YearAt("", 0).Some?;
    }
  }

  /** The year recorded is the value of the leftmost four-digit `19xx`/`20xx` token of the year cell. */
  lemma LaureateYear(row: Row)
    requires LaureateOf(row).Some?
    ensures var y := LaureateOf(row).value.year;
      1900 <= y <= 2099 &&
      exists i :: (0 <= i && i + 4 <= |row[0].text| && YearAt(row[0].text, i) == Some(y) &&
        y == DigitsValue(row[0].text[i..i + 4]) && forall j :: 0 <= j < i ==> YearAt(row[0].text, j).None?)
  {
    var t := row[0].text;
    var i :| 0 <= i <= |t| && YearAt(t, i) == YearIn(t) && forall j :: 0 <= j < i ==> YearAt(t, j).None?;
    YearAtValue(t, i);
  }

  /**
   * The name is never empty; name, country, language and genre have no leading, trailing or
   * repeated whitespace; the genre is empty for a six-cell row.
   */
  lemma LaureateFields(row: Row)
    requires LaureateOf(row).Some?
    ensures var e := LaureateOf(row).value;
      e.author == LaureateName(row[2]) && e.author != "" && Collapsed(e.author) &&
      e.country == Collapse(row[3].text) && Collapsed(e.country) &&
      e.language == Collapse(row[4].text) && Collapsed(e.language) &&
      e.citation == Citation(row[5].text) &&
      (if |row| == 6 then e.genre == "" else e.genre == Collapse(row[6].text) && Collapsed(e.genre))
  {
    var raw := if row[2].links == [] then row[2].text else row[2].links[0];
    CollapseIsCollapsed(Sub(LivingSince, Sub(LifeSpan, raw)));
    CollapseIsCollapsed(row[3].text);
    CollapseIsCollapsed(row[4].text);
    if |row| > 6 {
      CollapseIsCollapsed(row[6].text);
    }
  }

  /** A name with no parenthesis is the first link's text (or the cell's), whitespace collapsed. */
  lemma PlainName(c: Cell)
    requires '(' !in (if c.links == [] then c.text else c.links[0])
    ensures LaureateName(c) == Collapse(if c.links == [] then c.text else c.links[0])
  {
    var raw := if c.links == [] then c.text else c.links[0];
    NoParenNoMatch(LifeSpan, raw);
    NoParenNoMatch(LivingSince, raw);
  }

  /** A trailing life span `(dddd–dddd)` is deleted from the first link's text, spaces before it too. */
  lemma LifeSpanDropped(c: Cell, a: string, ws: string, born: string, died: string)
    requires c.links != [] && c.links[0] == a + ws + "(" + born + "–" + died + ")"
    requires a != [] && !IsSpace(a[|a| - 1]) && '(' !in a
    requires forall i :: 0 <= i < |ws| ==> IsSpace(ws[i])
    requires FourDigits(born) && FourDigits(died)
    ensures LaureateName(c) == Collapse(a)
  {
    var tail := ws + "(" + born + "–" + died + ")";
    assert c.links[0] == a + tail;
    LifeSpanMatches(ws, born, died);
    ParenTailDeleted(LifeSpan, a, tail);
    NoParenNoMatch(LivingSince, a);
  }

  /** A trailing birth year `(dddd–)` of a living laureate is deleted, spaces before it too. */
  lemma LivingDropped(c: Cell, a: string, ws: string, born: string)
    requires c.links != [] && c.links[0] == a + ws + "(" + born + "–)"
    requires a != [] && !IsSpace(a[|a| - 1]) && '(' !in a
    requires forall i :: 0 <= i < |ws| ==> IsSpace(ws[i])
    requires FourDigits(born)
    ensures LaureateName(c) == Collapse(a)
  {
    var tail := ws + "(" + born + "–)";
    var s := a + tail;
    assert c.links[0] == s;
    forall k | 0 <= k < |s| ensures MatchLen(LifeSpan, s[k..]) == 0 {
      if k < |a| {
        ParenCannotStart(LifeSpan, a, tail, k);
      } else {
        NoLifeSpanIn(tail, k - |a|, ws, born);
        assert s[k..] == tail[k - |a|..];
      }
    }
    SubUnmatched(LifeSpan, s);
    LivingSinceMatches(ws, born);
    ParenTailDeleted(LivingSince, a, tail);
  }

  /** The life-span pattern needs eleven characters from its `(`, more than ` (dddd–)` has. */
  lemma NoLifeSpanIn(tail: string, k: nat, ws: string, born: string)
    requires tail == ws + "(" + born + "–)" && k < |tail|
    requires forall i :: 0 <= i < |ws| ==> IsSpace(ws[i])
    requires FourDigits(born)
    ensures MatchLen(LifeSpan, tail[k..]) == 0
  {
    assert |tail| == |ws| + 7;
  }

  /** A quoted citation free of `[` loses its quotes and has its whitespace collapsed. */
  lemma QuotedCitation(body: string)
    requires body != [] && !IsQuote(body[0]) && !IsQuote(body[|body| - 1]) && '[' !in body
    ensures Citation("\"" + body + "\"") == Collapse(body)
  {
    var s := "\"" + body + "\"";
    assert s[1..] == body + "\"";
    assert LeadRun(body + "\"", IsQuote) == 0;
    assert LeadRun(s, IsQuote) == 1;
    var t := body + "\"";
    assert t[..|t| - 1] == body;
    assert KeptEnd(t, IsQuote) == |body|;
    assert Trim(s, IsQuote) == body;
    CollapseChars(body);
    NoBracketNoMarker(Collapse(body));
  }

  // ----- the row loop -----

  /** The record each row yields, in order. */
  function Yields(rows: seq<Row>): (ys: seq<Option<Laureate>>)
    ensures |ys| == |rows|
  {
    seq(|rows|, i requires 0 <= i < |rows| => LaureateOf(rows[i]))
  }

  /** The records `rows` yield, in row order. */
  function Laureates(rows: seq<Row>): seq<Laureate> {
    Present(Yields(rows))
  }

  /** What the scrape returns: nothing without a page or a table, else the first table's rows after its header. */
  function Scraped(page: Option<seq<Table>>): seq<Laureate> {
    if page.None? || page.value == [] then [] else Laureates(Rest(page.value[0]))
  }

  /** Every record comes from one row. */
  lemma LaureateFromRow(rows: seq<Row>, e: Laureate)
    requires e in Laureates(rows)
    ensures exists i :: 0 <= i < |rows| && LaureateOf(rows[i]) == Some(e)
  {
    PresentFrom(Yields(rows), e);
  }

  lemma YieldsSnoc(done: seq<Row>, row: Row)
    ensures Yields(done + [row]) == Yields(done) + [LaureateOf(row)]
  {
    var s := done + [row];
    var a, b := Yields(s), Yields(done) + [LaureateOf(row)];
    forall i | 0 <= i < |s| ensures a[i] == b[i] {
    }
    assert a == b;
  }

  lemma RowStep(rows: seq<Row>, r: nat, entry: Option<Laureate>)
    requires r < |rows| && entry == LaureateOf(rows[r])
    ensures Laureates(rows[..r + 1]) == Laureates(rows[..r]) + match entry case Some(e) => [e] case None => []
  {
    TakeOneMore(rows, r);
    YieldsSnoc(rows[..r], rows[r]);
    PresentSnoc(Yields(rows[..r]), entry);
  }

  /** The body of the row loop, each `continue` an early return. */
  method VisitRow(row: Row) returns (entry: Option<Laureate>)
    ensures entry == LaureateOf(row)
  {
    if |row| < 6 {
      return None;
    }
    var yearText := row[0].text;
    if Contains(yearText, NotAwarded) || yearText == "" {
      return None;
    }
    var yearMatch := YearIn(yearText);
    if yearMatch.None? {
      return None;
    }
    var name := LaureateName(row[2]);
    if name == "" {
      return None;
    }
    var genre := "";
    if |row| > 6 {
      genre := Collapse(row[6].text);
    }
    entry := Some(Laureate(name, yearMatch.value, Collapse(row[3].text), Collapse(row[4].text), Citation(row[5].text), genre));
  }

  /** `scrape_nobel_literature`: `[]` when the page could not be fetched or has no wikitable. */
  method ScrapeNobel(page: Option<seq<Table>>) returns (entries: seq<Laureate>)
    ensures entries == Scraped(page)
  {
    entries := [];
    if page.None? || page.value == [] {
      return;
    }
    var rows := Rest(page.value[0]);
    assert rows[..0] == [];
    for r := 0 to |rows|
      invariant entries == Laureates(rows[..r])
    {
      var entry := VisitRow(rows[r]);
      RowStep(rows, r, entry);
      if entry.Some? {
        entries := entries + [entry.value];
      }
    }
    assert rows[..|rows|] == rows;
  }

  // ----- `extract_unique_authors` -----

  /** A non-empty author with every `(...)` deleted, stripped, when something is left. */
  function AuthorName(e: Laureate): (r: Option<string>)
    ensures r.Some? ==> r.value != "" && Strip(r.value) == r.value
  {
    if e.author == "" then None
    else
      var a := Strip(Sub(Note, e.author));
      TrimIdempotent(Sub(Note, e.author), IsSpace);
      if a == "" then None else Some(a)
  }

  /** An author with no parenthesis is kept as it is, stripped. */
  lemma PlainAuthor(e: Laureate)
    requires '(' !in e.author
    ensures AuthorName(e) == if Strip(e.author) == "" then None else Some(Strip(e.author))
  {
    NoParenNoMatch(Note, e.author);
  }

  /** A note in parentheses after the name is deleted, with the spaces before it. */
  lemma NoteDropped(e: Laureate, a: string, ws: string, note: string)
    requires e.author == a + ws + "(" + note + ")"
    requires a != [] && !IsSpace(a[0]) && !IsSpace(a[|a| - 1]) && '(' !in a
    requires forall i :: 0 <= i < |ws| ==> IsSpace(ws[i])
    requires ')' !in note && '\n' !in note
    ensures AuthorName(e) == Some(a)
  {
    NoteDeleted(a, ws, note);
    TrimOfTrimmed(a, IsSpace);
  }

  // ----- `main` -----

  /**
   * What `main` saves: a prefix of the scraped records, in page order, each from one row of
   * the first table; and a sorted, duplicate-free list of exactly the names drawn from them.
   */
  lemma SavedOutput(page: Option<seq<Table>>, limit: int)
    ensures var kept := Truncate(Scraped(page), limit);
      var authors := SortUnique(Names(kept, AuthorName));
      kept <= Scraped(page) &&
      (forall e :: e in kept ==> (page.Some? && page.value != [] &&
        exists i :: 0 <= i < |Rest(page.value[0])| && LaureateOf(Rest(page.value[0])[i]) == Some(e))) &&
      StrictlySorted(authors) &&
      forall a :: a in authors <==> exists i :: 0 <= i < |kept| && AuthorName(kept[i]) == Some(a)
  {
    var all := Scraped(page);
    var kept := Truncate(all, limit);
    TruncateIsPrefix(all, limit);
    forall e | e in kept
      ensures page.Some? && page.value != [] &&
        exists i :: 0 <= i < |Rest(page.value[0])| && LaureateOf(Rest(page.value[0])[i]) == Some(e)
    {
      var i :| 0 <= i < |kept| && kept[i] == e;
      assert all[i] == e;
      LaureateFromRow(Rest(page.value[0]), e);
    }
    forall a ensures a in SortUnique(Names(kept, AuthorName)) <==> exists i :: 0 <= i < |kept| && AuthorName(kept[i]) == Some(a) {
      NamesYield(kept, AuthorName, a);
      assert a in Elems(Names(kept, AuthorName)) <==> a in Names(kept, AuthorName);
      assert a in Elems(SortUnique(Names(kept, AuthorName))) <==> a in SortUnique(Names(kept, AuthorName));
    }
  }

  /** `main`: nothing saved when the scrape found nothing; otherwise the records cut to the limit and their authors. */
  method RunNobel(page: Option<seq<Table>>, limit: int) returns (saved: Option<(seq<Laureate>, seq<string>)>)
    ensures Scraped(page) == [] ==> saved.None?
    ensures Scraped(page) != [] ==>
      var kept := Truncate(Scraped(page), limit);
      saved == Some((kept, SortUnique(Names(kept, AuthorName))))
  {
    var entries := ScrapeNobel(page);
    if entries == [] {
      return None;
    }
    var kept := Truncate(entries, limit);
    var authors := CollectNames(kept, AuthorName);
    saved := Some((kept, authors));
  }
}
