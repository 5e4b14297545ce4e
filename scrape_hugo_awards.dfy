/**
 * `scrape_hugo_awards.py`: the second scan of the Wikipedia wikitables
 * (`assign_years_to_entries`), which gives every row of a table the year of the heading
 * before that table, takes the first co-author of the author cell, marks winners by a `*` or
 * a yellow row background and cleans the title; then `main`, which deduplicates, applies the
 * limit and collects the sorted unique author names.
 */
module HugoAwards {
  import opened Wrappers
  import opened Strings
  import opened Sorting
  import opened Sequences
  import opened Harvest
  import opened ScrapedText

  /** A `<td>`: the text nodes below it, in document order. */
  datatype Cell = Cell(pieces: seq<string>)

  /** A `<tr>`: its `<td>` cells and its `style` attribute (`""` when it has none). */
  datatype Row = Row(cells: seq<Cell>, style: string)

  /** A wikitable: the stripped text of the nearest `<h3>`, `<h4>` or `<h5>` before it, and its rows, the header row first. */
  datatype Table = Table(heading: Option<string>, rows: seq<Row>)

  /** A Hugo entry records its table's year besides author, title and `won`. */
  type Nominee = Entry<Option<int>>

  // ----- cell text -----

  /** The text nodes `get_text(strip=True)` uses: each stripped, the empty ones dropped. */
  function Kept(ps: seq<string>): seq<string> {
    if ps == [] then [] else (if Strip(ps[0]) == [] then [] else [Strip(ps[0])]) + Kept(ps[1..])
  }

  /** The kept text nodes are non-empty and stripped. */
  lemma {:induction false} KeptStripped(ps: seq<string>)
    ensures forall i :: 0 <= i < |Kept(ps)| ==> Kept(ps)[i] != [] && Strip(Kept(ps)[i]) == Kept(ps)[i]
  {
    if ps != [] {
      KeptStripped(ps[1..]);
      TrimIdempotent(ps[0], IsSpace);
    }
  }

  /** `get_text(strip=True)`. */
  function Text(c: Cell): string {
    JoinWith(Kept(c.pieces), "")
  }

  /** `get_text(separator='|', strip=True)`. */
  function TextSep(c: Cell): string {
    JoinWith(Kept(c.pieces), "|")
  }

  /** `[a.strip().replace('*', '') for a in parts if a.strip()]`. */
  function Segments(parts: seq<string>): seq<string> {
    if parts == [] then []
    else (if Strip(parts[0]) == [] then [] else [Remove(Strip(parts[0]), '*')]) + Segments(parts[1..])
  }

  /** The author of an author cell: the first segment of the `|`-joined text, else the whole text without stars, stripped. */
  function CellAuthor(c: Cell): string {
    var authors := Segments(Split(TextSep(c), '|'));
    if authors != [] then authors[0] else Strip(Remove(Text(c), '*'))
  }

  /** A character that is not a space survives `strip` exactly where it occurs. */
  lemma StripKeeps(s: string, x: char)
    requires !IsSpace(x)
    ensures x in Strip(s) <==> x in s
  {
    var i, j := TrimIsInfix(s, IsSpace);
    if x in s {
      var k :| 0 <= k < |s| && s[k] == x;
      assert s[i..j][k - i] == x;
    }
  }

  /** A non-space character is in the kept text nodes exactly when it is in the cell's text nodes. */
  lemma {:induction false} KeptChars(ps: seq<string>, x: char)
    requires !IsSpace(x)
    ensures (exists i :: 0 <= i < |Kept(ps)| && x in Kept(ps)[i]) <==> exists i :: 0 <= i < |ps| && x in ps[i]
  {
    if ps != [] {
      var rest := Kept(ps[1..]);
      KeptChars(ps[1..], x);
      StripKeeps(ps[0], x);
      var head := if Strip(ps[0]) == [] then [] else [Strip(ps[0])];
      assert Kept(ps) == head + rest;
      if exists i :: 0 <= i < |ps| && x in ps[i] {
        var i :| 0 <= i < |ps| && x in ps[i];
        if i == 0 {
          assert Kept(ps)[0] == Strip(ps[0]);
        } else {
          assert x in ps[1..][i - 1];
          var j :| 0 <= j < |rest| && x in rest[j];
          assert Kept(ps)[|head| + j] == rest[j];
        }
      }
      if exists i :: 0 <= i < |Kept(ps)| && x in Kept(ps)[i] {
        var i :| 0 <= i < |Kept(ps)| && x in Kept(ps)[i];
        if i >= |head| {
          assert rest[i - |head|] == Kept(ps)[i];
          var j :| 0 <= j < |ps[1..]| && x in ps[1..][j];
          assert ps[j + 1] == ps[1..][j];
        } else {
          assert Kept(ps)[i] == Strip(ps[0]);
        }
      }
    }
  }

  lemma {:induction false} JoinedChars(ps: seq<string>, x: char)
    ensures x in JoinWith(ps, "") <==> exists i :: 0 <= i < |ps| && x in ps[i]
  {
    if |ps| > 1 {
      JoinedChars(ps[1..], x);
      assert JoinWith(ps, "") == ps[0] + JoinWith(ps[1..], "");
      if exists i :: 0 <= i < |ps| && x in ps[i] {
        var i :| 0 <= i < |ps| && x in ps[i];
        if i > 0 {
          assert x in ps[1..][i - 1];
        }
      }
    }
  }

  /** `'*' in author_text`: a star in any text node of the cell. */
  lemma StarAnywhere(c: Cell)
    ensures '*' in Text(c) <==> exists i :: 0 <= i < |c.pieces| && '*' in c.pieces[i]
  {
    JoinedChars(Kept(c.pieces), '*');
    KeptChars(c.pieces, '*');
  }

  lemma {:induction false} KeptNoBar(ps: seq<string>)
    requires forall i :: 0 <= i < |ps| ==> '|' !in ps[i]
    ensures forall i :: 0 <= i < |Kept(ps)| ==> '|' !in Kept(ps)[i]
  {
    if ps != [] {
      KeptNoBar(ps[1..]);
      StripKeeps(ps[0], '|');
    }
  }

  /**
   * When no text node holds a `|`, the author is the cell's first non-blank text node,
   * stripped, without its stars.
   */
  lemma FirstAuthor(c: Cell)
    requires forall i :: 0 <= i < |c.pieces| ==> '|' !in c.pieces[i]
    requires Kept(c.pieces) != []
    ensures CellAuthor(c) == Remove(Kept(c.pieces)[0], '*')
  {
    var ks := Kept(c.pieces);
    KeptNoBar(c.pieces);
    KeptStripped(c.pieces);
    SplitJoin(ks, '|');
    assert Split(TextSep(c), '|') == ks;
  }

  /** A lone star in the first text node leaves an empty author, so that row yields no entry. */
  lemma LoneStarFirst(c: Cell)
    requires forall i :: 0 <= i < |c.pieces| ==> '|' !in c.pieces[i]
    requires Kept(c.pieces) != [] && Kept(c.pieces)[0] == "*"
    ensures CellAuthor(c) == ""
  {
    FirstAuthor(c);
    assert Remove("*", '*') == [] + Remove("", '*');
  }

  // ----- one row -----

  /** The year of the heading before a table, if it has one. */
  function TableYear(t: Table): (y: Option<int>)
    ensures y.Some? ==> 1900 <= y.value <= 2099
  {
    if t.heading.Some? then YearIn(t.heading.value) else None
  }

  /** `'background' in style.lower() and 'yellow' in style.lower()`. */
  predicate Yellow(style: string) {
    Contains(Lower(style), "background") && Contains(Lower(style), "yellow")
  }

  /** The entry a row of a table with year `year` yields. */
  function EntryOf(row: Row, year: Option<int>): (r: Option<Nominee>)
    ensures r.Some? ==> |row.cells| >= 2 && |r.value.author| > 1 && |r.value.title| > 1 && r.value.details == year
  {
    if |row.cells| < 2 then None
    else
      var author := CellAuthor(row.cells[0]);
      var title := Sub(AlsoKnownAs, Text(row.cells[1]));
      if |author| > 1 && |title| > 1 then
        Some(Entry(author, title, '*' in Text(row.cells[0]) || Yellow(row.style), year))
      else None
  }

  /**
   * A row yields an entry exactly when it has two cells and an author and a cleaned title
   * longer than one character; it is a win exactly when a text node of the author cell
   * holds a star or the row style names a yellow background, in any case.
   */
  lemma EntryOfRow(row: Row, year: Option<int>)
    ensures EntryOf(row, year).Some? <==>
      |row.cells| >= 2 && |CellAuthor(row.cells[0])| > 1 && |Sub(AlsoKnownAs, Text(row.cells[1]))| > 1
    ensures EntryOf(row, year).Some? ==>
      var e := EntryOf(row, year).value;
      e.author == CellAuthor(row.cells[0]) && e.title == Sub(AlsoKnownAs, Text(row.cells[1])) &&
      (e.won <==> (exists i :: 0 <= i < |row.cells[0].pieces| && '*' in row.cells[0].pieces[i]) || Yellow(row.style))
  {
    if |row.cells| >= 2 {
      StarAnywhere(row.cells[0]);
    }
  }

  /** A title with no `(` keeps its text. */
  lemma PlainTitle(t: string)
    requires '(' !in t
    ensures Sub(AlsoKnownAs, t) == t
  {
    forall i | 0 <= i < |t| ensures MatchLen(AlsoKnownAs, t[i..]) == 0 {
      var u := t[i..];
      var w := LeadRun(u, IsSpace);
      assert !IsAt(u, AlsoKnown, w) by {
        if w + |AlsoKnown| <= |u| {
          assert u[w..w + |AlsoKnown|][0] == u[w] == t[i + w];
        }
      }
    }
    SubUnmatched(AlsoKnownAs, t);
  }

  // ----- the scan -----

  /** The entry each of `rows` yields when they all carry `year`. */
  function Yields(rows: seq<Row>, year: Option<int>): (ys: seq<Option<Nominee>>)
    ensures |ys| == |rows|
  {
    seq(|rows|, i requires 0 <= i < |rows| => EntryOf(rows[i], year))
  }

  /** The entries `rows` yield, in order, when they all carry `year`. */
  function RowEntries(rows: seq<Row>, year: Option<int>): seq<Nominee> {
    Present(Yields(rows, year))
  }

  /** The entries one table contributes: its rows after the header, with the heading's year. */
  function TableEntries(t: Table): seq<Nominee> {
    RowEntries(Rest(t.rows), TableYear(t))
  }

  /** The entries the scan appends, table after table. */
  function Harvested(tables: seq<Table>): seq<Nominee> {
    if tables == [] then [] else Harvested(tables[..|tables| - 1]) + TableEntries(tables[|tables| - 1])
  }

  /** All entries of one table carry the year of that table's heading. */
  lemma SameYear(t: Table, e: Nominee)
    requires e in TableEntries(t)
    ensures e.details == TableYear(t)
  {
    PresentFrom(Yields(Rest(t.rows), TableYear(t)), e);
  }

  /** Every entry comes from one row of one table and carries that table's year. */
  lemma {:induction false} HarvestedFromTables(tables: seq<Table>, e: Nominee)
    requires e in Harvested(tables)
    ensures exists t, i :: (0 <= t < |tables| && 0 <= i < |Rest(tables[t].rows)| &&
      EntryOf(Rest(tables[t].rows)[i], TableYear(tables[t])) == Some(e))
  {
    var init := tables[..|tables| - 1];
    if e in Harvested(init) {
      HarvestedFromTables(init, e);
      var t, i :| 0 <= t < |init| && 0 <= i < |Rest(init[t].rows)| && EntryOf(Rest(init[t].rows)[i], TableYear(init[t])) == Some(e);
      assert init[t] == tables[t];
    } else {
      var last := tables[|tables| - 1];
      var ys := Yields(Rest(last.rows), TableYear(last));
      PresentFrom(ys, e);
      var i :| 0 <= i < |ys| && ys[i] == Some(e);
      assert EntryOf(Rest(last.rows)[i], TableYear(last)) == Some(e);
    }
  }

  lemma YieldsSnoc(done: seq<Row>, row: Row, year: Option<int>)
    ensures Yields(done + [row], year) == Yields(done, year) + [EntryOf(row, year)]
  {
    var s := done + [row];
    var a, b := Yields(s, year), Yields(done, year) + [EntryOf(row, year)];
    forall i | 0 <= i < |s| ensures a[i] == b[i] {
    }
    assert a == b;
  }

  /** One more row adds its own entry, if any, to those of the rows before it. */
  lemma RowStep(rows: seq<Row>, r: nat, year: Option<int>, entries0: seq<Nominee>, entry: Option<Nominee>)
    requires r < |rows| && entry == EntryOf(rows[r], year)
    ensures entries0 + RowEntries(rows[..r + 1], year) ==
      entries0 + RowEntries(rows[..r], year) + match entry case Some(e) => [e] case None => []
  {
    TakeOneMore(rows, r);
    YieldsSnoc(rows[..r], rows[r], year);
    PresentSnoc(Yields(rows[..r], year), entry);
  }

  /** The body of the row loop: the author cell's text and stars, the first co-author, the title, the style. */
  method VisitRow(row: Row, year: Option<int>) returns (entry: Option<Nominee>)
    ensures entry == EntryOf(row, year)
  {
    if |row.cells| < 2 {
      return None;
    }
    var authorText := Text(row.cells[0]);
    var won := '*' in authorText;
    var author := Strip(Remove(authorText, '*'));
    var authors := Segments(Split(TextSep(row.cells[0]), '|'));
    if authors != [] {
      author := authors[0];
    }
    var title := Sub(AlsoKnownAs, Text(row.cells[1]));
    entry := None;
    if |author| > 1 && |title| > 1 {
      if !won && Yellow(row.style) {
        won := true;
      }
      entry := Some(Entry(author, title, won, year));
    }
  }

  /** The row loop of one table: every row after the header, all getting the same `year`. */
  method VisitRows(rows: seq<Row>, year: Option<int>, entries0: seq<Nominee>) returns (entries: seq<Nominee>)
    ensures entries == entries0 + RowEntries(rows, year)
  {
    entries := entries0;
    assert rows[..0] == [];
    for r := 0 to |rows|
      invariant entries == entries0 + RowEntries(rows[..r], year)
    {
      var entry := VisitRow(rows[r], year);
      RowStep(rows, r, year, entries0, entry);
      if entry.Some? {
        entries := entries + [entry.value];
      }
    }
    assert rows[..|rows|] == rows;
  }

  /** `assign_years_to_entries`: for every table its heading's year, then its rows. */
  method AssignYears(tables: seq<Table>) returns (entries: seq<Nominee>)
    ensures entries == Harvested(tables)
  {
    entries := [];
    for t := 0 to |tables|
      invariant entries == Harvested(tables[..t])
    {
      var table := tables[t];
      var year: Option<int> := None;
      if table.heading.Some? {
        year := YearIn(table.heading.value);
      }
      assert tables[..t + 1][..t] == tables[..t];
      entries := VisitRows(Rest(table.rows), year, entries);
    }
    assert tables[..|tables|] == tables;
  }

  // ----- `get_unique_authors` -----

  /** A trailing `(...)`, then a trailing `[...]` deleted; kept, stripped, when longer than one character. */
  function AuthorName(e: Nominee): (r: Option<string>)
    ensures r.Some? ==> Strip(r.value) == r.value
  {
    var a := Sub(TrailingNote('[', ']'), Sub(TrailingNote('(', ')'), e.author));
    TrimIdempotent(a, IsSpace);
    if |a| > 1 then Some(Strip(a)) else None
  }

  /** A trailing role is dropped, and (unlike the Booker scraper) co-authors joined by `" and "` are kept together. */
  lemma RoleDropped(e: Nominee, a: string, ws: string, role: string)
    requires e.author == a + ws + "(" + role + ")"
    requires '(' !in a && '[' !in a
    requires a != [] && !IsSpace(a[0]) && !IsSpace(a[|a| - 1])
    requires ws != [] && forall i :: 0 <= i < |ws| ==> IsSpace(ws[i])
    requires '\n' !in role
    ensures AuthorName(e) == if |a| > 1 then Some(a) else None
  {
    assert e.author == a + ws + ['('] + role + [')'];
    TrailingNoteDeleted(a, ws, role, '(', ')');
    NoOpenNoTrailing(a, '[', ']');
    TrimOfTrimmed(a, IsSpace);
  }

  lemma PlainAuthor(e: Nominee)
    requires '(' !in e.author && '[' !in e.author
    requires e.author == [] || (!IsSpace(e.author[0]) && !IsSpace(e.author[|e.author| - 1]))
    ensures AuthorName(e) == if |e.author| > 1 then Some(e.author) else None
  {
    NoOpenNoTrailing(e.author, '(', ')');
    NoOpenNoTrailing(e.author, '[', ']');
    TrimOfTrimmed(e.author, IsSpace);
  }

  // ----- `main` -----

  /**
   * `main`: no output when the scrape failed or found nothing; otherwise the deduplicated
   * entries, cut to the limit, and the sorted unique authors of the entries kept.
   */
  method RunHugo(page: Option<seq<Table>>, limit: int) returns (saved: Option<(seq<Nominee>, seq<string>)>)
    ensures page.None? || Harvested(page.value) == [] ==> saved.None?
    ensures page.Some? && Harvested(page.value) != [] ==>
      var kept := Truncate(Dedup(Harvested(page.value)), limit);
      saved == Some((kept, SortUnique(Names(kept, AuthorName))))
  {
    var entries: seq<Nominee> := [];
    if page.Some? {
      entries := AssignYears(page.value);
    }
    if entries == [] {
      return None;
    }
    var unique := Deduplicate(entries);
    var kept := Truncate(unique, limit);
    var authors := CollectNames(kept, AuthorName);
    saved := Some((kept, authors));
  }
}
