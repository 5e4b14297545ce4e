/**
 * `scrape_booker_prize.py`: the second scan of the Wikipedia wikitables
 * (`assign_years_to_entries`), which classifies each row by its status cell, carries the
 * current year forward across rows and tables and cleans the title; then `main`, which
 * deduplicates, applies the limit and collects the sorted unique author names.
 */
module BookerPrize {
  import opened Wrappers
  import opened Strings
  import opened Scan
  import opened Sorting
  import opened Sequences
  import opened Harvest
  import opened ScrapedText

  /**
   * A `<tr>` of a wikitable: the stripped text of its `<td>` cells, and the stripped text of
   * the nearest `<h3>`, `<h4>` or `<caption>` before it in the page, if there is one.
   */
  datatype Row = Row(cells: seq<string>, heading: Option<string>)

  /** A table's rows, its header row first. */
  type Table = seq<Row>

  /** What a Booker entry records besides author, title and `won`. */
  datatype Standing = Standing(shortlist: bool, longlist: bool, year: Option<int>)

  type Nominee = Entry<Standing>

  // ----- the rows visited -----

  /** The rows the scan visits, table after table, each table's header row (`rows[1:]`) left out. */
  function Body(tables: seq<Table>): seq<Row> {
    if tables == [] then [] else Body(tables[..|tables| - 1]) + Rest(tables[|tables| - 1])
  }

  // ----- the current year -----

  /** `current_year` once `row` is seen: the status cell's year, else the heading's while no year is known. */
  function NextYear(year: Option<int>, row: Row): Option<int> {
    if |row.cells| < 2 then year
    else if YearIn(row.cells[0]).Some? then YearIn(row.cells[0])
    else if year.None? && row.heading.Some? then YearIn(row.heading.value)
    else year
  }

  /** `current_year` after the rows `rows`, starting from `None`. */
  function YearAfter(rows: seq<Row>): Option<int> {
    if rows == [] then None else NextYear(YearAfter(rows[..|rows| - 1]), rows[|rows| - 1])
  }

  /** The year in the status cell of the last row (of two cells or more) that has one. */
  function LastStatusYear(rows: seq<Row>): Option<int> {
    if rows == [] then None
    else
      var r := rows[|rows| - 1];
      if |r.cells| >= 2 && YearIn(r.cells[0]).Some? then YearIn(r.cells[0]) else LastStatusYear(rows[..|rows| - 1])
  }

  /** The year in the heading of the first row (of two cells or more) whose heading has one. */
  function FirstHeadingYear(rows: seq<Row>): Option<int> {
    if rows == [] then None
    else
      var r := rows[0];
      if |r.cells| >= 2 && r.heading.Some? && YearIn(r.heading.value).Some? then YearIn(r.heading.value)
      else FirstHeadingYear(rows[1..])
  }

  lemma {:induction false} FirstHeadingYearSnoc(rows: seq<Row>, r: Row)
    ensures FirstHeadingYear(rows + [r]) ==
      if FirstHeadingYear(rows).Some? then FirstHeadingYear(rows)
      else if |r.cells| >= 2 && r.heading.Some? then YearIn(r.heading.value)
      else None
  {
    if rows != [] {
      assert (rows + [r])[0] == rows[0];
      assert (rows + [r])[1..] == rows[1..] + [r];
      FirstHeadingYearSnoc(rows[1..], r);
    }
  }

  /**
   * The year is carried forward: it is the last year seen in a status cell, across all
   * tables; the headings count only while no status cell has shown a year, and then only
   * the first heading that has one.
   */
  lemma {:induction false} YearCarried(rows: seq<Row>)
    ensures YearAfter(rows) == if LastStatusYear(rows).Some? then LastStatusYear(rows) else FirstHeadingYear(rows)
  {
    if rows != [] {
      var init, r := rows[..|rows| - 1], rows[|rows| - 1];
      assert rows == init + [r];
      YearCarried(init);
      FirstHeadingYearSnoc(init, r);
    }
  }

  /** Any year known is a `19xx` or `20xx` year. */
  lemma {:induction false} YearAfterRange(rows: seq<Row>)
    ensures YearAfter(rows).Some? ==> 1900 <= YearAfter(rows).value <= 2099
  {
    if rows != [] {
      YearAfterRange(rows[..|rows| - 1]);
    }
  }

  // ----- one row -----

  /** The status markers: `any(x in status_text for x in [...])`. */
  predicate Marked(status: string) {
    Contains(status, "Winner") || Contains(status, "Winners") || Contains(status, "Shortlist") || Contains(status, "Longlist")
  }

  /** `"Winners"` contains `"Winner"`, so it adds nothing to the markers, and a "Winners" row is a win. */
  lemma WinnersIsWinner(status: string)
    ensures Contains(status, "Winners") ==> Contains(status, "Winner")
    ensures Marked(status) <==> Contains(status, "Winner") || Contains(status, "Shortlist") || Contains(status, "Longlist")
  {
    if Contains(status, "Winners") {
      var i :| 0 <= i <= |status| && IsAt(status, "Winners", i);
      assert status[i..i + 6] == status[i..i + 7][..6];
      assert IsAt(status, "Winner", i);
    }
  }

  /** The title with every `[digits]` and then every `(...)`, with the spaces before it, deleted. */
  function CleanTitle(t: string): string {
    Sub(Note, Sub(RefMarker, t))
  }

  /** The entry a row after the year check yields, for the current year `year`. */
  function NomineeOf(row: Row, year: Option<int>): (r: Option<Nominee>)
    ensures r.Some? ==> |r.value.author| > 1 && |r.value.title| > 1 && r.value.details.year == year
    ensures r.Some? ==> |row.cells| >= 3 && r.value.author == row.cells[1] && r.value.title == CleanTitle(row.cells[2])
  {
    if |row.cells| >= 3 && Marked(row.cells[0]) then
      var status, author, title := row.cells[0], row.cells[1], CleanTitle(row.cells[2]);
      if |author| > 1 && |title| > 1 then
        Some(Entry(author, title, Contains(status, "Winner"),
          Standing(Contains(status, "Shortlist"), Contains(status, "Longlist"), year)))
      else None
    else None
  }

  /**
   * A row yields an entry exactly when it has three cells, a marked status and an author and
   * a cleaned title longer than one character; each flag is its own substring test, and at
   * least one of them holds.
   */
  lemma NomineeOfRow(row: Row, year: Option<int>)
    ensures NomineeOf(row, year).Some? <==>
      |row.cells| >= 3 && Marked(row.cells[0]) && |row.cells[1]| > 1 && |CleanTitle(row.cells[2])| > 1
    ensures NomineeOf(row, year).Some? ==>
      var e := NomineeOf(row, year).value;
      (e.won <==> Contains(row.cells[0], "Winner")) &&
      (e.details.shortlist <==> Contains(row.cells[0], "Shortlist")) &&
      (e.details.longlist <==> Contains(row.cells[0], "Longlist")) &&
      (e.won || e.details.shortlist || e.details.longlist)
  {
    if |row.cells| >= 3 {
      WinnersIsWinner(row.cells[0]);
    }
  }

  /** A title free of `[` and `(` is kept as it is. */
  lemma PlainTitle(t: string)
    requires '[' !in t && '(' !in t
    ensures CleanTitle(t) == t
  {
    NoBracketNoMarker(t);
    NoParenNoMatch(Note, t);
  }

  /** A trailing `[digits]` reference marker is deleted from a title. */
  lemma TitleMarkerDeleted(t: string, d: string)
    requires '[' !in t && '(' !in t
    requires d != [] && forall i :: 0 <= i < |d| ==> IsDigit(d[i])
    ensures CleanTitle(t + "[" + d + "]") == t
  {
    MarkerDeleted(t, d, "");
    assert t + "[" + d + "]" + "" == t + "[" + d + "]";
    NoBracketNoMarker("");
    assert Sub(RefMarker, t + "[" + d + "]") == t + "";
    assert t + "" == t;
    NoParenNoMatch(Note, t);
  }

  /** A trailing `(...)` note is deleted from a title, with the spaces before it. */
  lemma TitleNoteDeleted(t: string, ws: string, note: string)
    requires t != [] && !IsSpace(t[|t| - 1]) && '[' !in t && '(' !in t
    requires forall i :: 0 <= i < |ws| ==> IsSpace(ws[i])
    requires '[' !in note && ')' !in note && '\n' !in note
    ensures CleanTitle(t + ws + "(" + note + ")") == t
  {
    var s := t + ws + "(" + note + ")";
    forall c | c in s ensures c != '[' {
      var i :| 0 <= i < |s| && s[i] == c;
      if i < |t| {
        assert s[i] == t[i];
      } else if i < |t| + |ws| {
        assert s[i] == ws[i - |t|];
      } else if |t| + |ws| < i < |s| - 1 {
        assert s[i] == note[i - |t| - |ws| - 1];
      }
    }
    NoBracketNoMarker(s);
    NoteDeleted(t, ws, note);
  }

  // ----- the scan -----

  /** The entry each visited row yields, if any, for the year in force once it is seen. */
  function Yields(rows: seq<Row>): (ys: seq<Option<Nominee>>)
    ensures |ys| == |rows|
  {
    seq(|rows|, i requires 0 <= i < |rows| => NomineeOf(rows[i], YearAfter(rows[..i + 1])))
  }

  /** The entries the scan appends while visiting `rows`. */
  function Harvested(rows: seq<Row>): seq<Nominee> {
    Present(Yields(rows))
  }

  /** Every entry comes from one row, and carries the year in force at that row. */
  lemma HarvestedFromRows(rows: seq<Row>, e: Nominee)
    requires e in Harvested(rows)
    ensures exists i :: 0 <= i < |rows| && NomineeOf(rows[i], YearAfter(rows[..i + 1])) == Some(e)
  {
    PresentFrom(Yields(rows), e);
    var i :| 0 <= i < |rows| && Yields(rows)[i] == Some(e);
  }

  /** Each row's entries, the rows of one table after those of the tables before. */
  lemma BodySnoc(tables: seq<Table>, t: nat)
    requires t < |tables|
    ensures Body(tables[..t + 1]) == Body(tables[..t]) + Rest(tables[t])
  {
    assert tables[..t + 1][..t] == tables[..t];
  }

  lemma Extend(before: seq<Row>, rows: seq<Row>, r: nat)
    requires r < |rows|
    ensures before + rows[..r + 1] == (before + rows[..r]) + [rows[r]]
  {
    assert rows[..r + 1] == rows[..r] + [rows[r]];
  }

  lemma YieldsSnoc(done: seq<Row>, row: Row)
    ensures YearAfter(done + [row]) == NextYear(YearAfter(done), row)
    ensures Yields(done + [row]) == Yields(done) + [NomineeOf(row, NextYear(YearAfter(done), row))]
  {
    var s := done + [row];
    assert s[..|done|] == done;
    var y := NomineeOf(row, NextYear(YearAfter(done), row));
    var a, b := Yields(s), Yields(done) + [y];
    forall i | 0 <= i < |s| ensures a[i] == b[i] {
      if i < |done| {
        assert s[..i + 1] == done[..i + 1];
      } else {
        assert s[..i + 1] == s;
      }
    }
    assert a == b;
  }

  lemma ScanStep(done: seq<Row>, row: Row)
    ensures YearAfter(done + [row]) == NextYear(YearAfter(done), row)
    ensures Harvested(done + [row]) == Harvested(done) +
      match NomineeOf(row, NextYear(YearAfter(done), row)) case Some(e) => [e] case None => []
  {
    YieldsSnoc(done, row);
    PresentSnoc(Yields(done), NomineeOf(row, NextYear(YearAfter(done), row)));
  }

  /** The body of the row loop: the year check, then the entry the row yields, if any. */
  method VisitRow(row: Row, year: Option<int>) returns (next: Option<int>, entry: Option<Nominee>)
    ensures next == NextYear(year, row) && entry == NomineeOf(row, next)
  {
    next, entry := year, None;
    if |row.cells| >= 2 {
      var status := row.cells[0];
      var statusYear := YearIn(status);
      if statusYear.Some? {
        next := statusYear;
      }
      if next.None? && row.heading.Some? {
        next := YearIn(row.heading.value);
      }
      entry := NomineeOf(row, next);
    }
  }

  /** The row loop of one table: visits `rows` after the rows `done` already seen. */
  method VisitRows(ghost done: seq<Row>, rows: seq<Row>, year0: Option<int>, entries0: seq<Nominee>)
    returns (year: Option<int>, entries: seq<Nominee>)
    requires year0 == YearAfter(done) && entries0 == Harvested(done)
    ensures year == YearAfter(done + rows) && entries == Harvested(done + rows)
  {
    year, entries := year0, entries0;
    assert done + rows[..0] == done;
    for r := 0 to |rows|
      invariant year == YearAfter(done + rows[..r])
      invariant entries == Harvested(done + rows[..r])
    {
      var row := rows[r];
      ScanStep(done + rows[..r], row);
      Extend(done, rows, r);
      var entry;
      year, entry := VisitRow(row, year);
      if entry.Some? {
        entries := entries + [entry.value];
      }
    }
    assert done + rows[..|rows|] == done + rows;
  }

  /** `assign_years_to_entries`: the loops over the tables and their rows, threading `current_year`. */
  method AssignYears(tables: seq<Table>) returns (entries: seq<Nominee>)
    ensures entries == Harvested(Body(tables))
  {
    entries := [];
    var year: Option<int> := None;
    for t := 0 to |tables|
      invariant entries == Harvested(Body(tables[..t]))
      invariant year == YearAfter(Body(tables[..t]))
    {
      BodySnoc(tables, t);
      year, entries := VisitRows(Body(tables[..t]), Rest(tables[t]), year, entries);
    }
    assert tables[..|tables|] == tables;
  }

  // ----- `get_unique_authors` -----

  const And := " and "

  /**
   * One author's contribution to the set: the name without a trailing `(...)`, then a trailing
   * `[...]`, then every `[digits]`; before the first `" and "`, stripped; kept when longer than
   * one character, and stripped once more.
   */
  function AuthorName(e: Nominee): (r: Option<string>)
    ensures r.Some? ==> Strip(r.value) == r.value
  {
    var a := Sub(RefMarker, Sub(TrailingNote('[', ']'), Sub(TrailingNote('(', ')'), e.author)));
    var primary := if Contains(a, And) then Strip(BeforeText(a, And)) else a;
    TrimIdempotent(primary, IsSpace);
    if |primary| > 1 then Some(Strip(primary)) else None
  }

  /** A name with no brackets and no `" and "`, stripped, is kept as it is when longer than one character. */
  lemma PlainAuthor(e: Nominee)
    requires '(' !in e.author && '[' !in e.author && !Contains(e.author, And)
    requires e.author == [] || (!IsSpace(e.author[0]) && !IsSpace(e.author[|e.author| - 1]))
    ensures AuthorName(e) == if |e.author| > 1 then Some(e.author) else None
  {
    NoOpenNoTrailing(e.author, '(', ')');
    NoOpenNoTrailing(e.author, '[', ']');
    NoBracketNoMarker(e.author);
    TrimOfTrimmed(e.author, IsSpace);
  }

  /** Of `"A and B"` only the first author is kept, stripped. */
  lemma CoAuthorDropped(e: Nominee, a: string, b: string)
    requires e.author == a + And + b
    requires '(' !in e.author && '[' !in e.author
    requires !Contains(a + " and", And)
    ensures AuthorName(e) == if |Strip(a)| > 1 then Some(Strip(a)) else None
  {
    var s := e.author;
    NoOpenNoTrailing(s, '(', ')');
    NoOpenNoTrailing(s, '[', ']');
    NoBracketNoMarker(s);
    assert IsAt(s, And, |a|);
    forall i | 0 <= i < |a| ensures !IsAt(s, And, i) {
      if IsAt(s, And, i) {
        assert s[..|a| + 4] == a + " and";
        assert (a + " and")[i..i + 5] == s[i..i + 5];
        assert IsAt(a + " and", And, i);
      }
    }
    assert Contains(s, And);
    var r := BeforeText(s, And);
    assert |r| == |a|;
    assert r == a;
    TrimIdempotent(a, IsSpace);
  }

  /** A trailing role such as `"(translator)"` is dropped from a name. */
  lemma RoleDropped(e: Nominee, a: string, ws: string, role: string)
    requires e.author == a + ws + "(" + role + ")"
    requires '(' !in a && '[' !in a && !Contains(a, And)
    requires a != [] && !IsSpace(a[0]) && !IsSpace(a[|a| - 1])
    requires ws != [] && forall i :: 0 <= i < |ws| ==> IsSpace(ws[i])
    requires '\n' !in role
    ensures AuthorName(e) == if |a| > 1 then Some(a) else None
  {
    assert e.author == a + ws + ['('] + role + [')'];
    TrailingNoteDeleted(a, ws, role, '(', ')');
    PlainAuthor(Entry(a, e.title, e.won, e.details));
    NoOpenNoTrailing(a, '[', ']');
    NoBracketNoMarker(a);
  }

  // ----- `main` -----

  /**
   * `main`: no output when the scrape failed or found nothing; otherwise the deduplicated
   * entries, cut to the limit, and the sorted unique authors of the entries kept.
   */
  method RunBooker(page: Option<seq<Table>>, limit: int) returns (saved: Option<(seq<Nominee>, seq<string>)>)
    ensures page.None? || Harvested(Body(page.value)) == [] ==> saved.None?
    ensures page.Some? && Harvested(Body(page.value)) != [] ==>
      var kept := Truncate(Dedup(Harvested(Body(page.value))), limit);
      saved == Some((kept, SortUnique(Names(kept, AuthorName))))
  {
    var entries: seq<Nominee> := [];
    if page.Some? {
      entries := AssignYears(page.value);
    }
    if entries == [] {
      return None;
    }
    var unique := Deduplicate(entries);
    var kept := Truncate(unique, limit);
    var authors := CollectNames(kept, AuthorName);
    saved := Some((kept, authors));
  }
}
