/**
 * `check_single_book.py`: fetches one title's detail page and reports its title, its
 * availability (from the copy counts, else from the `"isAvailable"` flag) and its summary.
 */
module SingleBook {
  import opened Wrappers
  import opened Strings
  import opened Scan
  import opened Effects
  import opened Catalog
  import opened CheckAvailability

  const TitleKey := "\"title\":\""

  /** `"title":"([^"]+)"` matched at position `i`: a non-empty run of non-quotes closed by a quote. */
  function TitleAt(s: string, i: nat): (r: Option<string>)
    ensures r.Some? ==> r.value != [] && forall k :: 0 <= k < |r.value| ==> r.value[k] != '"'
  {
    if !IsAt(s, TitleKey, i) then None
    else
      var start := i + |TitleKey|;
      var end := IndexOf(s, '"', start);
      if start < end < |s| then Some(s[start..end]) else None
  }

  /** The title the page reports, `"Unknown"` when the pattern is absent. */
  function TitleOf(body: string): string {
    Search(body, TitleAt).GetOr("Unknown")
  }

  /** A title found is spelled out on the page, key and closing quote included. */
  lemma TitleOnPage(body: string)
    requires Search(body, TitleAt).Some?
    ensures exists i :: 0 <= i <= |body| && IsAt(body, TitleKey + TitleOf(body) + "\"", i)
  {
    var i := FirstIndex(body, 0, TitleAt).value;
    var t := TitleAt(body, i).value;
    assert t == TitleOf(body);
    var start := i + |TitleKey|;
    var end := IndexOf(body, '"', start);
    assert body[start..end] == t;
    TitleSpelled(body, i, start, end, t);
  }

  lemma TitleSpelled(body: string, i: nat, start: nat, end: nat, t: string)
    requires IsAt(body, TitleKey, i) && start == i + |TitleKey| && start < end < |body|
    requires body[start..end] == t && body[end] == '"'
    ensures IsAt(body, TitleKey + t + "\"", i)
  {
    var w := TitleKey + t + "\"";
    assert body[i..end + 1] == body[i..start] + body[start..end] + [body[end]];
    assert body[i..i + |w|] == w;
  }

  /** Conversely, a quoted non-empty title after the key at `i` is what the matcher reads there. */
  lemma TitleAtReads(s: string, i: nat, t: string)
    requires t != [] && forall k :: 0 <= k < |t| ==> t[k] != '"'
    requires IsAt(s, TitleKey + t + "\"", i)
    ensures TitleAt(s, i) == Some(t)
  {
    var start := i + |TitleKey|;
    var w := TitleKey + t + "\"";
    assert s[i..i + |w|] == w;
    assert IsAt(s, TitleKey, i) by {
      assert s[i..start] == w[..|TitleKey|];
    }
    forall k | start <= k < start + |t| ensures s[k] != '"' {
      assert s[k] == s[i..i + |w|][k - i] == w[k - i] == t[k - start];
    }
    assert s[start + |t|] == s[i..i + |w|][|w| - 1] == w[|w| - 1] == '"';
    var end := IndexOf(s, '"', start);
    assert end == start + |t|;
    assert s[start..end] == t by {
      forall k | 0 <= k < |t| ensures s[start..end][k] == t[k] {
        assert s[start + k] == s[i..i + |w|][|TitleKey| + k] == w[|TitleKey| + k];
      }
    }
  }

  /** How the availability is decided on the page. */
  datatype Status = Counted(availableCopies: nat, ownedCopies: nat) | Flagged(available: bool) | Undetermined

  /** What the script shows for a fetched page. */
  datatype Report = Report(title: string, url: string, status: Status, summary: Option<string>)

  function StatusOf(body: string): Status {
    var avail := FindNat(body, AvailableCopiesKey);
    var owned := FindNat(body, OwnedCopiesKey);
    if avail.Some? && owned.Some? then Counted(avail.value, owned.value)
    else if FindFlag(body).Some? then Flagged(FindFlag(body).value)
    else Undetermined
  }

  /** `Status: AVAILABLE` is shown when a copy is free, or when only the flag is there and it says so. */
  predicate ShownAvailable(st: Status) {
    match st
    case Counted(n, _) => n > 0
    case Flagged(b) => b
    case Undetermined => false
  }

  /** The summary is printed only when the status is known and the description is non-empty. */
  function Summary(st: Status, d: Option<string>): (r: Option<string>)
    ensures r.Some? <==> !st.Undetermined? && d.Some? && d.value != ""
    ensures r.Some? ==> r == d
  {
    if st.Undetermined? || d.None? || d.value == "" then None else d
  }

  function ReportPage(c: Codecs, bookId: string, body: string): Report {
    var st := StatusOf(body);
    Report(TitleOf(body), MediaUrl(bookId), st, Summary(st, Description(c, body)))
  }

  /** The single-book decision agrees with the batch script's `fetch_availability` on the same page. */
  lemma ReportAgreesWithProbe(c: Codecs, bookId: string, body: string)
    ensures var r := ReportPage(c, bookId, body);
      var p := ProbePage(c, body, true);
      ShownAvailable(r.status) == p.available &&
      (r.status.Counted? ==> p.availableCopies == r.status.availableCopies && p.ownedCopies == r.status.ownedCopies) &&
      (!r.status.Counted? ==> p.availableCopies == 0 && p.ownedCopies == 0) &&
      (r.summary.Some? ==> p.description == r.summary)
  {
    var avail := FindNat(body, AvailableCopiesKey);
    var owned := FindNat(body, OwnedCopiesKey);
    if avail.Some? && owned.Some? {
      ProbeWithCounts(c, body, true, avail.value, owned.value);
    } else if FindFlag(body).Some? {
      ProbeWithFlag(c, body, FindFlag(body).value);
    } else {
      ProbeUndetermined(c, body, true);
    }
  }

  /** A shown summary has gone through the HTML clean-up: no runs of whitespace, none at either end. */
  lemma SummaryCollapsed(c: Codecs, bookId: string, body: string)
    ensures ReportPage(c, bookId, body).summary.Some? ==> Collapsed(ReportPage(c, bookId, body).summary.value)
  {
    DescriptionCollapsed(c, body);
  }

  /** The outcome of a run: the report with exit status 0, or exit status 1. */
  datatype Run = Shown(report: Report) | Exit(status: int)

  /** The script: no book id, or a transport error while fetching, exits with status 1. */
  function RunSingleBook(c: Codecs, argv: seq<string>, fetch: string -> Fetched<string>): (r: Run)
    ensures r.Exit? <==> |argv| < 2 || fetch(MediaUrl(argv[1])).TransportError?
    ensures r.Exit? ==> r.status == 1
    ensures r.Shown? ==> r.report.url == MediaUrl(argv[1])
    ensures r.Shown? ==> r.report == ReportPage(c, argv[1], fetch(MediaUrl(argv[1])).page)
  {
    if |argv| < 2 then Exit(1)
    else
      match fetch(MediaUrl(argv[1]))
      case TransportError => Exit(1)
      case Ok(body) => Shown(ReportPage(c, argv[1], body))
  }

  /**
   * What the script shows agrees with the availability probe on the fetched page: the same
   * availability and copy counts, the same description, and that description whitespace-collapsed.
   */
  lemma RunAgreesWithProbe(c: Codecs, argv: seq<string>, fetch: string -> Fetched<string>)
    ensures var run := RunSingleBook(c, argv, fetch);
      run.Shown? ==>
        var r, p := run.report, ProbePage(c, fetch(MediaUrl(argv[1])).page, true);
        ShownAvailable(r.status) == p.available &&
        (r.status.Counted? ==> p.availableCopies == r.status.availableCopies && p.ownedCopies == r.status.ownedCopies) &&
        (!r.status.Counted? ==> p.availableCopies == 0 && p.ownedCopies == 0) &&
        (r.summary.Some? ==> p.description == r.summary && Collapsed(r.summary.value))
  {
    if |argv| >= 2 && fetch(MediaUrl(argv[1])).Ok? {
      ReportAgreesWithProbe(c, argv[1], fetch(MediaUrl(argv[1])).page);
      SummaryCollapsed(c, argv[1], fetch(MediaUrl(argv[1])).page);
    }
  }
}
