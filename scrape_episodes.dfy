/**
 * `scrape_episodes.py`: the World Book Club brand pages of BBC Sounds. `scrape_page` reads
 * each episode card of one page; `scrape_all_episodes` concatenates a range of pages, pausing
 * between requests; `main` applies the limit and saves only a non-empty list.
 */
module Episodes {
  import opened Wrappers
  import opened Strings
  import opened Sequences
  import opened ScrapedText

  const Brand := "https://www.bbc.com/audio/brand/p003jhsk"
  const Site := "https://www.bbc.com"
  const Play := "/audio/play/"
  const Unknown := "Unknown"
  const Bullet := '•'

  /**
   * A `<div data-testid="york-card">`: the `href` attribute of each `<a>` inside it (absent
   * ones as `None`), the stripped text of its title `<span>` and of its date-and-duration
   * `<div>`, when these exist.
   */
  datatype Card = Card(hrefs: seq<Option<string>>, title: Option<string>, dateDuration: Option<string>)

  /** One saved episode record. */
  datatype Episode = Episode(id: string, url: string, title: string, date: string, duration: string, page: int)

  // ----- the page address -----

  /** The brand page itself for page 0, else with `?page=N` appended. */
  function PageUrl(page: int): string {
    if page == 0 then Brand else Brand + "?page=" + IntString(page)
  }

  /** Every page is fetched from the brand address, and no two pages share an address. */
  lemma PageUrlDistinct(p: int, q: int)
    ensures StartsWith(PageUrl(p), Brand)
    ensures PageUrl(p) == PageUrl(q) ==> p == q
  {
    var pre := Brand + "?page=";
    if p != 0 {
      assert PageUrl(p)[..|Brand|] == Brand;
    }
    if p != q {
      if p != 0 && q != 0 {
        assert PageUrl(p)[|pre|..] == IntString(p);
        assert PageUrl(q)[|pre|..] == IntString(q);
        IntStringValue(p);
        IntStringValue(q);
      } else {
        assert |PageUrl(p)| != |PageUrl(q)|;
      }
    }
  }

  // ----- one card -----

  predicate IsPlayLink(h: Option<string>) {
    h.Some? && h.value != "" && Contains(h.value, Play)
  }

  /** `card.find('a', href=lambda x: x and '/audio/play/' in x)`, then its `href`. */
  function PlayLink(hrefs: seq<Option<string>>): (r: Option<string>)
    ensures r.Some? ==> IsPlayLink(r)
  {
    if hrefs == [] then None
    else if IsPlayLink(hrefs[0]) then hrefs[0]
    else PlayLink(hrefs[1..])
  }

  /** The link taken is the first play link of the card; a card without one yields none. */
  lemma {:induction false} PlayLinkFirst(hrefs: seq<Option<string>>)
    ensures PlayLink(hrefs).None? <==> forall i :: 0 <= i < |hrefs| ==> !IsPlayLink(hrefs[i])
    ensures PlayLink(hrefs).Some? ==>
      exists i :: 0 <= i < |hrefs| && hrefs[i] == PlayLink(hrefs) && forall j :: 0 <= j < i ==> !IsPlayLink(hrefs[j])
  {
    if hrefs != [] && !IsPlayLink(hrefs[0]) {
      var rest := hrefs[1..];
      PlayLinkFirst(rest);
      assert forall i :: 1 <= i < |hrefs| ==> hrefs[i] == rest[i - 1];
      if PlayLink(rest).Some? {
        var i :| 0 <= i < |rest| && rest[i] == PlayLink(rest) && forall j :: 0 <= j < i ==> !IsPlayLink(rest[j]);
        assert hrefs[i + 1] == rest[i];
      }
    }
  }

  /** `href.split('/audio/play/')[-1]`. */
  function EpisodeId(href: string): string {
    LastPiece(href, Play, 0)
  }

  /** The id is all that follows the last `/audio/play/` of a play link, and holds no `/audio/play/` itself. */
  lemma EpisodeIdAfterLast(href: string)
    requires Contains(href, Play)
    ensures exists j :: (|Play| <= j <= |href| && IsAt(href, Play, j - |Play|) && EpisodeId(href) == href[j..] &&
      forall i :: j <= i < |href| ==> !IsAt(href, Play, i))
  {
    var i :| 0 <= i <= |href| && IsAt(href, Play, i);
    var j := LastPieceAt(href, Play, 0);
    assert i < j;
  }

  /** A relative link gets the site prefix; an absolute one is kept. */
  function FullUrl(href: string): string {
    if StartsWith(href, "http") then href else Site + href
  }

  /** The address is always absolute, ends with the link, and prefixing again changes nothing. */
  lemma FullUrlAbsolute(href: string)
    ensures StartsWith(FullUrl(href), "http")
    ensures FullUrl(href)[|FullUrl(href)| - |href|..] == href
    ensures FullUrl(FullUrl(href)) == FullUrl(href)
  {
    if !StartsWith(href, "http") {
      var u := Site + href;
      assert u[..4] == "http";
      assert u[|u| - |href|..] == href;
    }
  }

  /** The first two `•`-separated parts of the date-and-duration text, stripped; `"Unknown"` for each otherwise. */
  function DateDuration(text: Option<string>): (string, string) {
    match text
    case None => (Unknown, Unknown)
    case Some(t) =>
      if Bullet in t then
        var parts := Split(t, Bullet);
        if |parts| >= 2 then (Strip(parts[0]), Strip(parts[1])) else (Unknown, Unknown)
      else (Unknown, Unknown)
  }

  /** Text made of bullet-separated parts gives its first two parts, stripped. */
  lemma DateDurationParts(parts: seq<string>)
    requires |parts| >= 2 && forall i :: 0 <= i < |parts| ==> Bullet !in parts[i]
    ensures DateDuration(Some(JoinWith(parts, [Bullet]))) == (Strip(parts[0]), Strip(parts[1]))
  {
    var t := JoinWith(parts, [Bullet]);
    assert t == parts[0] + [Bullet] + JoinWith(parts[1..], [Bullet]);
    assert t[|parts[0]|] == Bullet;
    SplitJoin(parts, Bullet);
  }

  /** Without a bullet neither is known; a bullet always splits the text in at least two. */
  lemma DateDurationUnknown(t: string)
    ensures Bullet !in t ==> DateDuration(Some(t)) == (Unknown, Unknown)
    ensures Bullet in t ==> DateDuration(Some(t)) == (Strip(Split(t, Bullet)[0]), Strip(Split(t, Bullet)[1]))
  {
    if Bullet in t {
      SplitsInTwo(t, Bullet);
    }
  }

  /** The episode a card of page `page` yields, if it has a play link. */
  function EpisodeOf(card: Card, page: int): Option<Episode> {
    match PlayLink(card.hrefs)
    case None => None
    case Some(href) =>
      var dd := DateDuration(card.dateDuration);
      Some(Episode(EpisodeId(href), FullUrl(href), card.title.GetOr(Unknown), dd.0, dd.1, page))
  }

  /** An episode comes from the card's first play link, carries the page, and defaults a missing title. */
  lemma EpisodeOfCard(card: Card, page: int)
    ensures EpisodeOf(card, page).Some? <==> exists i :: 0 <= i < |card.hrefs| && IsPlayLink(card.hrefs[i])
    ensures EpisodeOf(card, page).Some? ==>
      var e := EpisodeOf(card, page).value;
      var href := PlayLink(card.hrefs).value;
      e.page == page && Contains(href, Play) && e.id == EpisodeId(href) && e.url == FullUrl(href) &&
      StartsWith(e.url, "http") && (card.title.None? ==> e.title == Unknown) &&
      (card.dateDuration.None? ==> e.date == Unknown && e.duration == Unknown)
  {
    PlayLinkFirst(card.hrefs);
    if PlayLink(card.hrefs).Some? {
      FullUrlAbsolute(PlayLink(card.hrefs).value);
    }
  }

  // ----- one page -----

  function Yields(cards: seq<Card>, page: int): (ys: seq<Option<Episode>>)
    ensures |ys| == |cards|
  {
    seq(|cards|, i requires 0 <= i < |cards| => EpisodeOf(cards[i], page))
  }

  /** The episodes the cards of one page yield, in card order. */
  function CardEpisodes(cards: seq<Card>, page: int): seq<Episode> {
    Present(Yields(cards, page))
  }

  /** `scrape_page`: nothing when the page could not be fetched or read. */
  function PageEpisodes(fetch: string -> Option<seq<Card>>, page: int): seq<Episode> {
    match fetch(PageUrl(page))
    case None => []
    case Some(cards) => CardEpisodes(cards, page)
  }

  /** Every episode of a page comes from one of its cards and carries that page's number. */
  lemma CardEpisodeFrom(cards: seq<Card>, page: int, e: Episode)
    requires e in CardEpisodes(cards, page)
    ensures e.page == page && exists i :: 0 <= i < |cards| && EpisodeOf(cards[i], page) == Some(e)
  {
    PresentFrom(Yields(cards, page), e);
  }

  lemma YieldsSnoc(done: seq<Card>, card: Card, page: int)
    ensures Yields(done + [card], page) == Yields(done, page) + [EpisodeOf(card, page)]
  {
    var s := done + [card];
    var a, b := Yields(s, page), Yields(done, page) + [EpisodeOf(card, page)];
    forall i | 0 <= i < |s| ensures a[i] == b[i] {
    }
    assert a == b;
  }

  lemma CardStep(cards: seq<Card>, r: nat, page: int, entry: Option<Episode>)
    requires r < |cards| && entry == EpisodeOf(cards[r], page)
    ensures CardEpisodes(cards[..r + 1], page) == CardEpisodes(cards[..r], page) +
      match entry case Some(e) => [e] case None => []
  {
    TakeOneMore(cards, r);
    YieldsSnoc(cards[..r], cards[r], page);
    PresentSnoc(Yields(cards[..r], page), entry);
  }

  /** The body of the card loop, each `continue` an early return. */
  method VisitCard(card: Card, page: int) returns (entry: Option<Episode>)
    ensures entry == EpisodeOf(card, page)
  {
    var link := PlayLink(card.hrefs);
    if link.None? {
      return None;
    }
    var url := link.value;
    var id := EpisodeId(url);
    if !StartsWith(url, "http") {
      url := Site + url;
    }
    var title := Unknown;
    if card.title.Some? {
      title := card.title.value;
    }
    var date, duration := Unknown, Unknown;
    if card.dateDuration.Some? {
      var text := card.dateDuration.value;
      if Bullet in text {
        var parts := Split(text, Bullet);
        if |parts| >= 2 {
          date, duration := Strip(parts[0]), Strip(parts[1]);
        }
      }
    }
    entry := Some(Episode(id, url, title, date, duration, page));
  }

  /** `scrape_page(page)`, the page fetched through `fetch`. */
  method ScrapePage(fetch: string -> Option<seq<Card>>, page: int) returns (episodes: seq<Episode>)
    ensures episodes == PageEpisodes(fetch, page)
  {
    episodes := [];
    var fetched := fetch(PageUrl(page));
    if fetched.None? {
      return;
    }
    var cards := fetched.value;
    assert cards[..0] == [];
    for r := 0 to |cards|
      invariant episodes == CardEpisodes(cards[..r], page)
    {
      var entry := VisitCard(cards[r], page);
      CardStep(cards, r, page, entry);
      if entry.Some? {
        episodes := episodes + [entry.value];
      }
    }
    assert cards[..|cards|] == cards;
  }

  // ----- all pages -----

  /** The episodes of pages `start` to `last`, inclusive, page after page (none when `last < start`). */
  function AllEpisodes(fetch: string -> Option<seq<Card>>, start: int, last: int): seq<Episode>
    decreases last - start
  {
    if last < start then [] else AllEpisodes(fetch, start, last - 1) + PageEpisodes(fetch, last)
  }

  lemma PageEpisodesPage(fetch: string -> Option<seq<Card>>, page: int)
    ensures forall e :: e in PageEpisodes(fetch, page) ==> e.page == page
  {
    forall e | e in PageEpisodes(fetch, page) ensures e.page == page {
      CardEpisodeFrom(fetch(PageUrl(page)).value, page, e);
    }
  }

  predicate PagesWithin(xs: seq<Episode>, lo: int, hi: int) {
    forall i :: 0 <= i < |xs| ==> lo <= xs[i].page <= hi
  }

  predicate PagesOrdered(xs: seq<Episode>) {
    forall i, j :: 0 <= i < j < |xs| ==> xs[i].page <= xs[j].page
  }

  /** Appending a page's episodes after those of earlier pages keeps the pages in order. */
  lemma AppendPage(before: seq<Episode>, here: seq<Episode>, start: int, last: int)
    requires start <= last && PagesWithin(before, start, last - 1) && PagesOrdered(before)
    requires forall e :: e in here ==> e.page == last
    ensures PagesWithin(before + here, start, last) && PagesOrdered(before + here)
  {
    var all := before + here;
    forall i | 0 <= i < |all| ensures start <= all[i].page <= last && (i >= |before| ==> all[i].page == last) {
      if i < |before| {
        assert all[i] == before[i];
      } else {
        assert all[i] == here[i - |before|] && here[i - |before|] in here;
      }
    }
    forall i, j | 0 <= i < j < |all| ensures all[i].page <= all[j].page {
      if j < |before| {
        assert all[i] == before[i] && all[j] == before[j];
      }
    }
  }

  /** Every episode carries a page number in range, and the pages never go backwards. */
  lemma {:induction false} AllEpisodesPages(fetch: string -> Option<seq<Card>>, start: int, last: int)
    ensures PagesWithin(AllEpisodes(fetch, start, last), start, last)
    ensures PagesOrdered(AllEpisodes(fetch, start, last))
    decreases last - start
  {
    if start <= last {
      AllEpisodesPages(fetch, start, last - 1);
      PageEpisodesPage(fetch, last);
      AppendPage(AllEpisodes(fetch, start, last - 1), PageEpisodes(fetch, last), start, last);
    }
  }

  /**
   * `scrape_all_episodes(start, last)`: the pages in order, concatenated; `sleeps` counts the
   * one-second pauses, one after every page but the last.
   */
  method ScrapeAll(fetch: string -> Option<seq<Card>>, start: int, last: int) returns (all: seq<Episode>, sleeps: nat)
    ensures all == AllEpisodes(fetch, start, last)
    ensures sleeps == if last < start then 0 else last - start
  {
    all, sleeps := [], 0;
    if last < start {
      return;
    }
    var page := start;
    while page <= last
      invariant start <= page <= last + 1
      invariant all == AllEpisodes(fetch, start, page - 1)
      invariant sleeps == page - start - (if page > last then 1 else 0)
    {
      var episodes := ScrapePage(fetch, page);
      all := all + episodes;
      if page < last {
        sleeps := sleeps + 1;
      }
      page := page + 1;
    }
  }

  // ----- `main` -----

  /** `main`: the pages `0..pages`, cut to the limit; nothing is saved when no episode is left. */
  method RunEpisodes(fetch: string -> Option<seq<Card>>, pages: int, limit: int) returns (saved: Option<seq<Episode>>)
    ensures Truncate(AllEpisodes(fetch, 0, pages), limit) == [] ==> saved.None?
    ensures Truncate(AllEpisodes(fetch, 0, pages), limit) != [] ==> saved == Some(Truncate(AllEpisodes(fetch, 0, pages), limit))
  {
    var episodes, _ := ScrapeAll(fetch, 0, pages);
    episodes := Truncate(episodes, limit);
    if episodes == [] {
      return None;
    }
    saved := Some(episodes);
  }

  /** What `main` saves is a prefix of the scrape, within the limit, each episode of a page `0..pages`, in page order. */
  lemma SavedEpisodes(fetch: string -> Option<seq<Card>>, pages: int, limit: int)
    ensures var kept := Truncate(AllEpisodes(fetch, 0, pages), limit);
      kept <= AllEpisodes(fetch, 0, pages) &&
      (limit > 0 ==> |kept| <= limit) &&
      PagesWithin(kept, 0, pages) && PagesOrdered(kept)
  {
    var all := AllEpisodes(fetch, 0, pages);
    var kept := Truncate(all, limit);
    TruncateIsPrefix(all, limit);
    AllEpisodesPages(fetch, 0, pages);
    assert forall i :: 0 <= i < |kept| ==> kept[i] == all[i];
  }
}
