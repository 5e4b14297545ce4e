/**
 * The detail-page prober: the regular-expression lookups on a title's page, the
 * description choice, the availability decision, and the batch loop over every book.
 * The same lookups appear verbatim in the by-author and single-book scripts, which use
 * this module.
 */
module CheckAvailability {
  import opened Wrappers
  import opened Strings
  import opened Scan
  import opened Effects
  import opened Catalog

  // ----- small scanners -----

  /** The last index in `lo..hi-1` that holds `c`. */
  function LastIndexOf(s: string, c: char, lo: nat, hi: nat): (r: Option<nat>)
    requires hi <= |s|
    ensures r.Some? ==> lo <= r.value < hi && s[r.value] == c && forall i :: r.value < i < hi ==> s[i] != c
    ensures r.None? ==> forall i :: lo <= i < hi ==> s[i] != c
    decreases hi
  {
    if hi <= lo then None else if s[hi - 1] == c then Some(hi - 1) else LastIndexOf(s, c, lo, hi - 1)
  }

  /** Skips `\s*`. */
  function SkipSpaces(s: string, i: nat): (k: nat)
    ensures i <= |s| ==> i <= k <= |s|
    ensures i > |s| ==> k == i
    ensures forall j :: i <= j < k ==> IsSpace(s[j])
    ensures k < |s| ==> !IsSpace(s[k])
    decreases |s| - i
  {
    if i < |s| && IsSpace(s[i]) then SkipSpaces(s, i + 1) else i
  }

  /** The first occurrence of `p` at or after `from`. */
  function Find(s: string, p: string, from: nat): (r: Option<nat>)
    ensures r.Some? ==> from <= r.value && IsAt(s, p, r.value)
    ensures r.Some? ==> forall j :: from <= j < r.value ==> !IsAt(s, p, j)
    ensures r.None? ==> forall j :: from <= j ==> !IsAt(s, p, j)
    decreases |s| - from
  {
    if from + |p| > |s| then None
    else if IsAt(s, p, from) then Some(from)
    else Find(s, p, from + 1)
  }

  // ----- the field lookups -----

  const AvailableCopiesKey := "\"availableCopies\":"
  const OwnedCopiesKey := "\"ownedCopies\":"
  const IsAvailableKey := "\"isAvailable\":"

  /** `"<key>":(\d+)` matched at position `i`: the number, when at least one digit follows. */
  function NatAt(key: string, s: string, i: nat): Option<nat> {
    if IsAt(s, key, i) && i + |key| < |s| && IsDigit(s[i + |key|]) then
      var rest := s[i + |key|..];
      Some(DigitsValue(rest[..DigitRun(rest)]))
    else None
  }

  /** `re.search(r'"<key>":(\d+)', body)`: the number after the first occurrence of the key that is followed by a digit. */
  function FindNat(body: string, key: string): Option<nat> {
    Search(body, (s: string, i: nat) => NatAt(key, s, i))
  }

  /** The number found is the one at the first position where the key is followed by a digit. */
  lemma FindNatIsFirst(body: string, key: string, i: nat)
    requires i <= |body| && NatAt(key, body, i).Some?
    requires forall j :: 0 <= j < i ==> NatAt(key, body, j).None?
    ensures FindNat(body, key) == NatAt(key, body, i)
  {
    var at := (s: string, k: nat) => NatAt(key, s, k);
    assert at(body, i).Some?;
    var r := FirstIndex(body, 0, at);
    assert r.Some? && r.value <= i;
  }

  /** Without such a position there is no number. */
  lemma FindNatNone(body: string, key: string)
    requires forall j :: 0 <= j <= |body| ==> NatAt(key, body, j).None?
    ensures FindNat(body, key).None?
  {
    var at := (s: string, k: nat) => NatAt(key, s, k);
    assert forall j :: 0 <= j <= |body| ==> at(body, j).None?;
  }

  /** `"isAvailable":(true|false)` matched at position `i`. */
  function BoolAt(s: string, i: nat): Option<bool> {
    if !IsAt(s, IsAvailableKey, i) then None
    else if IsAt(s, "true", i + |IsAvailableKey|) then Some(true)
    else if IsAt(s, "false", i + |IsAvailableKey|) then Some(false)
    else None
  }

  function FindFlag(body: string): Option<bool> {
    Search(body, BoolAt)
  }

  const TitleCollectionMarker := "window.OverDrive.titleCollection"

  /**
   * `window\.OverDrive\.titleCollection\s*=\s*({[^;]+})` matched at position `i`: from the
   * `{` to the last `}` that comes before the first `;` after it, with at least one
   * character in between.
   */
  function TitleObjectAt(s: string, i: nat): (r: Option<string>)
    ensures r.Some? ==> |r.value| >= 3 && r.value[0] == '{' && r.value[|r.value| - 1] == '}'
    ensures r.Some? ==> forall k :: 0 <= k < |r.value| ==> r.value[k] != ';'
  {
    if !IsAt(s, TitleCollectionMarker, i) then None
    else
      var eq := SkipSpaces(s, i + |TitleCollectionMarker|);
      if eq >= |s| || s[eq] != '=' then None
      else
        var open := SkipSpaces(s, eq + 1);
        if open >= |s| || s[open] != '{' then None
        else
          var semi := IndexOf(s, ';', open + 1);
          match LastIndexOf(s, '}', open + 2, semi)
          case None => None
          case Some(close) => Some(s[open..close + 1])
  }

  function TitleObject(body: string): Option<string> {
    Search(body, TitleObjectAt)
  }

  const PublisherKey := "\"publisher\":"
  const DescriptionKey := "},\"description\":\""

  /**
   * `((?:[^"\\]|\\.)*?)"` from position `i`: the index of the closing quote of a string
   * literal whose backslash escapes each consume one more character (not a newline).
   */
  function LiteralEnd(s: string, i: nat): (r: Option<nat>)
    ensures r.Some? ==> i <= r.value < |s| && s[r.value] == '"'
    decreases |s| - i
  {
    if i >= |s| then None
    else if s[i] == '"' then Some(i)
    else if s[i] == '\\' then
      if i + 1 < |s| && s[i + 1] != '\n' then LiteralEnd(s, i + 2) else None
    else LiteralEnd(s, i + 1)
  }

  /** `"publisher":[^}]+},"description":"((?:[^"\\]|\\.)*?)"` matched at position `p`. */
  function PublisherDescriptionAt(t: string, p: nat): Option<string> {
    if !IsAt(t, PublisherKey, p) then None
    else
      var close := IndexOf(t, '}', p + |PublisherKey|);
      if close <= p + |PublisherKey| || !IsAt(t, DescriptionKey, close) then None
      else
        var start := close + |DescriptionKey|;
        match LiteralEnd(t, start)
        case None => None
        case Some(e) => Some(t[start..e])
  }

  function PublisherDescription(t: string): Option<string> {
    Search(t, PublisherDescriptionAt)
  }

  const ArticleMarker := "<article class=\"TitleDetailsDescription-description"
  const ArticleClose := "</article>"

  /** `<article class="TitleDetailsDescription-description[^>]*>(.*?)</article>` (dot matches newline) at `i`. */
  function ArticleAt(s: string, i: nat): Option<string> {
    if !IsAt(s, ArticleMarker, i) then None
    else
      var gt := IndexOf(s, '>', i + |ArticleMarker|);
      if gt >= |s| then None
      else
        match Find(s, ArticleClose, gt + 1)
        case None => None
        case Some(e) => Some(s[gt + 1..e])
  }

  function ArticleBlock(body: string): Option<string> {
    Search(body, ArticleAt)
  }

  // ----- clean_html_description -----

  /** `re.sub(r'<[^>]+>', '', s)`: removes every `<`, one or more non-`>` characters, `>`. */
  function StripTags(s: string): string
    decreases |s|
  {
    if s == [] then []
    else if s[0] == '<' then
      var gt := IndexOf(s, '>', 1);
      if 2 <= gt < |s| then StripTags(s[gt + 1..]) else [s[0]] + StripTags(s[1..])
    else [s[0]] + StripTags(s[1..])
  }

  /** `clean_html_description`: strip tags, decode entities, collapse whitespace. */
  function CleanHtml(c: Codecs, s: string): string {
    Collapse(c.unescapeHtml(StripTags(s)))
  }

  /** A cleaned description has no whitespace at either end and no run of two whitespace characters. */
  lemma CleanHtmlCollapsed(c: Codecs, s: string)
    ensures Collapsed(CleanHtml(c, s))
  {
    CollapseIsCollapsed(c.unescapeHtml(StripTags(s)));
  }

  // ----- the description and availability decision -----

  /** The description that follows the publisher field inside the embedded title object. */
  function PublisherCandidate(c: Codecs, body: string): (r: Option<string>)
    ensures r.Some? ==> Collapsed(r.value)
  {
    match TitleObject(body)
    case None => None
    case Some(t) =>
      match PublisherDescription(t)
      case None => None
      case Some(raw) =>
        CleanHtmlCollapsed(c, c.unicodeEscape(raw));
        Some(CleanHtml(c, c.unicodeEscape(raw)))
  }

  /** `not description or description.startswith('FICTION ') or description.startswith('Fiction /')`. */
  predicate LooksMissing(d: Option<string>) {
    d.None? || d.value == "" || StartsWith(d.value, "FICTION ") || StartsWith(d.value, "Fiction /")
  }

  function Description(c: Codecs, body: string): Option<string> {
    var first := PublisherCandidate(c, body);
    if LooksMissing(first) then
      match ArticleBlock(body)
      case Some(a) => Some(CleanHtml(c, a))
      case None => first
    else first
  }

  /** The article block replaces the publisher candidate exactly when the candidate looks missing and the block exists. */
  lemma DescriptionChoice(c: Codecs, body: string)
    ensures var first := PublisherCandidate(c, body);
      var art := ArticleBlock(body);
      Description(c, body) == (if LooksMissing(first) && art.Some? then Some(CleanHtml(c, art.value)) else first)
  {
  }

  /** Whichever way it was found, a description has been cleaned. */
  lemma DescriptionCollapsed(c: Codecs, body: string)
    ensures Description(c, body).Some? ==> Collapsed(Description(c, body).value)
  {
    var a := ArticleBlock(body);
    if a.Some? {
      CleanHtmlCollapsed(c, a.value);
    }
  }

  /**
   * The decision of `fetch_availability` on a fetched page. `flagFallback` selects the
   * `"isAvailable"` fallback, which check_availability.py has and check_by_author.py lacks.
   */
  function ProbePage(c: Codecs, body: string, flagFallback: bool): Probe {
    var desc := Description(c, body);
    var avail := FindNat(body, AvailableCopiesKey);
    var owned := FindNat(body, OwnedCopiesKey);
    if avail.Some? && owned.Some? then Probe(avail.value > 0, avail.value, owned.value, desc)
    else if flagFallback && FindFlag(body).Some? then Probe(FindFlag(body).value, 0, 0, desc)
    else Probe(false, 0, 0, desc)
  }

  /** `fetch_availability`: a transport error degrades to `(False, 0, 0, None)`. */
  function ProbeFetched(c: Codecs, f: Fetched<string>, flagFallback: bool): (p: Probe)
    ensures f.TransportError? ==> p == Probe(false, 0, 0, None)
    ensures f.Ok? ==> p.description == Description(c, f.page)
  {
    match f
    case TransportError => Probe(false, 0, 0, None)
    case Ok(body) => ProbePage(c, body, flagFallback)
  }

  lemma ProbeWithCounts(c: Codecs, body: string, flagFallback: bool, n: nat, m: nat)
    requires FindNat(body, AvailableCopiesKey) == Some(n) && FindNat(body, OwnedCopiesKey) == Some(m)
    ensures ProbePage(c, body, flagFallback) == Probe(n > 0, n, m, Description(c, body))
  {
  }

  lemma ProbeWithFlag(c: Codecs, body: string, flag: bool)
    requires FindNat(body, AvailableCopiesKey).None? || FindNat(body, OwnedCopiesKey).None?
    requires FindFlag(body) == Some(flag)
    ensures ProbePage(c, body, true) == Probe(flag, 0, 0, Description(c, body))
  {
  }

  lemma ProbeUndetermined(c: Codecs, body: string, flagFallback: bool)
    requires FindNat(body, AvailableCopiesKey).None? || FindNat(body, OwnedCopiesKey).None?
    requires !flagFallback || FindFlag(body).None?
    ensures ProbePage(c, body, flagFallback) == Probe(false, 0, 0, Description(c, body))
  {
  }

  /** A count at the very start of the page is the one found: a page opening with `"availableCopies":3,` yields 3. */
  lemma FindNatAtStart(body: string, key: string, d: string)
    requires IsAt(body, key, 0) && d != [] && (forall i :: 0 <= i < |d| ==> IsDigit(d[i]))
    requires IsAt(body, d, |key|) && (|key| + |d| == |body| || !IsDigit(body[|key| + |d|]))
    ensures FindNat(body, key) == Some(DigitsValue(d))
  {
    var rest := body[|key|..];
    assert rest[..|d|] == d;
    DigitRunOf(rest, d);
    assert rest[..DigitRun(rest)] == d;
    assert d[0] == body[|key|];
    assert NatAt(key, body, 0) == Some(DigitsValue(d));
    FindNatIsFirst(body, key, 0);
  }

  lemma {:induction false} DigitRunOf(s: string, d: string)
    requires |d| <= |s| && s[..|d|] == d && (forall i :: 0 <= i < |d| ==> IsDigit(d[i]))
    requires |s| == |d| || !IsDigit(s[|d|])
    ensures DigitRun(s) == |d|
  {
    if d != [] {
      assert s[0] == d[0];
      assert s[1..][..|d| - 1] == d[1..];
      DigitRunOf(s[1..], d[1..]);
    }
  }

  /** `check_availability(url)` as `check_all_books` calls it: fetch, then read the page with the flag fallback. */
  function CheckAvailabilityOf(c: Codecs, fetch: string -> Fetched<string>): (check: string -> Probe)
    ensures forall url :: check(url) == ProbeFetched(c, fetch(url), true)
  {
    url => ProbeFetched(c, fetch(url), true)
  }
}
