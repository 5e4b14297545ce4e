/**
 * The refinement stage: keep only the search results whose author matches the author
 * that was searched for, and report what was removed.
 */
module RefineAudiobooks {
  import opened Strings
  import opened ReportOrder

  // ----- name normalisation -----

  /** `re.sub(r'[^\w\s]', '', s)`: drops every character that is neither a word character nor whitespace. */
  function DropPunctuation(s: string): (r: string)
    ensures forall i :: 0 <= i < |r| ==> IsWordChar(r[i]) || IsSpace(r[i])
    ensures forall c :: c in r ==> c in s
    ensures (forall i :: 0 <= i < |s| ==> IsWordChar(s[i]) || IsSpace(s[i])) ==> r == s
  {
    if s == [] then []
    else if IsWordChar(s[0]) || IsSpace(s[0]) then [s[0]] + DropPunctuation(s[1..])
    else DropPunctuation(s[1..])
  }

  /** `normalize_name`: lower-case, drop punctuation, collapse whitespace. */
  function NormalizeName(name: string): string {
    Collapse(DropPunctuation(Lower(name)))
  }

  /** A normalised name is lower-case, made of word characters and single inner spaces only. */
  predicate IsNormalized(r: string) {
    Collapsed(r) && forall i :: 0 <= i < |r| ==> !IsUpper(r[i]) && (IsWordChar(r[i]) || r[i] == ' ')
  }

  lemma NormalizeNameShape(name: string)
    ensures IsNormalized(NormalizeName(name))
  {
    var d := DropPunctuation(Lower(name));
    LowerAt(name);
    CollapseIsCollapsed(d);
    CollapseChars(d);
    var r := NormalizeName(name);
    forall i | 0 <= i < |r| ensures !IsUpper(r[i]) && (IsWordChar(r[i]) || r[i] == ' ') {
      assert r[i] in r;
      if r[i] != ' ' {
        assert r[i] in d && !IsSpace(r[i]);
        assert r[i] in Lower(name);
      }
    }
  }

  lemma NormalizedIsFixed(r: string)
    requires IsNormalized(r)
    ensures NormalizeName(r) == r
  {
    LowerAt(r);
    assert Lower(r) == r;
    assert DropPunctuation(r) == r;
    var ws := Words(r);
    // A collapsed string is the join of its own words.
    JoinOfWords(r);
  }

  /** A string with no leading, trailing or doubled whitespace equals the join of its words. */
  lemma {:induction false} JoinOfWords(r: string)
    requires Collapsed(r)
    ensures Join(Words(r)) == r
    decreases |r|
  {
    if r != [] {
      assert !IsSpace(r[0]);
      var k := WordLen(r);
      if k == |r| {
        assert r[k..] == [];
        assert r[..k] == r;
      } else {
        assert IsSpace(r[k]) && r[k] == ' ' && k + 1 < |r| && !IsSpace(r[k + 1]);
        var t := r[k + 1..];
        assert Collapsed(t) by {
          forall i | 0 <= i < |t| && IsSpace(t[i])
            ensures t[i] == ' ' && 0 < i < |t| - 1 && !IsSpace(t[i - 1]) && !IsSpace(t[i + 1])
          {
            assert t[i] == r[k + 1 + i];
          }
        }
        JoinOfWords(t);
        assert r[k..][1..] == t;
        assert Words(r[k..]) == Words(t);
        assert Words(t) != [] by { assert t != [] && !IsSpace(t[0]); }
        assert r == r[..k] + " " + t;
      }
    }
  }

  /** Normalising twice is the same as normalising once. */
  lemma NormalizeNameIdempotent(name: string)
    ensures NormalizeName(NormalizeName(name)) == NormalizeName(name)
  {
    NormalizeNameShape(name);
    NormalizedIsFixed(NormalizeName(name));
  }

  // ----- SequenceMatcher -----

  /** Length of the common prefix of `a` and `b`. */
  function CommonPrefix(a: string, b: string): (k: nat)
    ensures k <= |a| && k <= |b|
  {
    if a == [] || b == [] || a[0] != b[0] then 0 else 1 + CommonPrefix(a[1..], b[1..])
  }

  /** The common prefix is common, and it cannot be extended. */
  lemma {:induction false} CommonPrefixIsCommon(a: string, b: string)
    ensures a[..CommonPrefix(a, b)] == b[..CommonPrefix(a, b)]
    ensures CommonPrefix(a, b) < |a| && CommonPrefix(a, b) < |b| ==> a[CommonPrefix(a, b)] != b[CommonPrefix(a, b)]
    decreases |a|
  {
    if a != [] && b != [] && a[0] == b[0] {
      CommonPrefixIsCommon(a[1..], b[1..]);
      var k := CommonPrefix(a, b);
      assert a[..k] == [a[0]] + a[1..][..k - 1];
      assert b[..k] == [b[0]] + b[1..][..k - 1];
    }
  }

  lemma {:induction false} CommonPrefixSelf(a: string)
    ensures CommonPrefix(a, a) == |a|
    decreases |a|
  {
    if a != [] { CommonPrefixSelf(a[1..]); }
  }

  /** A matching block: `a[i..i+size] == b[j..j+size]`. */
  datatype Block = Block(i: nat, j: nat, size: nat)

  predicate IsBlock(a: string, b: string, m: Block) {
    m.i + m.size <= |a| && m.j + m.size <= |b| && a[m.i..m.i + m.size] == b[m.j..m.j + m.size]
  }

  /** The common run starting at `(i, j)` is a matching block. */
  lemma RunIsBlock(a: string, b: string, i: nat, j: nat)
    requires i <= |a| && j <= |b|
    ensures IsBlock(a, b, Block(i, j, CommonPrefix(a[i..], b[j..])))
  {
    var k := CommonPrefix(a[i..], b[j..]);
    CommonPrefixIsCommon(a[i..], b[j..]);
    assert a[i..][..k] == a[i..i + k] && b[j..][..k] == b[j..j + k];
  }

  /** Scans the pairs `(i, j')` with `j' >= j` of row `i`, keeping the first strictly longer block. */
  function BestInRow(a: string, b: string, i: nat, j: nat, best: Block): (r: Block)
    requires i < |a| && j <= |b| && IsBlock(a, b, best)
    ensures IsBlock(a, b, r) && r.size >= best.size
    decreases |b| - j
  {
    if j == |b| then best
    else
      var k := CommonPrefix(a[i..], b[j..]);
      RunIsBlock(a, b, i, j);
      BestInRow(a, b, i, j + 1, if k > best.size then Block(i, j, k) else best)
  }

  /** No block of row `i` from column `j` on is longer than the one `BestInRow` keeps. */
  lemma {:induction false} BestInRowLongest(a: string, b: string, i: nat, j: nat, best: Block)
    requires i < |a| && j <= |b| && IsBlock(a, b, best)
    ensures forall j' :: j <= j' < |b| ==> CommonPrefix(a[i..], b[j'..]) <= BestInRow(a, b, i, j, best).size
    decreases |b| - j
  {
    if j < |b| {
      var k := CommonPrefix(a[i..], b[j..]);
      RunIsBlock(a, b, i, j);
      var next := if k > best.size then Block(i, j, k) else best;
      var r := BestInRow(a, b, i, j + 1, next);
      assert BestInRow(a, b, i, j, best) == r;
      BestInRowLongest(a, b, i, j + 1, next);
      forall j' | j <= j' < |b| ensures CommonPrefix(a[i..], b[j'..]) <= r.size {
        if j' == j {
          assert k <= next.size <= r.size;
        }
      }
    }
  }

  /** Scans the rows `i' >= i`. */
  function BestFrom(a: string, b: string, i: nat, best: Block): (r: Block)
    requires i <= |a| && IsBlock(a, b, best)
    ensures IsBlock(a, b, r) && r.size >= best.size
    decreases |a| - i
  {
    if i == |a| then best
    else BestFrom(a, b, i + 1, BestInRow(a, b, i, 0, best))
  }

  /** No block starting in row `i` or later is longer than the one `BestFrom` keeps. */
  lemma {:induction false} BestFromLongest(a: string, b: string, i: nat, best: Block)
    requires i <= |a| && IsBlock(a, b, best)
    ensures forall i', j' :: i <= i' < |a| && 0 <= j' < |b| ==> CommonPrefix(a[i'..], b[j'..]) <= BestFrom(a, b, i, best).size
    decreases |a| - i
  {
    if i < |a| {
      var row := BestInRow(a, b, i, 0, best);
      var r := BestFrom(a, b, i + 1, row);
      assert BestFrom(a, b, i, best) == r;
      BestInRowLongest(a, b, i, 0, best);
      BestFromLongest(a, b, i + 1, row);
      forall i', j' | i <= i' < |a| && 0 <= j' < |b| ensures CommonPrefix(a[i'..], b[j'..]) <= r.size {
        if i' == i {
          assert CommonPrefix(a[i..], b[j'..]) <= row.size <= r.size;
        }
      }
    }
  }

  /**
   * `find_longest_match` over the whole of both strings: the first longest matching block
   * met scanning `a` and then `b`; size 0 when nothing matches.
   */
  function LongestMatch(a: string, b: string): (m: Block)
    ensures IsBlock(a, b, m)
  {
    BestFrom(a, b, 0, Block(0, 0, 0))
  }

  /** The block is a longest one: every common run of the two strings is at most its size. */
  lemma LongestMatchIsLongest(a: string, b: string)
    ensures forall i, j :: 0 <= i < |a| && 0 <= j < |b| ==> CommonPrefix(a[i..], b[j..]) <= LongestMatch(a, b).size
  {
    BestFromLongest(a, b, 0, Block(0, 0, 0));
  }

  /**
   * M of `SequenceMatcher.ratio() = 2*M/T`: the total size of the matching blocks, found by
   * taking the longest match and recursing on the pieces to its left and to its right.
   */
  function Matched(a: string, b: string): (n: nat)
    ensures n <= |a| && n <= |b|
    decreases |a| + |b|
  {
    var m := LongestMatch(a, b);
    if m.size == 0 then 0
    else Matched(a[..m.i], b[..m.j]) + m.size + Matched(a[m.i + m.size..], b[m.j + m.size..])
  }

  /** Identical strings match completely. */
  lemma MatchedSelf(a: string)
    requires a != []
    ensures LongestMatch(a, a).size == |a|
  {
    LongestMatchIsLongest(a, a);
    assert a[0..] == a;
    CommonPrefixSelf(a);
  }

  /** The threshold of `names_match`, as a percentage (0.85). */
  const DefaultThreshold: nat := 85

  /** `ratio() >= threshold/100`, cross-multiplied; `ratio()` is 1.0 when both strings are empty. */
  predicate SimilarEnough(a: string, b: string, threshold: nat) {
    if |a| + |b| == 0 then 100 >= threshold
    else 100 * 2 * Matched(a, b) >= threshold * (|a| + |b|)
  }

  /** `names_match`: exact match, then containment either way, then the similarity ratio. */
  predicate NamesMatch(searched: string, bookAuthor: string, threshold: nat) {
    var s := NormalizeName(searched);
    var b := NormalizeName(bookAuthor);
    if s == b then true
    else if Contains(b, s) || Contains(s, b) then true
    else SimilarEnough(s, b, threshold)
  }

  lemma NamesMatchWhenNormalizedEqual(a: string, b: string, threshold: nat)
    requires NormalizeName(a) == NormalizeName(b)
    ensures NamesMatch(a, b, threshold)
  {
  }

  lemma NamesMatchReflexive(a: string, threshold: nat)
    ensures NamesMatch(a, a, threshold)
  {
  }

  lemma NamesMatchWhenContained(a: string, b: string, threshold: nat)
    requires Contains(NormalizeName(b), NormalizeName(a)) || Contains(NormalizeName(a), NormalizeName(b))
    ensures NamesMatch(a, b, threshold)
  {
  }

  /** With neither equality nor containment, the decision is exactly the ratio test. */
  lemma NamesMatchOtherwise(a: string, b: string, threshold: nat)
    requires NormalizeName(a) != NormalizeName(b)
    requires !Contains(NormalizeName(b), NormalizeName(a)) && !Contains(NormalizeName(a), NormalizeName(b))
    ensures NamesMatch(a, b, threshold) <==> SimilarEnough(NormalizeName(a), NormalizeName(b), threshold)
  {
  }

  /** Everybody's name matches a search for an empty name: "" is contained in every string. */
  lemma EmptyNameMatchesAll(b: string, threshold: nat)
    ensures NamesMatch("", b, threshold)
  {
    assert IsAt(NormalizeName(b), "", 0);
  }
}

/** `refine_results` and the two reports of `save_refined_results`. */
module Refinement {
  import opened Catalog
  import opened ReportOrder
  import opened RefineAudiobooks

  /** `r` is `s` with some elements left out, the rest in their original order. */
  predicate IsSubsequence<T(==)>(r: seq<T>, s: seq<T>)
    decreases |s|
  {
    if r == [] then true
    else if s == [] then false
    else (r[0] == s[0] && IsSubsequence(r[1..], s[1..])) || IsSubsequence(r, s[1..])
  }

  function Matches(author: string, b: Book): bool {
    NamesMatch(author, b.author, DefaultThreshold)
  }

  /** The books whose author matches `author`, in their original order and unedited. */
  function MatchingBooks(author: string, books: seq<Book>): (r: seq<Book>)
    ensures |r| <= |books|
  {
    if books == [] then []
    else
      var rest := MatchingBooks(author, books[1..]);
      if Matches(author, books[0]) then [books[0]] + rest else rest
  }

  /** Exactly the matching books are kept, in order: a subsequence whose members all match, missing no match. */
  lemma {:induction false} MatchingBooksSpec(author: string, books: seq<Book>)
    ensures IsSubsequence(MatchingBooks(author, books), books)
    ensures forall b :: b in MatchingBooks(author, books) ==> b in books && Matches(author, b)
    ensures forall k :: 0 <= k < |books| && Matches(author, books[k]) ==> books[k] in MatchingBooks(author, books)
  {
    if books != [] {
      var rest := MatchingBooks(author, books[1..]);
      MatchingBooksSpec(author, books[1..]);
      if Matches(author, books[0]) {
        var r := [books[0]] + rest;
        assert r[1..] == rest;
        assert MatchingBooks(author, books) == r;
      }
      forall k | 0 < k < |books| && Matches(author, books[k])
        ensures books[k] in MatchingBooks(author, books)
      {
        assert books[1..][k - 1] == books[k];
      }
    }
  }

  /** Every matching book is kept as many times as it occurs, every other book not at all. */
  lemma {:induction false} MatchingBooksCounts(author: string, books: seq<Book>)
    ensures forall b :: (multiset(MatchingBooks(author, books))[b] ==
                         if Matches(author, b) then multiset(books)[b] else 0)
  {
    if books != [] {
      MatchingBooksCounts(author, books[1..]);
      assert books == [books[0]] + books[1..];
      assert multiset(books) == multiset([books[0]]) + multiset(books[1..]);
    }
  }

  lemma {:induction false} MatchingBooksOfMatching(author: string, books: seq<Book>)
    requires forall k :: 0 <= k < |books| ==> Matches(author, books[k])
    ensures MatchingBooks(author, books) == books
  {
    if books != [] {
      MatchingBooksOfMatching(author, books[1..]);
    }
  }

  /** The refined value stored for one author. */
  datatype RefinedEntry = RefinedEntry(count: nat, books: seq<Book>, url: string, originalCount: int, filteredCount: int)

  function RefineEntry(author: string, e: SearchEntry): RefinedEntry {
    var kept := MatchingBooks(author, e.books);
    RefinedEntry(|kept|, kept, e.url, e.count, e.count - |kept|)
  }

  /** What the refined JSON file keeps of an entry: `{count, books, url}`. */
  function Saved(r: RefinedEntry): SearchEntry {
    SearchEntry(r.count, r.books, r.url)
  }

  /** The refined entry's fields: counts recomputed from the kept books, the stored count kept as original. */
  lemma RefineEntryFields(author: string, e: SearchEntry)
    ensures var r := RefineEntry(author, e);
      && r.count == |r.books| <= |e.books|
      && IsSubsequence(r.books, e.books)
      && r.url == e.url
      && r.originalCount == e.count
      && r.filteredCount == r.originalCount - r.count
  {
    MatchingBooksSpec(author, e.books);
  }

  /** Refining the saved refined entry again changes nothing and filters nothing. */
  lemma RefineTwice(author: string, e: SearchEntry)
    ensures var r := RefineEntry(author, e);
      var r2 := RefineEntry(author, Saved(r));
      r2.books == r.books && r2.count == r.count && r2.url == r.url && r2.filteredCount == 0
  {
    var r := RefineEntry(author, e);
    MatchingBooksSpec(author, e.books);
    MatchingBooksOfMatching(author, r.books);
  }

  /** One line of the change log: `{author, before, after, removed}`. */
  datatype Change = Change(author: string, before: int, after: nat, removed: int)

  function ChangesOf(results: seq<(string, SearchEntry)>): (cs: seq<Change>)
    ensures |cs| <= |results|
  {
    if results == [] then []
    else
      var init := results[..|results| - 1];
      var a, e := results[|results| - 1].0, results[|results| - 1].1;
      var r := RefineEntry(a, e);
      ChangesOf(init) + (if e.count != r.count then [Change(a, e.count, r.count, e.count - r.count)] else [])
  }

  function TotalCount(results: seq<(string, SearchEntry)>): int {
    if results == [] then 0 else TotalCount(results[..|results| - 1]) + results[|results| - 1].1.count
  }

  function TotalKept(results: seq<(string, SearchEntry)>): int {
    if results == [] then 0
    else TotalKept(results[..|results| - 1]) + RefineEntry(results[|results| - 1].0, results[|results| - 1].1).count
  }

  /** The refined dictionary: every author with its refined entry, in the same order. */
  function RefineAll(results: seq<(string, SearchEntry)>): (r: seq<(string, RefinedEntry)>)
    ensures |r| == |results|
  {
    if results == [] then []
    else
      var last := results[|results| - 1];
      RefineAll(results[..|results| - 1]) + [(last.0, RefineEntry(last.0, last.1))]
  }

  lemma {:induction false} RefineAllAt(results: seq<(string, SearchEntry)>)
    ensures forall i :: 0 <= i < |results| ==> RefineAll(results)[i] == (results[i].0, RefineEntry(results[i].0, results[i].1))
  {
    if results != [] {
      var init := results[..|results| - 1];
      RefineAllAt(init);
      forall i | 0 <= i < |results| - 1
        ensures RefineAll(results)[i] == (results[i].0, RefineEntry(results[i].0, results[i].1))
      {
        assert init[i] == results[i];
      }
    }
  }

  lemma PrefixStep(results: seq<(string, SearchEntry)>, n: nat)
    requires n < |results|
    ensures var r := RefineEntry(results[n].0, results[n].1);
      && RefineAll(results[..n + 1]) == RefineAll(results[..n]) + [(results[n].0, r)]
      && ChangesOf(results[..n + 1]) == ChangesOf(results[..n]) +
           (if results[n].1.count != r.count then [Change(results[n].0, results[n].1.count, r.count, results[n].1.count - r.count)] else [])
      && TotalCount(results[..n + 1]) == TotalCount(results[..n]) + results[n].1.count
      && TotalKept(results[..n + 1]) == TotalKept(results[..n]) + r.count
  {
    var pre := results[..n + 1];
    assert pre[..|pre| - 1] == results[..n];
    assert pre[|pre| - 1] == results[n];
    LastStep(pre);
  }

  lemma LastStep(pre: seq<(string, SearchEntry)>)
    requires pre != []
    ensures var last := pre[|pre| - 1];
      var r := RefineEntry(last.0, last.1);
      && RefineAll(pre) == RefineAll(pre[..|pre| - 1]) + [(last.0, r)]
      && ChangesOf(pre) == ChangesOf(pre[..|pre| - 1]) +
           (if last.1.count != r.count then [Change(last.0, last.1.count, r.count, last.1.count - r.count)] else [])
      && TotalCount(pre) == TotalCount(pre[..|pre| - 1]) + last.1.count
      && TotalKept(pre) == TotalKept(pre[..|pre| - 1]) + r.count
  {
  }

  /**
   * `refine_results`: refines every author's entry in dictionary order, sums the counts
   * before and after and logs each author whose count changed.
   */
  method Refine(results: seq<(string, SearchEntry)>)
    returns (refined: seq<(string, RefinedEntry)>, changed: seq<Change>, totalBefore: int, totalAfter: int)
    ensures refined == RefineAll(results)
    ensures changed == ChangesOf(results)
    ensures totalBefore == TotalCount(results) && totalAfter == TotalKept(results)
  {
    refined, changed, totalBefore, totalAfter := [], [], 0, 0;
    var n := 0;
    while n < |results|
      invariant 0 <= n <= |results|
      invariant refined == RefineAll(results[..n])
      invariant changed == ChangesOf(results[..n])
      invariant totalBefore == TotalCount(results[..n]) && totalAfter == TotalKept(results[..n])
    {
      var author, data := results[n].0, results[n].1;
      var entry := RefineEntry(author, data);
      totalBefore := totalBefore + data.count;
      totalAfter := totalAfter + entry.count;
      refined := refined + [(author, entry)];
      if data.count != entry.count {
        changed := changed + [Change(author, data.count, entry.count, data.count - entry.count)];
      }
      PrefixStep(results, n);
      n := n + 1;
    }
    assert results[..n] == results;
  }

  // ----- the two CSV reports of save_refined_results -----

  function CountRows(refined: seq<(string, RefinedEntry)>): (rows: seq<Row<RefinedEntry>>)
    ensures |rows| == |refined|
    ensures forall i :: 0 <= i < |rows| ==> rows[i] == Row(refined[i].1.count, refined[i].0, refined[i].1)
  {
    if refined == [] then [] else [Row(refined[0].1.count, refined[0].0, refined[0].1)] + CountRows(refined[1..])
  }

  /** `r` is the changes-report row of the `i`-th author, who had books filtered out. */
  predicate ChangeRowAt(refined: seq<(string, RefinedEntry)>, i: int, r: Row<RefinedEntry>) {
    0 <= i < |refined| && refined[i].1.filteredCount > 0 &&
    r == Row(refined[i].1.filteredCount, refined[i].0, refined[i].1)
  }

  /** The positions, from `from` on and in increasing order, of the authors who had books filtered out. */
  function ChangedIndices(refined: seq<(string, RefinedEntry)>, from: nat): (idx: seq<nat>)
    requires from <= |refined|
    ensures forall k :: 0 <= k < |idx| ==> from <= idx[k] < |refined| && refined[idx[k]].1.filteredCount > 0
    ensures forall k, l :: 0 <= k < l < |idx| ==> idx[k] < idx[l]
    ensures forall i :: from <= i < |refined| && refined[i].1.filteredCount > 0 ==> i in idx
    decreases |refined| - from
  {
    if from == |refined| then []
    else if refined[from].1.filteredCount > 0 then [from] + ChangedIndices(refined, from + 1)
    else ChangedIndices(refined, from + 1)
  }

  /**
   * The rows of the changes report before sorting: one row per author with `filtered_count > 0`,
   * each exactly once and in the order of the results.
   */
  function ChangedRows(refined: seq<(string, RefinedEntry)>): (rows: seq<Row<RefinedEntry>>)
    ensures forall r :: r in rows <==> exists i :: ChangeRowAt(refined, i, r)
    ensures |rows| == |ChangedIndices(refined, 0)|
    ensures forall k :: 0 <= k < |rows| ==> ChangeRowAt(refined, ChangedIndices(refined, 0)[k], rows[k])
  {
    var idx := ChangedIndices(refined, 0);
    var rows := seq(|idx|, k requires 0 <= k < |idx| =>
      Row(refined[idx[k]].1.filteredCount, refined[idx[k]].0, refined[idx[k]].1));
    assert forall k :: 0 <= k < |rows| ==> ChangeRowAt(refined, idx[k], rows[k]);
    RowsAtIndices(refined, idx, rows);
    rows
  }

  /** Rows taken at every changed position, and only there, are exactly the changed authors' rows. */
  lemma RowsAtIndices(refined: seq<(string, RefinedEntry)>, idx: seq<nat>, rows: seq<Row<RefinedEntry>>)
    requires |rows| == |idx|
    requires forall k :: 0 <= k < |rows| ==> ChangeRowAt(refined, idx[k], rows[k])
    requires forall i :: 0 <= i < |refined| && refined[i].1.filteredCount > 0 ==> i in idx
    ensures forall r :: r in rows <==> exists i :: ChangeRowAt(refined, i, r)
  {
    forall r ensures r in rows ==> exists i :: ChangeRowAt(refined, i, r)
    {
      if r in rows {
        var k :| 0 <= k < |rows| && rows[k] == r;
        assert ChangeRowAt(refined, idx[k], r);
      }
    }
    forall i, r | ChangeRowAt(refined, i, r)
      ensures r in rows
    {
      assert i in idx;
      var k :| 0 <= k < |idx| && idx[k] == i;
      assert rows[k] == r;
    }
  }

  /** No author's row appears twice among the changed rows. */
  lemma ChangedRowsOnce(refined: seq<(string, RefinedEntry)>)
    ensures forall k, l :: 0 <= k < l < |ChangedRows(refined)| ==>
      ChangedIndices(refined, 0)[k] < ChangedIndices(refined, 0)[l]
    ensures |ChangedRows(refined)| <= |refined|
  {
    var idx := ChangedIndices(refined, 0);
    IncreasingBounded(idx, |refined|);
  }

  /** A strictly increasing sequence of numbers below `n` has at most `n` elements. */
  lemma {:induction false} IncreasingBounded(idx: seq<nat>, n: nat)
    requires forall k :: 0 <= k < |idx| ==> idx[k] < n
    requires forall k, l :: 0 <= k < l < |idx| ==> idx[k] < idx[l]
    ensures |idx| <= n
  {
    if idx != [] {
      var last := idx[|idx| - 1];
      IncreasingBounded(idx[..|idx| - 1], last);
    }
  }

  /** The main report: every author, by descending count and then by name. */
  function MainReport(refined: seq<(string, RefinedEntry)>): (rows: seq<Row<RefinedEntry>>)
    ensures RowsSorted(rows)
    ensures multiset(rows) == multiset(CountRows(refined))
    ensures |rows| == |refined|
  {
    var r := SortRows(CountRows(refined));
    assert |r| == |multiset(r)|;
    r
  }

  /** The changes report: exactly the authors with `filtered_count > 0`, by descending removals and then by name. */
  function ChangesReport(refined: seq<(string, RefinedEntry)>): (rows: seq<Row<RefinedEntry>>)
    ensures RowsSorted(rows)
    ensures forall r :: r in rows <==> exists i :: ChangeRowAt(refined, i, r)
    ensures multiset(rows) == multiset(ChangedRows(refined))
    ensures |rows| == |ChangedRows(refined)|
  {
    var rows := ChangedRows(refined);
    var r := SortRows(rows);
    assert forall x :: x in r <==> x in rows by {
      forall x ensures x in r <==> x in rows {
        assert x in r <==> x in multiset(r);
        assert x in rows <==> x in multiset(rows);
      }
    }
    assert |r| == |multiset(r)|;
    r
  }
}
