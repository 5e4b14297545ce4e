/**
 * What the Booker and Hugo scrapers share: their scraped entries and `deduplicate_entries`,
 * which the two scripts define identically. Two entries are duplicates when their author
 * and title agree once lower-cased; of a group of duplicates the first is kept, unless a
 * later winner turns up while the kept one is not a winner: the winner then replaces it and
 * moves to the end of the list.
 */
module Harvest {
  import opened Wrappers
  import opened Strings
  import opened Sorting
  import opened Sequences
  import opened ScrapedText

  /** One scraped nominee: author, title, the winner flag, and the script's other fields. */
  datatype Entry<D> = Entry(author: string, title: string, won: bool, details: D)

  /** `(entry['author'].lower(), entry['title'].lower())`. */
  function Key<D>(e: Entry<D>): (string, string) {
    (Lower(e.author), Lower(e.title))
  }

  // ----- the list operations the loop uses -----

  /** The entry of `d` with key `k` (the last one, which is the only one when keys are distinct). */
  function Find<D>(d: seq<Entry<D>>, k: (string, string)): Option<Entry<D>> {
    if d == [] then None
    else if Key(d[|d| - 1]) == k then Some(d[|d| - 1])
    else Find(d[..|d| - 1], k)
  }

  /** `[e for e in d if key(e) != k]`. */
  function Without<D>(d: seq<Entry<D>>, k: (string, string)): seq<Entry<D>> {
    if d == [] then []
    else Without(d[..|d| - 1], k) + if Key(d[|d| - 1]) != k then [d[|d| - 1]] else []
  }

  lemma FindSnoc<D>(d: seq<Entry<D>>, x: Entry<D>, k: (string, string))
    ensures Find(d + [x], k) == if Key(x) == k then Some(x) else Find(d, k)
  {
    assert (d + [x])[..|d|] == d;
  }

  lemma WithoutSnoc<D>(d: seq<Entry<D>>, x: Entry<D>, k: (string, string))
    ensures Without(d + [x], k) == Without(d, k) + if Key(x) != k then [x] else []
  {
    assert (d + [x])[..|d|] == d;
  }

  /** Dropping key `k` leaves every other key's entry where it was. */
  lemma {:induction false} FindWithout<D>(d: seq<Entry<D>>, k: (string, string), k': (string, string))
    ensures Find(Without(d, k), k') == if k' == k then None else Find(d, k')
  {
    if d != [] {
      var init, last := d[..|d| - 1], d[|d| - 1];
      FindWithout(init, k, k');
      if Key(last) != k {
        assert Without(d, k) == Without(init, k) + [last];
        FindSnoc(Without(init, k), last, k');
      } else {
        assert Without(d, k) == Without(init, k);
      }
    }
  }

  /** No entry has key `k` exactly when `Find` finds none. */
  lemma {:induction false} FindNone<D>(d: seq<Entry<D>>, k: (string, string))
    ensures Find(d, k).None? <==> forall i :: 0 <= i < |d| ==> Key(d[i]) != k
  {
    if d != [] {
      var init := d[..|d| - 1];
      FindNone(init, k);
      assert forall i :: 0 <= i < |init| ==> init[i] == d[i];
    }
  }

  lemma {:induction false} WithoutKeys<D>(d: seq<Entry<D>>, k: (string, string))
    ensures forall e :: e in Without(d, k) ==> e in d && Key(e) != k
  {
    if d != [] {
      var init := d[..|d| - 1];
      WithoutKeys(init, k);
      assert forall e :: e in init ==> e in d;
    }
  }

  // ----- the specification of `deduplicate_entries` -----

  /** The deduplicated list after the entries `xs`, one entry at a time. */
  function Dedup<D>(xs: seq<Entry<D>>): seq<Entry<D>> {
    if xs == [] then []
    else
      var d := Dedup(xs[..|xs| - 1]);
      var x := xs[|xs| - 1];
      match Find(d, Key(x))
      case None => d + [x]
      case Some(kept) => if x.won && !kept.won then Without(d, Key(x)) + [x] else d
  }

  /** Some entry of `xs` has key `k`, and some entry with key `k` won. */
  predicate HasKey<D>(xs: seq<Entry<D>>, k: (string, string)) {
    exists j :: 0 <= j < |xs| && Key(xs[j]) == k
  }

  predicate HasWinner<D>(xs: seq<Entry<D>>, k: (string, string)) {
    exists j :: 0 <= j < |xs| && Key(xs[j]) == k && xs[j].won
  }

  lemma HasSnoc<D>(xs: seq<Entry<D>>, k: (string, string))
    requires xs != []
    ensures HasKey(xs, k) <==> HasKey(xs[..|xs| - 1], k) || Key(xs[|xs| - 1]) == k
    ensures HasWinner(xs, k) <==> HasWinner(xs[..|xs| - 1], k) || (Key(xs[|xs| - 1]) == k && xs[|xs| - 1].won)
  {
    var init := xs[..|xs| - 1];
    assert forall j :: 0 <= j < |init| ==> init[j] == xs[j];
  }

  /**
   * The key set is kept: the result has an entry for `k` exactly when the input does, and that
   * entry is a winner exactly when some input entry with key `k` is.
   */
  lemma {:induction false} DedupFind<D>(xs: seq<Entry<D>>, k: (string, string))
    ensures Find(Dedup(xs), k).Some? <==> HasKey(xs, k)
    ensures Find(Dedup(xs), k).Some? ==> (Find(Dedup(xs), k).value.won <==> HasWinner(xs, k))
  {
    if xs != [] {
      var p, x := xs[..|xs| - 1], xs[|xs| - 1];
      var d := Dedup(p);
      DedupFind(p, k);
      DedupFind(p, Key(x));
      HasSnoc(xs, k);
      match Find(d, Key(x))
      case None =>
        FindSnoc(d, x, k);
      case Some(kept) =>
        if x.won && !kept.won {
          FindWithout(d, Key(x), k);
          FindSnoc(Without(d, Key(x)), x, k);
        }
    }
  }

  /** No two entries of the result are duplicates of each other. */
  lemma {:induction false} DedupDistinct<D>(xs: seq<Entry<D>>)
    ensures forall i, j :: 0 <= i < j < |Dedup(xs)| ==> Key(Dedup(xs)[i]) != Key(Dedup(xs)[j])
  {
    if xs != [] {
      var p, x := xs[..|xs| - 1], xs[|xs| - 1];
      var d := Dedup(p);
      DedupDistinct(p);
      match Find(d, Key(x))
      case None =>
        FindNone(d, Key(x));
      case Some(kept) =>
        if x.won && !kept.won {
          var w := Without(d, Key(x));
          WithoutKeys(d, Key(x));
          WithoutDistinct(d, Key(x));
          assert forall i :: 0 <= i < |w| ==> w[i] in w;
        }
    }
  }

  lemma {:induction false} WithoutDistinct<D>(d: seq<Entry<D>>, k: (string, string))
    requires forall i, j :: 0 <= i < j < |d| ==> Key(d[i]) != Key(d[j])
    ensures forall i, j :: 0 <= i < j < |Without(d, k)| ==> Key(Without(d, k)[i]) != Key(Without(d, k)[j])
  {
    if d != [] {
      var init, last := d[..|d| - 1], d[|d| - 1];
      assert forall i :: 0 <= i < |init| ==> init[i] == d[i];
      WithoutDistinct(init, k);
      if Key(last) != k {
        var w := Without(init, k);
        WithoutKeys(init, k);
        forall i | 0 <= i < |w| ensures Key(w[i]) != Key(last) {
          assert w[i] in w;
          var j :| 0 <= j < |init| && init[j] == w[i];
        }
      }
    }
  }

  // ----- an independent description: which input entries survive -----

  /** No earlier entry is a duplicate of entry `i`. */
  predicate FirstOfKey<D>(xs: seq<Entry<D>>, i: nat)
    requires i < |xs|
  {
    forall j :: 0 <= j < i ==> Key(xs[j]) != Key(xs[i])
  }

  /** Entry `i` is a winner and no earlier duplicate of it is. */
  predicate FirstWinner<D>(xs: seq<Entry<D>>, i: nat)
    requires i < |xs|
  {
    xs[i].won && forall j :: 0 <= j < i && Key(xs[j]) == Key(xs[i]) ==> !xs[j].won
  }

  /** Entry `i` survives: it is the first winner of its group, or its group has no winner and it comes first. */
  predicate Survives<D>(xs: seq<Entry<D>>, i: nat)
    requires i < |xs|
  {
    FirstWinner(xs, i) || (FirstOfKey(xs, i) && !HasWinner(xs, Key(xs[i])))
  }

  /** The entries of `xs` whose flag in `keep` is set, in order. */
  function Select<T>(xs: seq<T>, keep: seq<bool>): seq<T>
    requires |keep| == |xs|
  {
    if xs == [] then [] else Select(xs[..|xs| - 1], keep[..|xs| - 1]) + if keep[|xs| - 1] then [xs[|xs| - 1]] else []
  }

  /** Which entries of `xs` survive. */
  function Mask<D>(xs: seq<Entry<D>>): seq<bool> {
    seq(|xs|, i requires 0 <= i < |xs| => Survives(xs, i))
  }

  /** The surviving entries, in input order. */
  function Survivors<D>(xs: seq<Entry<D>>): seq<Entry<D>> {
    Select(xs, Mask(xs))
  }

  /** The replacement case for a new last entry `x` of `p + [x]`: a winner in a group that had none. */
  predicate Replaces<D>(p: seq<Entry<D>>, x: Entry<D>) {
    x.won && HasKey(p, Key(x)) && !HasWinner(p, Key(x))
  }

  /** Appending `x` changes the survival of an earlier entry only in the replacement case, and only in `x`'s group. */
  lemma SurvivesSnoc<D>(p: seq<Entry<D>>, x: Entry<D>, i: nat)
    requires i < |p|
    ensures Survives(p + [x], i) <==> Survives(p, i) && !(Replaces(p, x) && Key(p[i]) == Key(x))
  {
    var xs := p + [x];
    assert xs[..|p|] == p;
    HasSnoc(xs, Key(p[i]));
    assert forall j :: 0 <= j < |p| ==> xs[j] == p[j];
    if Key(p[i]) == Key(x) {
      assert HasKey(p, Key(x));
      if FirstWinner(p, i) {
        assert HasWinner(p, Key(x));
      }
    }
  }

  /** Whether the new last entry survives. */
  lemma SurvivesLast<D>(p: seq<Entry<D>>, x: Entry<D>)
    ensures Survives(p + [x], |p|) <==> !HasKey(p, Key(x)) || Replaces(p, x)
  {
    var xs := p + [x];
    assert xs[..|p|] == p;
    assert forall j :: 0 <= j < |p| ==> xs[j] == p[j];
    HasSnoc(xs, Key(x));
    if !HasKey(p, Key(x)) {
      assert FirstOfKey(xs, |p|);
    }
    if HasWinner(p, Key(x)) {
      var j :| 0 <= j < |p| && Key(p[j]) == Key(x) && p[j].won;
      assert xs[j] == p[j];
    }
    if HasKey(p, Key(x)) {
      var j :| 0 <= j < |p| && Key(p[j]) == Key(x);
      assert xs[j] == p[j];
    }
  }

  lemma WithoutStep<D>(b: seq<Entry<D>>, y: Entry<D>, k: (string, string), sp: bool, sx: bool)
    requires sx == (sp && Key(y) != k)
    ensures Without(b, k) + (if sx then [y] else []) == Without(b + (if sp then [y] else []), k)
  {
    if sp {
      WithoutSnoc(b, y, k);
    } else {
      assert b + [] == b;
    }
  }

  lemma SurvivesReplaced<D>(p: seq<Entry<D>>, x: Entry<D>, i: nat)
    requires i < |p| && Replaces(p, x)
    ensures Survives(p + [x], i) == (Survives(p, i) && Key(p[i]) != Key(x))
  {
    SurvivesSnoc(p, x, i);
  }

  lemma SurvivesKept<D>(p: seq<Entry<D>>, x: Entry<D>, i: nat)
    requires i < |p| && !Replaces(p, x)
    ensures Survives(p + [x], i) == Survives(p, i)
  {
    SurvivesSnoc(p, x, i);
  }

  lemma SelectSnoc<T>(xs: seq<T>, y: T, keep: seq<bool>, b: bool)
    requires |keep| == |xs|
    ensures Select(xs + [y], keep + [b]) == Select(xs, keep) + if b then [y] else []
  {
    assert (xs + [y])[..|xs|] == xs;
    assert (keep + [b])[..|keep|] == keep;
  }

  /** Clearing the flags of key `k` selects what `Without` leaves of the selection. */
  lemma {:induction false} SelectWithout<D>(xs: seq<Entry<D>>, kp: seq<bool>, kx: seq<bool>, k: (string, string))
    requires |kp| == |xs| && |kx| == |xs|
    requires forall i :: 0 <= i < |xs| ==> kx[i] == (kp[i] && Key(xs[i]) != k)
    ensures Select(xs, kx) == Without(Select(xs, kp), k)
  {
    if xs != [] {
      var n := |xs| - 1;
      SelectWithout(xs[..n], kp[..n], kx[..n], k);
      WithoutStep(Select(xs[..n], kp[..n]), xs[n], k, kp[n], kx[n]);
    }
  }

  lemma {:induction false} SelectFrom<T>(xs: seq<T>, keep: seq<bool>)
    requires |keep| == |xs|
    ensures forall e :: e in Select(xs, keep) ==> e in xs
  {
    if xs != [] {
      var n := |xs| - 1;
      SelectFrom(xs[..n], keep[..n]);
      assert forall e :: e in xs[..n] ==> e in xs;
    }
  }

  /** Appending `x` to `p`: the survivors of `p`, less `x`'s group in the replacement case, then `x` if it survives. */
  lemma SurvivorsSnoc<D>(p: seq<Entry<D>>, x: Entry<D>)
    ensures Survivors(p + [x]) ==
      (if Replaces(p, x) then Without(Survivors(p), Key(x)) else Survivors(p)) + if Survives(p + [x], |p|) then [x] else []
  {
    var xs := p + [x];
    var kx := Mask(xs)[..|p|];
    assert Mask(xs) == kx + [Survives(xs, |p|)];
    assert xs[..|p|] == p;
    SelectSnoc(p, x, kx, Survives(xs, |p|));
    if Replaces(p, x) {
      forall i | 0 <= i < |p| ensures kx[i] == (Mask(p)[i] && Key(p[i]) != Key(x)) {
        SurvivesReplaced(p, x, i);
      }
      SelectWithout(p, Mask(p), kx, Key(x));
    } else {
      forall i | 0 <= i < |p| ensures kx[i] == Mask(p)[i] {
        SurvivesKept(p, x, i);
      }
      assert kx == Mask(p);
    }
  }

  /** `deduplicate_entries` keeps exactly the surviving entries, in input order. */
  lemma {:induction false} DedupIsSurvivors<D>(xs: seq<Entry<D>>)
    ensures Dedup(xs) == Survivors(xs)
  {
    if xs != [] {
      var p, x := xs[..|xs| - 1], xs[|xs| - 1];
      assert xs == p + [x];
      DedupIsSurvivors(p);
      DedupFind(p, Key(x));
      SurvivorsSnoc(p, x);
      SurvivesLast(p, x);
    }
  }

  /** Every entry left comes from the input. */
  lemma SurvivorsFromInput<D>(xs: seq<Entry<D>>)
    ensures forall e :: e in Survivors(xs) ==> e in xs
  {
    SelectFrom(xs, Mask(xs));
  }

  // ----- the loop -----

  lemma DedupStep<D>(xs: seq<Entry<D>>, i: nat)
    requires i < |xs|
    ensures Dedup(xs[..i + 1]) ==
      match Find(Dedup(xs[..i]), Key(xs[i]))
      case None => Dedup(xs[..i]) + [xs[i]]
      case Some(kept) => if xs[i].won && !kept.won then Without(Dedup(xs[..i]), Key(xs[i])) + [xs[i]] else Dedup(xs[..i])
  {
    assert xs[..i + 1][..i] == xs[..i];
  }

  /** `deduplicate_entries`, with its `seen` dict from key to the entry kept. */
  method Deduplicate<D>(entries: seq<Entry<D>>) returns (deduplicated: seq<Entry<D>>)
    ensures deduplicated == Dedup(entries)
  {
    var seen: map<(string, string), Entry<D>> := map[];
    deduplicated := [];
    for i := 0 to |entries|
      invariant deduplicated == Dedup(entries[..i])
      invariant forall k :: k in seen <==> Find(deduplicated, k).Some?
      invariant forall k :: k in seen ==> Find(deduplicated, k) == Some(seen[k])
    {
      var entry := entries[i];
      var key := Key(entry);
      DedupStep(entries, i);
      if key !in seen {
        forall k ensures Find(deduplicated + [entry], k) == if k == key then Some(entry) else Find(deduplicated, k) {
          FindSnoc(deduplicated, entry, k);
        }
        seen := seen[key := entry];
        deduplicated := deduplicated + [entry];
      } else if entry.won && !seen[key].won {
        forall k ensures Find(Without(deduplicated, key) + [entry], k) == if k == key then Some(entry) else Find(deduplicated, k) {
          FindWithout(deduplicated, key, k);
          FindSnoc(Without(deduplicated, key), entry, k);
        }
        deduplicated := Without(deduplicated, key);
        seen := seen[key := entry];
        deduplicated := deduplicated + [entry];
      }
    }
    assert entries[..|entries|] == entries;
  }

  // ----- what `main` saves -----

  /**
   * What the `main` of both scripts saves: a prefix of the deduplicated entries, no two of
   * them duplicates of each other, each taken from the scan; and a sorted, duplicate-free list
   * of exactly the names that `name` draws from the entries kept.
   */
  lemma SavedOutput<D>(entries: seq<Entry<D>>, limit: int, name: Entry<D> -> Option<string>)
    ensures var kept := Truncate(Dedup(entries), limit);
      var authors := SortUnique(Names(kept, name));
      kept <= Dedup(entries) &&
      (forall i, j :: 0 <= i < j < |kept| ==> Key(kept[i]) != Key(kept[j])) &&
      (forall e :: e in kept ==> e in entries) &&
      StrictlySorted(authors) &&
      forall a :: a in authors <==> exists i :: 0 <= i < |kept| && name(kept[i]) == Some(a)
  {
    var d := Dedup(entries);
    var kept := Truncate(d, limit);
    TruncateIsPrefix(d, limit);
    DedupDistinct(entries);
    forall i, j | 0 <= i < j < |kept| ensures Key(kept[i]) != Key(kept[j]) {
      assert kept[i] == d[i] && kept[j] == d[j];
    }
    DedupIsSurvivors(entries);
    SurvivorsFromInput(entries);
    forall e | e in kept ensures e in entries {
      var i :| 0 <= i < |kept| && kept[i] == e;
      assert d[i] == e;
    }
    forall a ensures a in SortUnique(Names(kept, name)) <==> exists i :: 0 <= i < |kept| && name(kept[i]) == Some(a) {
      NamesYield(kept, name, a);
      assert a in Elems(Names(kept, name)) <==> a in Names(kept, name);
      assert a in Elems(SortUnique(Names(kept, name))) <==> a in SortUnique(Names(kept, name));
    }
  }
}
